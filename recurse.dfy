/**
 * `recurse(subreddit, hot_list, after)`: walk every page of the hot listing and
 * append each post's title to `hot_list`, in place. The mutable default
 * argument becomes an explicit accumulator object, and the recursion on the
 * cursor becomes a loop over the pages.
 */
module Recurse {
  import opened Listing

  /** `post.get('data', {}).get('title')`: a missing or null title is None. */
  function TitleOf(item: Item): (t: Option<string>)
    ensures t.Some? <==> item.title.Text?
    ensures t.Some? ==> t.value == item.title.s
  {
    match item.title
    case Text(s) => Some(s)
    case _ => None
  }

  /** What the `for post in posts` loop appends: one element per item, in item order. */
  function ItemTitles(posts: seq<Item>): seq<Option<string>> {
    seq(|posts|, i requires 0 <= i < |posts| => TitleOf(posts[i]))
  }

  function PageTitles(p: Page): seq<Option<string>> {
    if p.Fail? then [] else ItemTitles(p.items)
  }

  /** What a run of pages appends, in page order. */
  function Titles(pages: seq<Page>): seq<Option<string>> {
    if pages == [] then [] else Titles(pages[..|pages| - 1]) + PageTitles(pages[|pages| - 1])
  }

  /** Number of items on the successful pages. */
  function ItemCount(pages: seq<Page>): nat {
    if pages == [] then 0
    else ItemCount(pages[..|pages| - 1]) + (if pages[|pages| - 1].Ok? then |pages[|pages| - 1].items| else 0)
  }

  /** Every item adds exactly one element, whether or not it has a title. */
  lemma {:induction false} TitlesLength(pages: seq<Page>)
    ensures |Titles(pages)| == ItemCount(pages)
  {
    if pages != [] {
      TitlesLength(pages[..|pages| - 1]);
    }
  }

  /** One more page at the end appends exactly its titles. */
  lemma TitlesAppend(pages: seq<Page>, p: Page)
    ensures Titles(pages + [p]) == Titles(pages) + PageTitles(p)
  {
    assert (pages + [p])[..|pages|] == pages;
  }

  /** The titles of a run of pages are the titles of its parts, in order. */
  lemma {:induction false} TitlesConcat(p: seq<Page>, q: seq<Page>)
    ensures Titles(p + q) == Titles(p) + Titles(q)
    decreases |q|
  {
    if q == [] {
      assert p + q == p;
    } else {
      var q', last := q[..|q| - 1], q[|q| - 1];
      assert q == q' + [last];
      assert p + q == (p + q') + [last];
      TitlesConcat(p, q');
      var a, b, c := Titles(p), Titles(q'), PageTitles(last);
      calc {
        Titles(p + q);
        Titles((p + q') + [last]);
        { TitlesAppend(p + q', last); }
        (a + b) + c;
        a + (b + c);
        { TitlesAppend(q', last); }
        a + Titles(q' + [last]);
      }
    }
  }

  /** Processing one more page appends exactly that page's titles. */
  lemma TitlesSnoc(pages: seq<Page>, i: nat)
    requires i < |pages|
    ensures Titles(pages[..i + 1]) == Titles(pages[..i]) + PageTitles(pages[i])
  {
    assert pages[..i + 1][..i] == pages[..i];
  }

  /** Element `k` of what a page appends is the title of its item `k`. */
  lemma {:induction false} TitleAt(pages: seq<Page>, j: nat, k: nat)
    requires j < |pages| && pages[j].Ok? && k < |pages[j].items|
    ensures |Titles(pages[..j])| + k < |Titles(pages)|
    ensures Titles(pages)[|Titles(pages[..j])| + k] == TitleOf(pages[j].items[k])
  {
    assert pages == pages[..j] + [pages[j]] + pages[j + 1..];
    TitlesConcat(pages[..j] + [pages[j]], pages[j + 1..]);
    TitlesConcat(pages[..j], [pages[j]]);
    assert Titles([pages[j]]) == PageTitles(pages[j]) by {
      assert [pages[j]][..0] == [];
    }
  }

  /** The list `recurse` appends to and returns. */
  class HotList {
    var titles: seq<Option<string>>

    constructor (initial: seq<Option<string>>)
      ensures titles == initial
    {
      titles := initial;
    }
  }

  /** The `for post in posts` loop: one append per post. */
  method AppendTitles(hotList: HotList, posts: seq<Item>)
    modifies hotList
    ensures hotList.titles == old(hotList.titles) + ItemTitles(posts)
  {
    for j := 0 to |posts|
      invariant hotList.titles == old(hotList.titles) + ItemTitles(posts)[..j]
    {
      hotList.titles := hotList.titles + [TitleOf(posts[j])];
      assert ItemTitles(posts)[..j + 1] == ItemTitles(posts)[..j] + [TitleOf(posts[j])];
    }
    assert ItemTitles(posts)[..|posts|] == ItemTitles(posts);
  }

  /** The accumulator receives the titles of every page the walk processed,
      even when a later page fails; the call returns the accumulator when the
      walk ends on a falsy cursor and None when a page fails. */
  method Recurse(hotList: HotList, pages: seq<Page>) returns (r: Option<HotList>)
    modifies hotList
    ensures hotList.titles == old(hotList.titles) + Titles(pages[..Walk(pages).n])
    ensures r == (if Walk(pages).Done? then Some(hotList) else None)
  {
    ghost var start := hotList.titles;
    var i := 0;
    while i < |pages| && pages[i].Ok?
      invariant Following(pages, i)
      invariant hotList.titles == start + Titles(pages[..i])
      decreases |pages| - i
    {
      AppendTitles(hotList, pages[i].items);
      TitlesSnoc(pages, i);
      assert hotList.titles == start + Titles(pages[..i + 1]);
      if !Truthy(pages[i].after) {
        WalkDone(pages, i + 1);
        return Some(hotList);
      }
      FollowingStep(pages, i);
      i := i + 1;
    }
    WalkFailed(pages, i);
    return None;
  }
}
