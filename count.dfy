/**
 * `count_words(subreddit, word_list, after, counts)`: walk every page of the
 * hot listing, count how often each keyword occurs as a cleaned word of a
 * title, and once the last page is reached emit the non-zero counts, largest
 * first and alphabetically among equals. The dictionary threaded through the
 * recursion is a map updated by the counting loops; the recursion on the
 * cursor is a loop over the pages; the printed lines are returned as
 * (keyword, count) pairs.
 */
module Count {
  import opened Listing
  import opened Text

  /** The keys of the tally: every keyword, lower-cased. Keywords equal up to
      case share one key. */
  function Keywords(words: seq<string>): (keys: set<string>)
    ensures forall i :: 0 <= i < |words| ==> Lower(words[i]) in keys
    ensures forall k :: k in keys ==> exists i :: 0 <= i < |words| && Lower(words[i]) == k
  {
    set w | w in words :: Lower(w)
  }

  /** Every key is already lower-case, so lower-casing it again finds the same key. */
  lemma KeysLowered(words: seq<string>)
    ensures forall k :: k in Keywords(words) ==> Lower(k) == k
  {
    forall k | k in Keywords(words)
      ensures Lower(k) == k
    {
      var i :| 0 <= i < |words| && Lower(words[i]) == k;
      LowerIdempotent(words[i]);
    }
  }

  /** `word.strip('._!?;,')` applied to each word. */
  function Cleaned(words: seq<string>): seq<string> {
    seq(|words|, i requires 0 <= i < |words| => Strip(words[i]))
  }

  /** The cleaned words of one title: lower-case it, split it on whitespace,
      strip each word. */
  function Tokens(title: string): seq<string> {
    Cleaned(Split(Lower(title)))
  }

  lemma CleanedConcat(a: seq<string>, b: seq<string>)
    ensures Cleaned(a + b) == Cleaned(a) + Cleaned(b)
  {
    assert |Cleaned(a + b)| == |Cleaned(a) + Cleaned(b)|;
    forall i | 0 <= i < |a| + |b|
      ensures Cleaned(a + b)[i] == (Cleaned(a) + Cleaned(b))[i]
    {
      if i >= |a| {
        assert (a + b)[i] == b[i - |a|];
      }
    }
  }

  /** Titles are tokenised word by word: a separator splits the cleaned words
      of a title into those of its two sides. */
  lemma TokensAtSpace(a: string, c: char, b: string)
    requires IsSpace(c)
    ensures Tokens(a + [c] + b) == Tokens(a) + Tokens(b)
  {
    LowerAround(a, c, b);
    SplitAtSpace(Lower(a), LowerChar(c), Lower(b));
    CleanedConcat(Split(Lower(a)), Split(Lower(b)));
  }

  /** A title that is one word, already lower-case and free of strip
      characters at its ends, is that one token. */
  lemma TokensOfWord(w: string)
    requires w != [] && NoSpace(w) && Lower(w) == w
    requires !IsStripChar(w[0]) && !IsStripChar(w[|w| - 1])
    ensures Tokens(w) == [w]
  {
    SplitWord(w);
    assert [] + w + [] == w;
    StripUnique([], w, []);
  }

  /** Keywords that differ only in case share one key. */
  lemma SharedKey()
    ensures Keywords(["Go", "go"]) == {"go"}
  {
    assert Lower("Go") == "go";
    assert Lower("go") == "go";
  }

  /** A missing title defaults to `''` and has no words. A null title has
      none either, but it never gets here: see CountView. */
  function ItemTokens(item: Item): seq<string> {
    match item.title
    case Text(s) => Tokens(s)
    case Missing => Tokens("")
    case Null => []
  }

  /** A string title gives one cleaned word per word of the title; a missing
      title, read as `''`, gives none. */
  lemma ItemTokensCount(item: Item)
    ensures item.title.Text? ==> |ItemTokens(item)| == |Split(Lower(item.title.s))|
    ensures item.title.Missing? ==> ItemTokens(item) == []
  {
  }

  /** The cleaned words of a page's titles, in item order. */
  function PageTokens(posts: seq<Item>): seq<string> {
    if posts == [] then [] else PageTokens(posts[..|posts| - 1]) + ItemTokens(posts[|posts| - 1])
  }

  lemma PageTokensSnoc(posts: seq<Item>, j: nat)
    requires j < |posts|
    ensures PageTokens(posts[..j + 1]) == PageTokens(posts[..j]) + ItemTokens(posts[j])
  {
    assert posts[..j + 1][..j] == posts[..j];
  }

  /** The cleaned words of the successful pages of a run, in page order. */
  function WalkTokens(pages: seq<Page>): seq<string> {
    if pages == [] then []
    else
      var last := pages[|pages| - 1];
      WalkTokens(pages[..|pages| - 1]) + (if last.Ok? then PageTokens(last.items) else [])
  }

  lemma WalkTokensSnoc(pages: seq<Page>, i: nat)
    requires i < |pages| && pages[i].Ok?
    ensures WalkTokens(pages[..i + 1]) == WalkTokens(pages[..i]) + PageTokens(pages[i].items)
  {
    assert pages[..i + 1][..i] == pages[..i];
  }

  /** A null title makes `.lower()` raise, which the handler turns into a
      silent return: for counting, such a page behaves as a failed one. */
  predicate HasNullTitle(posts: seq<Item>) {
    exists i :: 0 <= i < |posts| && posts[i].title.Null?
  }

  function CountView(p: Page): Page {
    if p.Ok? && HasNullTitle(p.items) then Fail else p
  }

  /** A page with a null title anywhere counts as failed, whatever its cursor. */
  lemma NullTitleFails(p: Page, j: nat)
    requires p.Ok? && j < |p.items| && p.items[j].title.Null?
    ensures CountView(p) == Fail
  {
  }

  /** Any other page is seen as it is. */
  lemma CountViewKeeps(p: Page)
    requires !(p.Ok? && HasNullTitle(p.items))
    ensures CountView(p) == p
  {
  }

  function CountViews(pages: seq<Page>): seq<Page> {
    seq(|pages|, i requires 0 <= i < |pages| => CountView(pages[i]))
  }

  /** The tally once `toks` have been seen: every key, with its number of
      occurrences in `toks`. */
  function Tally(words: seq<string>, toks: seq<string>): map<string, nat> {
    map k | k in Keywords(words) :: multiset(toks)[k]
  }

  /** Seeding (the `counts is None` branch): every lower-cased keyword at 0. */
  method SeedCounts(words: seq<string>) returns (counts: map<string, nat>)
    ensures counts.Keys == Keywords(words)
    ensures forall k :: k in counts ==> counts[k] == 0
  {
    counts := map[];
    for i := 0 to |words|
      invariant counts.Keys == Keywords(words[..i])
      invariant forall k :: k in counts ==> counts[k] == 0
    {
      var wordLower := Lower(words[i]);
      counts := counts[wordLower := if wordLower in counts then counts[wordLower] else 0];
      assert words[..i + 1] == words[..i] + [words[i]];
    }
    assert words[..|words|] == words;
  }

  /** `r` is `base` after seeing `toks`: the same keys, each grown by its
      number of occurrences in `toks`. */
  ghost predicate Counted(r: map<string, nat>, base: map<string, nat>, toks: seq<string>) {
    r.Keys == base.Keys && forall k :: k in r ==> r[k] == base[k] + multiset(toks)[k]
  }

  /** `if word_clean in counts: counts[word_clean] += 1`: no key is added,
      and only the key equal to the word, if there is one, grows, by one. */
  function Bump(counts: map<string, nat>, word: string): (r: map<string, nat>)
    ensures r.Keys == counts.Keys
    ensures forall k :: k in r ==> r[k] == counts[k] + (if k == word then 1 else 0)
  {
    if word in counts then counts[word := counts[word] + 1] else counts
  }

  /** One more word: only the key equal to it, if any, grows, by one. */
  lemma BumpCounted(r: map<string, nat>, base: map<string, nat>, toks: seq<string>, word: string)
    requires Counted(r, base, toks)
    ensures Counted(Bump(r, word), base, toks + [word])
  {
    assert multiset(toks + [word]) == multiset(toks) + multiset{word};
  }

  /** Counting two runs of words one after the other counts their concatenation. */
  lemma CountedTrans(r1: map<string, nat>, r2: map<string, nat>, base: map<string, nat>, t1: seq<string>, t2: seq<string>)
    requires Counted(r1, base, t1) && Counted(r2, r1, t2)
    ensures Counted(r2, base, t1 + t2)
  {
    assert multiset(t1 + t2) == multiset(t1) + multiset(t2);
  }

  /** Counting one more post of a page extends the count of the page so far. */
  lemma PageStep(counts: map<string, nat>, c: map<string, nat>, next: map<string, nat>, posts: seq<Item>, j: nat)
    requires j < |posts|
    requires Counted(c, counts, PageTokens(posts[..j]))
    requires Counted(next, c, ItemTokens(posts[j]))
    ensures Counted(next, counts, PageTokens(posts[..j + 1]))
  {
    PageTokensSnoc(posts, j);
    CountedTrans(c, next, counts, PageTokens(posts[..j]), ItemTokens(posts[j]));
  }

  /** Counts never decrease, and no key is ever added. */
  lemma CountedMonotone(r: map<string, nat>, base: map<string, nat>, toks: seq<string>)
    requires Counted(r, base, toks)
    ensures r.Keys == base.Keys && forall k :: k in base ==> base[k] <= r[k]
  {
  }

  /** Counting one more word of a title extends the count of the title so far. */
  lemma WordStep(r: map<string, nat>, counts: map<string, nat>, words: seq<string>, i: nat)
    requires i < |words|
    requires Counted(r, counts, Cleaned(words)[..i])
    ensures Counted(Bump(r, Strip(words[i])), counts, Cleaned(words)[..i + 1])
  {
    var c := Cleaned(words);
    var w := Strip(words[i]);
    assert c[i] == w;
    assert c[..i + 1] == c[..i] + [c[i]];
    BumpCounted(r, counts, c[..i], w);
  }

  /** The inner loop over the words of one title: a cleaned word that is a key
      adds one to that key; nothing else changes and no key is added. */
  method CountCleaned(counts: map<string, nat>, words: seq<string>) returns (r: map<string, nat>)
    ensures Counted(r, counts, Cleaned(words))
  {
    r := counts;
    for i := 0 to |words|
      invariant Counted(r, counts, Cleaned(words)[..i])
    {
      var wordClean := Strip(words[i]);
      WordStep(r, counts, words, i);
      r := Bump(r, wordClean);
    }
    assert Cleaned(words)[..|words|] == Cleaned(words);
  }

  /** One post: its title lower-cased and split, each cleaned
      word counted. None when the title is null, where `.lower()` raises. */
  method CountPost(counts: map<string, nat>, post: Item) returns (r: Option<map<string, nat>>)
    ensures r.None? <==> post.title.Null?
    ensures r.Some? ==> Counted(r.value, counts, ItemTokens(post))
  {
    if post.title.Null? {
      return None;
    }
    var title := if post.title.Missing? then "" else post.title.s;
    var words := Split(Lower(title));
    var c := CountCleaned(counts, words);
    return Some(c);
  }

  /** The loop over the posts of one page. None when a title is null (the
      exception ends the whole call); otherwise each key has grown by its
      number of occurrences among the page's cleaned words. */
  method CountPage(counts: map<string, nat>, posts: seq<Item>) returns (r: Option<map<string, nat>>)
    ensures r.None? <==> HasNullTitle(posts)
    ensures r.Some? ==> Counted(r.value, counts, PageTokens(posts))
  {
    var c := counts;
    for j := 0 to |posts|
      invariant !HasNullTitle(posts[..j])
      invariant Counted(c, counts, PageTokens(posts[..j]))
    {
      var next := CountPost(c, posts[j]);
      NullStep(posts, j);
      if next.None? {
        return None;
      }
      PageStep(counts, c, next.value, posts, j);
      c := next.value;
    }
    assert posts[..|posts|] == posts;
    return Some(c);
  }

  /** One more post has a null title among the first `j + 1` exactly when one
      of the first `j` had, or this one has; and then the whole page has one. */
  lemma NullStep(posts: seq<Item>, j: nat)
    requires j < |posts|
    ensures HasNullTitle(posts[..j + 1]) <==> HasNullTitle(posts[..j]) || posts[j].title.Null?
    ensures posts[j].title.Null? ==> HasNullTitle(posts)
  {
    var p := posts[..j + 1];
    assert p[j] == posts[j];
    if HasNullTitle(posts[..j]) {
      var i :| 0 <= i < j && posts[..j][i].title.Null?;
      assert p[i] == posts[..j][i];
    }
    if HasNullTitle(p) {
      var i :| 0 <= i < j + 1 && p[i].title.Null?;
      if i < j {
        assert posts[..j][i] == p[i];
      }
    }
  }

  /** The sort key `(-count, word)`: larger counts first, then words in
      ascending string order. */
  predicate Before(a: (string, nat), b: (string, nat)) {
    a.1 > b.1 || (a.1 == b.1 && LexLess(a.0, b.0))
  }

  predicate StrictlySorted(r: seq<(string, nat)>) {
    forall i, j :: 0 <= i < j < |r| ==> Before(r[i], r[j])
  }

  /** The zero filter: the entries whose count is positive. */
  function Positive(counts: map<string, nat>): (r: map<string, nat>)
    ensures r.Keys <= counts.Keys
    ensures forall k :: k in r ==> r[k] == counts[k] && r[k] > 0
    ensures forall k :: k in counts && counts[k] > 0 ==> k in r
  {
    map k | k in counts && counts[k] > 0 :: counts[k]
  }

  /** `r` holds exactly the entries of `m`. */
  ghost predicate Lists(m: map<string, nat>, r: seq<(string, nat)>) {
    && (forall i :: 0 <= i < |r| ==> r[i].0 in m && m[r[i].0] == r[i].1)
    && (forall k :: k in m ==> (k, m[k]) in r)
  }

  /** What is printed for a final tally: its non-zero entries, in key order. */
  ghost predicate IsReport(counts: map<string, nat>, r: seq<(string, nat)>) {
    Lists(Positive(counts), r) && StrictlySorted(r)
  }

  lemma BeforeIrreflexive(a: (string, nat))
    ensures !Before(a, a)
  {
    LexIrreflexive(a.0);
  }

  lemma BeforeTransitive(a: (string, nat), b: (string, nat), c: (string, nat))
    requires Before(a, b) && Before(b, c)
    ensures Before(a, c)
  {
    if a.1 == b.1 == c.1 {
      LexTransitive(a.0, b.0, c.0);
    }
  }

  lemma BeforeTotal(a: (string, nat), b: (string, nat))
    requires a.0 != b.0
    ensures Before(a, b) || Before(b, a)
  {
    LexTotal(a.0, b.0);
  }

  lemma BeforeAsymmetric(a: (string, nat), b: (string, nat))
    requires Before(a, b)
    ensures !Before(b, a)
  {
    if a.1 == b.1 {
      LexAsymmetric(a.0, b.0);
    }
  }

  /** Dropping the first entry of a sorted listing lists the rest of the map:
      the first key occurs nowhere else. */
  lemma ListsTail(m: map<string, nat>, r: seq<(string, nat)>)
    requires Lists(m, r) && StrictlySorted(r) && r != []
    ensures Lists(m - {r[0].0}, r[1..]) && StrictlySorted(r[1..])
  {
    var k := r[0].0;
    forall i | 1 <= i < |r|
      ensures r[i].0 != k
    {
      assert Before(r[0], r[i]);
    }
    forall j | j in m - {k}
      ensures (j, m[j]) in r[1..]
    {
      assert (j, m[j]) in r;
    }
  }

  lemma ListsEmpty(m: map<string, nat>, r: seq<(string, nat)>)
    requires Lists(m, r)
    ensures r == [] <==> m == map[]
  {
    if r != [] {
      assert r[0].0 in m;
    }
  }

  /** A map has exactly one listing sorted by `Before`: the order in which
      `dict.items()` hands out the entries does not matter. */
  lemma {:induction false} SortedUnique(m: map<string, nat>, r1: seq<(string, nat)>, r2: seq<(string, nat)>)
    requires Lists(m, r1) && StrictlySorted(r1)
    requires Lists(m, r2) && StrictlySorted(r2)
    ensures r1 == r2
    decreases |r1|
  {
    ListsEmpty(m, r1);
    ListsEmpty(m, r2);
    if r1 != [] {
      var a, b := r1[0], r2[0];
      assert a == (a.0, m[a.0]) && a in r2;
      assert b == (b.0, m[b.0]) && b in r1;
      if a != b {
        var i :| 0 <= i < |r2| && r2[i] == a;
        var j :| 0 <= j < |r1| && r1[j] == b;
        assert Before(b, a) && Before(a, b);
        BeforeAsymmetric(a, b);
      }
      ListsTail(m, r1);
      ListsTail(m, r2);
      SortedUnique(m - {a.0}, r1[1..], r2[1..]);
      assert r1 == [a] + r1[1..] && r2 == [b] + r2[1..];
    }
  }

  /** Removing a key removes exactly its entry from the entries of a map. */
  lemma ItemsRemove(m: map<string, nat>, k: string)
    requires k in m
    ensures m.Items == (m - {k}).Items + {(k, m[k])}
    ensures (k, m[k]) !in (m - {k}).Items
  {
    forall e | e in m.Items && e.0 != k
      ensures e in (m - {k}).Items
    {
      assert e.0 in m - {k};
    }
  }

  lemma MultisetAddNew(s: set<(string, nat)>, x: (string, nat))
    requires x !in s
    ensures multiset(s + {x}) == multiset(s) + multiset{x}
  {
    forall y
      ensures multiset(s + {x})[y] == (multiset(s) + multiset{x})[y]
    {
    }
  }

  /** A sorted listing of a map is a permutation of its entries. */
  lemma {:induction false} SortedPermutation(m: map<string, nat>, r: seq<(string, nat)>)
    requires Lists(m, r) && StrictlySorted(r)
    ensures multiset(r) == multiset(m.Items)
    decreases |r|
  {
    if r == [] {
      ListsEmpty(m, r);
      assert m.Items == {};
    } else {
      var k := r[0].0;
      ListsTail(m, r);
      SortedPermutation(m - {k}, r[1..]);
      assert r[0] == (k, m[k]);
      ItemsRemove(m, k);
      MultisetAddNew((m - {k}).Items, r[0]);
      assert r == [r[0]] + r[1..];
      assert multiset(r) == multiset{r[0]} + multiset(r[1..]);
    }
  }

  /** What is printed is determined by the final tally. */
  lemma ReportUnique(counts: map<string, nat>, r1: seq<(string, nat)>, r2: seq<(string, nat)>)
    requires IsReport(counts, r1) && IsReport(counts, r2)
    ensures r1 == r2
  {
    SortedUnique(Positive(counts), r1, r2);
  }

  /** What is printed is a permutation of the non-zero entries of the tally. */
  lemma ReportPermutation(counts: map<string, nat>, r: seq<(string, nat)>)
    requires IsReport(counts, r)
    ensures multiset(r) == multiset(Positive(counts).Items)
  {
    SortedPermutation(Positive(counts), r);
  }

  /** What is printed is exactly the keys whose count is positive, each with
      its count. */
  lemma ReportEntries(counts: map<string, nat>, r: seq<(string, nat)>)
    requires IsReport(counts, r)
    ensures forall i :: 0 <= i < |r| ==> r[i].0 in counts && r[i].1 == counts[r[i].0] && r[i].1 > 0
    ensures forall k :: k in counts && counts[k] > 0 ==> (k, counts[k]) in r
  {
    forall k | k in counts && counts[k] > 0
      ensures (k, counts[k]) in r
    {
      assert k in Positive(counts);
    }
  }

  /** `sorted(filtered_counts.items(), key=lambda x: (-x[1], x[0]))`, as an
      insertion sort over the entries of `m` taken in any order. */
  method SortItems(m: map<string, nat>) returns (r: seq<(string, nat)>)
    ensures Lists(m, r)
    ensures StrictlySorted(r)
  {
    r := [];
    var rest := m.Keys;
    while rest != {}
      invariant rest <= m.Keys
      invariant forall i :: 0 <= i < |r| ==> r[i].0 in m && r[i].0 !in rest && m[r[i].0] == r[i].1
      invariant forall k :: k in m && k !in rest ==> (k, m[k]) in r
      invariant StrictlySorted(r)
      decreases rest
    {
      var k :| k in rest;
      var e := (k, m[k]);
      var j := 0;
      while j < |r| && Before(r[j], e)
        invariant 0 <= j <= |r|
        invariant forall i :: 0 <= i < j ==> Before(r[i], e)
      {
        j := j + 1;
      }
      forall i | j <= i < |r|
        ensures Before(e, r[i])
      {
        BeforeTotal(r[j], e);
        if i > j {
          BeforeTransitive(e, r[j], r[i]);
        }
      }
      InsertSorted(r, j, e);
      r := r[..j] + [e] + r[j..];
      rest := rest - {k};
    }
  }

  /** Inserting between the entries that sort before and those that sort
      after keeps a sequence sorted. */
  lemma InsertSorted(r: seq<(string, nat)>, j: nat, e: (string, nat))
    requires j <= |r| && StrictlySorted(r)
    requires forall i :: 0 <= i < j ==> Before(r[i], e)
    requires forall i :: j <= i < |r| ==> Before(e, r[i])
    ensures StrictlySorted(r[..j] + [e] + r[j..])
  {
    var s := r[..j] + [e] + r[j..];
    forall a, b | 0 <= a < b < |s|
      ensures Before(s[a], s[b])
    {
      if b < j {
        assert s[a] == r[a] && s[b] == r[b];
      } else if b == j {
        assert s[a] == r[a];
      } else if a < j {
        assert s[a] == r[a] && s[b] == r[b - 1];
      } else if a == j {
        assert s[b] == r[b - 1];
      } else {
        assert s[a] == r[a - 1] && s[b] == r[b - 1];
      }
    }
  }

  /** The zero filter, then the sort. */
  method Report(counts: map<string, nat>) returns (printed: seq<(string, nat)>)
    ensures IsReport(counts, printed)
  {
    var filtered := Positive(counts);
    printed := SortItems(filtered);
  }

  /** Counting one more page extends the count of the walk so far. */
  lemma WalkStep(seed: map<string, nat>, c: map<string, nat>, next: map<string, nat>, pages: seq<Page>, i: nat)
    requires i < |pages| && pages[i].Ok?
    requires Counted(c, seed, WalkTokens(pages[..i]))
    requires Counted(next, c, PageTokens(pages[i].items))
    ensures Counted(next, seed, WalkTokens(pages[..i + 1]))
  {
    WalkTokensSnoc(pages, i);
    CountedTrans(c, next, seed, WalkTokens(pages[..i]), PageTokens(pages[i].items));
  }

  /** Counting from the seed gives the tally. */
  lemma SeededTally(words: seq<string>, seed: map<string, nat>, counts: map<string, nat>, toks: seq<string>)
    requires seed.Keys == Keywords(words) && forall k :: k in seed ==> seed[k] == 0
    requires Counted(counts, seed, toks)
    ensures counts == Tally(words, toks)
  {
  }

  /** The recursion on the cursor, as a loop: seed, then count page after
      page while the cursor is truthy. None when a page the walk reaches
      fails; otherwise the tally of every cleaned word on the pages walked. */
  method TallyPages(wordList: seq<string>, pages: seq<Page>) returns (tally: Option<map<string, nat>>)
    ensures tally.None? <==> Walk(CountViews(pages)).Failed?
    ensures tally.Some? ==> tally.value == Tally(wordList, WalkTokens(pages[..Walk(CountViews(pages)).n]))
  {
    var counts := SeedCounts(wordList);
    ghost var seed := counts;
    ghost var views := CountViews(pages);
    var i := 0;
    while true
      invariant i <= |pages|
      invariant Following(views, i)
      invariant Counted(counts, seed, WalkTokens(pages[..i]))
      decreases |pages| - i
    {
      if i == |pages| || pages[i].Fail? {
        WalkFailed(views, i);
        return None;
      }
      var page := CountPage(counts, pages[i].items);
      if page.None? {
        assert views[i].Fail?;
        WalkFailed(views, i);
        return None;
      }
      WalkStep(seed, counts, page.value, pages, i);
      counts := page.value;
      assert views[i] == pages[i];
      if !Truthy(pages[i].after) {
        WalkDone(views, i + 1);
        SeededTally(wordList, seed, counts, WalkTokens(pages[..i + 1]));
        return Some(counts);
      }
      FollowingStep(views, i);
      i := i + 1;
    }
  }

  /** The whole call. None when any page the walk reaches fails, including a
      page reached through the cursor after successful ones: the call
      returns before its print loop. Otherwise the print loop prints exactly
      the returned pairs, the report of the tally of every cleaned word on the
      pages walked, which is empty when no keyword occurred. */
  method CountWords(wordList: seq<string>, pages: seq<Page>) returns (out: Option<seq<(string, nat)>>)
    ensures out.None? <==> Walk(CountViews(pages)).Failed?
    ensures out.Some? ==>
      IsReport(Tally(wordList, WalkTokens(pages[..Walk(CountViews(pages)).n])), out.value)
  {
    var tally := TallyPages(wordList, pages);
    if tally.None? {
      return None;
    }
    var printed := Report(tally.value);
    return Some(printed);
  }

  /** Two pages: "a b" with cursor "x", then "a c" with no cursor. */
  function ExamplePages(): seq<Page> {
    [Ok([Item(Text("a b"))], Some("x")), Ok([Item(Text("a c"))], None)]
  }

  lemma ExampleWalk()
    ensures Walk(CountViews(ExamplePages())) == Done(2)
  {
    var pages := ExamplePages();
    assert !HasNullTitle(pages[0].items) && !HasNullTitle(pages[1].items);
    assert CountViews(pages) == pages;
    WalkDone(pages, 2);
  }

  lemma PageTokensOne(post: Item)
    ensures PageTokens([post]) == ItemTokens(post)
  {
    assert [post][..0] == [];
  }

  lemma TwoWordTokens(a: string, b: string)
    requires a != [] && NoSpace(a) && Lower(a) == a && !IsStripChar(a[0]) && !IsStripChar(a[|a| - 1])
    requires b != [] && NoSpace(b) && Lower(b) == b && !IsStripChar(b[0]) && !IsStripChar(b[|b| - 1])
    ensures Tokens(a + " " + b) == [a, b]
  {
    TokensOfWord(a);
    TokensOfWord(b);
    assert a + " " + b == a + [' '] + b;
    TokensAtSpace(a, ' ', b);
  }

  /** The words of two one-post pages, in page order. */
  lemma TwoPageTokens(pages: seq<Page>)
    requires |pages| == 2 && pages[0].Ok? && pages[1].Ok?
    requires |pages[0].items| == 1 && |pages[1].items| == 1
    ensures WalkTokens(pages) == ItemTokens(pages[0].items[0]) + ItemTokens(pages[1].items[0])
  {
    assert pages[0].items == [pages[0].items[0]] && pages[1].items == [pages[1].items[0]];
    PageTokensOne(pages[0].items[0]);
    PageTokensOne(pages[1].items[0]);
    WalkTokensSnoc(pages, 0);
    WalkTokensSnoc(pages, 1);
    assert pages[..0] == [] && pages[..2] == pages;
  }

  lemma ExampleWordsAB()
    ensures Tokens("a b") == ["a", "b"]
  {
    assert "a b" == "a" + " " + "b";
    TwoWordTokens("a", "b");
  }

  lemma ExampleWordsAC()
    ensures Tokens("a c") == ["a", "c"]
  {
    assert "a c" == "a" + " " + "c";
    TwoWordTokens("a", "c");
  }

  lemma ExampleTokens()
    ensures WalkTokens(ExamplePages()) == ["a", "b", "a", "c"]
  {
    ExampleWordsAB();
    ExampleWordsAC();
    TwoPageTokens(ExamplePages());
  }

  lemma ExampleTally()
    ensures Tally(["a", "c"], ["a", "b", "a", "c"]) == map["a" := 2, "c" := 1]
  {
    assert Lower("a") == "a" && Lower("c") == "c";
    assert Keywords(["a", "c"]) == {"a", "c"};
    var toks := ["a", "b", "a", "c"];
    assert multiset(toks)["a"] == 2 && multiset(toks)["c"] == 1;
  }

  lemma ExampleReport()
    ensures IsReport(map["a" := 2, "c" := 1], [("a", 2), ("c", 1)])
  {
    var m := map["a" := 2, "c" := 1];
    assert Positive(m) == m;
    assert Before(("a", 2), ("c", 1));
  }

  /** With keywords a and c, the walk reads both pages and the only report
      of its tally is `a: 2` then `c: 1`: by CountWords, that is what is
      printed. */
  lemma TwoPageExample()
    ensures Walk(CountViews(ExamplePages())) == Done(2)
    ensures forall r ::
      (IsReport(Tally(["a", "c"], WalkTokens(ExamplePages()[..Walk(CountViews(ExamplePages())).n])), r)
       <==> r == [("a", 2), ("c", 1)])
  {
    var pages := ExamplePages();
    ExampleWalk();
    assert pages[..2] == pages;
    ExampleTokens();
    ExampleTally();
    ExampleReport();
    forall r | IsReport(map["a" := 2, "c" := 1], r)
      ensures r == [("a", 2), ("c", 1)]
    {
      ReportUnique(map["a" := 2, "c" := 1], r, [("a", 2), ("c", 1)]);
    }
  }
}
