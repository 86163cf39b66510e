/**
 * A listing as the walk sees it: each request for the next page is answered
 * by the next element of a finite sequence of already-parsed pages. A page
 * either failed (a status other than 200, a transport error, a payload that
 * does not parse) or carries its items and the `after` cursor. A request for
 * which no page is left is answered like a failure.
 */
module Listing {

  datatype Option<T> = None | Some(value: T)

  /** The `title` field of a post: absent, JSON null, or a string. */
  datatype Title = Missing | Null | Text(s: string)

  datatype Item = Item(title: Title)

  datatype Page = Ok(items: seq<Item>, after: Option<string>) | Fail

  /** `if after:` on a value read with `dict.get`: None and "" are falsy,
      every other string is truthy. */
  predicate Truthy(after: Option<string>) {
    after.Some? && after.value != ""
  }

  /** Python's truth value of an optional string: a missing cursor and the
      empty string are falsy, every non-empty string is truthy. */
  lemma TruthyCases(after: Option<string>)
    ensures after.None? ==> !Truthy(after)
    ensures after == Some("") ==> !Truthy(after)
    ensures after.Some? && |after.value| > 0 ==> Truthy(after)
  {
  }

  /** The first `k` pages all succeeded and each of them pointed to a next page. */
  predicate Following(pages: seq<Page>, k: nat) {
    k <= |pages| && forall i :: 0 <= i < k ==> pages[i].Ok? && Truthy(pages[i].after)
  }

  /** One more successful page with a truthy cursor extends the run. */
  lemma FollowingStep(pages: seq<Page>, k: nat)
    requires Following(pages, k) && k < |pages|
    requires pages[k].Ok? && Truthy(pages[k].after)
    ensures Following(pages, k + 1)
  {
  }

  /** How a walk ends, with the number `n` of pages it processed successfully. */
  datatype WalkEnd = Done(n: nat) | Failed(n: nat)

  /** The cursor walk: request a page; on failure stop; otherwise process it and
      request the next one exactly when its `after` is truthy. */
  function Walk(pages: seq<Page>): (w: WalkEnd)
    ensures w.Done? ==>
      0 < w.n <= |pages| && Following(pages, w.n - 1) &&
      pages[w.n - 1].Ok? && !Truthy(pages[w.n - 1].after)
    ensures w.Failed? ==>
      Following(pages, w.n) && (w.n == |pages| || pages[w.n].Fail?)
  {
    if pages == [] || pages[0].Fail? then Failed(0)
    else if !Truthy(pages[0].after) then Done(1)
    else
      match Walk(pages[1..])
      case Done(n) => Done(n + 1)
      case Failed(n) => Failed(n + 1)
  }

  /** A walk that followed `n - 1` cursors and then met a falsy one ends there. */
  lemma WalkDone(pages: seq<Page>, n: nat)
    requires 0 < n <= |pages| && Following(pages, n - 1)
    requires pages[n - 1].Ok? && !Truthy(pages[n - 1].after)
    ensures Walk(pages) == Done(n)
  {
  }

  /** A walk that followed `n` cursors and then got no page ends as a failure there. */
  lemma WalkFailed(pages: seq<Page>, n: nat)
    requires Following(pages, n) && (n == |pages| || pages[n].Fail?)
    ensures Walk(pages) == Failed(n)
  {
  }

  /** Number of requests the walk sends: one per processed page, plus the one
      that failed. */
  function Requests(w: WalkEnd): nat {
    match w
    case Done(n) => n
    case Failed(n) => n + 1
  }

  /** A second request is sent exactly when the first page succeeded with a
      truthy cursor; so a listing of one page costs one request. */
  lemma SecondRequest(pages: seq<Page>)
    ensures Requests(Walk(pages)) >= 1
    ensures Requests(Walk(pages)) > 1 <==> pages != [] && pages[0].Ok? && Truthy(pages[0].after)
  {
  }

  /** A failure on the page a truthy cursor leads to fails the whole walk,
      although the first page succeeded. */
  lemma LaterFailure(items: seq<Item>, cursor: string)
    requires cursor != ""
    ensures Walk([Ok(items, Some(cursor)), Fail]) == Failed(1)
  {
    var pages := [Ok(items, Some(cursor)), Fail];
    assert pages[1..] == [Fail];
  }
}
