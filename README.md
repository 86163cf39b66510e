# Reddit hot-listing walkers, modelled in Dafny

Two of the repository's scripts walk a subreddit's "hot" listing page by page.
They request a page, process its posts, and follow the page's `after` cursor
while it is truthy:

- `recurse` (api_advanced/2-recurse.py) appends every post's title to an
  accumulator list. It returns that list when the last page is reached, and
  `None` when any page fails.
- `count_words` (api_advanced/3-count.py) seeds a tally with the lower-cased
  keywords at 0. For every title it lower-cases the title, splits it on
  whitespace and strips `._!?;,` from both ends of each word. A cleaned word
  that is already a key adds one to that key. On the last page it prints the
  non-zero counts, largest first and alphabetically among equals. A failure
  on any page prints nothing.

Files:

- `listing.dfy` (module `Listing`) holds the pages and the cursor walk. Every
  HTTP request is answered by the next element of a finite sequence of
  already-parsed pages. A page is `Fail` (non-200 status, transport error,
  unparsable payload) or `Ok(items, after)`. A request for which no page is
  left counts as a failure. `Walk` says where the walk stops: `Done(n)` after
  `n` pages when page `n` has a falsy cursor, or `Failed(n)` when the request
  after `n` successful pages fails.
- `text.dfy` (module `Text`) holds the string operations on titles: `str.lower`,
  `str.split()`, `str.strip('._!?;,')`, and Python's `<` on `str`.
- `recurse.dfy` (module `Recurse`) models `recurse`. The accumulator is a
  `HotList` object whose `titles` field is appended to in place.
- `count.dfy` (module `Count`) models `count_words`:
  - The tally is a `map` that the counting loops update.
  - The recursion on the cursor is a loop over the pages.
  - The printed lines are returned as (keyword, count) pairs.
  - `IsReport(counts, r)` says `r` lists exactly the positive entries of
    `counts`, strictly ordered by (count descending, keyword ascending).
  - `ReportUnique` shows there is only one such `r`, so it is what `sorted`
    prints.

A post's title is `Missing`, `Null` or `Text(s)`:

- `recurse` appends `None` for a missing or null title.
- `count_words` reads a missing title as `''`, which has no words.
- In `count_words` a null title makes `.lower()` raise. The handler at
  api_advanced/3-count.py:70-71 catches it, so nothing is printed. `CountView`
  therefore treats a page holding a null title as a failed page.

Two places where the code's own comments say less than, or something other
than, what the code does:

- The comment at api_advanced/3-count.py:50 says punctuation is removed "from
  the end". `str.strip('._!?;,')` removes those characters from both ends, and
  `Text.Strip` does the same (`Text.StripBothEnds`: `"!hello,"` becomes
  `hello`).
- The docstring at api_advanced/2-recurse.py:19 promises `None` "if invalid
  subreddit". The code returns `None` on any failed page, also after earlier
  pages succeeded, and the titles of those earlier pages stay appended to the
  accumulator (`Recurse.Recurse`).

## Model

| member | source | states |
|---|---|---|
| Listing.Truthy | api_advanced/2-recurse.py:40 | `if after:` on a cursor read with `dict.get` |
| Listing.TruthyCases | api_advanced/2-recurse.py:40 | a missing cursor and the empty string are falsy, every non-empty string is truthy |
| Listing.Walk | api_advanced/3-count.py:56-58 | the walk processes pages while each has a truthy cursor; `Done(n)`: pages before `n` succeeded with truthy cursors and page `n` succeeded with a falsy one; `Failed(n)`: the first `n` pages succeeded with truthy cursors and the next request got no page or a failed one |
| Listing.WalkDone | api_advanced/2-recurse.py:40-43 | a walk whose cursors were truthy up to a page with a falsy cursor ends `Done` exactly there |
| Listing.WalkFailed | api_advanced/2-recurse.py:44-47 | a walk whose cursors were truthy up to a failed or missing page ends `Failed` exactly there |
| Listing.FollowingStep | api_advanced/3-count.py:56-57 | a successful page with a truthy cursor extends the run of followed pages by one |
| Listing.SecondRequest | api_advanced/3-count.py:56-57 | at least one request is sent; a second one is sent if and only if the first page succeeded with a truthy cursor |
| Listing.LaterFailure | api_advanced/3-count.py:57 | a failure on the page a truthy cursor leads to fails the whole walk, although the first page succeeded |
| Text.IsSpace | api_advanced/3-count.py:47 | the separators of `str.split()`: the code points `str.isspace` accepts |
| Text.SpaceKinds | api_advanced/3-count.py:47 | blank, tab, newline and carriage return separate words; letters, digits and the strip characters do not |
| Text.WordLen | api_advanced/3-count.py:47 | the length of the leading run of non-whitespace, ending at the string's end or at a whitespace character |
| Text.Split | api_advanced/3-count.py:47 | every word `str.split()` returns is non-empty and contains no whitespace |
| Text.SplitWord | api_advanced/3-count.py:47 | a non-empty string with no whitespace splits into itself alone |
| Text.SplitBlank | api_advanced/3-count.py:47 | a string of whitespace only, the empty one included, has no words |
| Text.WordLenBeforeSpace | api_advanced/3-count.py:47 | a word ends at the first whitespace character, whatever follows it |
| Text.SplitAtSpace | api_advanced/3-count.py:47 | a whitespace character cuts a string into two halves that split independently, words in order |
| Text.Lower | api_advanced/3-count.py:46 | `str.lower()` on ASCII: character by character, capitals to small letters |
| Text.LowerMeaning | api_advanced/3-count.py:46 | lower-casing keeps the length, leaves no ASCII capital, and changes a character only by turning a capital into its small letter |
| Text.LowerAround | api_advanced/3-count.py:46 | lower-casing works character by character and never turns whitespace into a word character or back |
| Text.LowerIdempotent | api_advanced/3-count.py:23 | lower-casing twice is lower-casing once, so a lower-cased keyword is its own key |
| Text.LStrip | api_advanced/3-count.py:51 | the result is a suffix of the word, everything dropped is a strip character, and the result does not start with one |
| Text.RStrip | api_advanced/3-count.py:51 | the result is a prefix of the word, everything dropped is a strip character, and the result does not end with one |
| Text.Strip | api_advanced/3-count.py:51 | the cleaned word is no longer than the word and neither starts nor ends with a character of `._!?;,` |
| Text.LStripPrefix | api_advanced/3-count.py:51 | stripping the left end removes exactly a leading run of strip characters |
| Text.RStripSuffix | api_advanced/3-count.py:51 | stripping the right end removes exactly a trailing run of strip characters |
| Text.StripIsInfix | api_advanced/3-count.py:51 | the cleaned word is a middle piece of the word with only strip characters before it and after it |
| Text.StripUnique | api_advanced/3-count.py:51 | a word wrapped in strip characters on both sides, and neither starting nor ending with one, is exactly what stripping returns |
| Text.StripIdempotent | api_advanced/3-count.py:51 | cleaning a cleaned word changes nothing |
| Text.StripBothEnds | api_advanced/3-count.py:50-51 | `"!hello,"` cleans to `"hello"`: the leading `!` is removed too |
| Text.StripKeepsInside | api_advanced/3-count.py:51 | `"he.llo"` is left as it is: only the ends are stripped |
| Text.LexLess | api_advanced/3-count.py:64-65 | Python's `<` on `str`: a string never sorts before itself, a smaller first code point sorts first, and a proper prefix sorts before the longer string |
| Text.LexIrreflexive | api_advanced/3-count.py:64-65 | no string sorts before itself |
| Text.LexAsymmetric | api_advanced/3-count.py:64-65 | if `a` sorts before `b`, then `b` does not sort before `a` |
| Text.LexTransitive | api_advanced/3-count.py:64-65 | string order is transitive |
| Text.LexTotal | api_advanced/3-count.py:64-65 | any two different strings are ordered one way or the other |
| Recurse.HotList.constructor | api_advanced/2-recurse.py:8 | the accumulator starts with the titles it is given |
| Recurse.ItemTitles | api_advanced/2-recurse.py:37-38 | what the loop over one page's posts appends: one element per post, in post order |
| Recurse.Titles | api_advanced/2-recurse.py:37-41 | what a run of pages appends: each successful page's titles, in page order |
| Recurse.TitleOf | api_advanced/2-recurse.py:38 | `post.get('data', {}).get('title')`: the title when it is a string, `None` when it is missing or null |
| Recurse.AppendTitles | api_advanced/2-recurse.py:37-38 | the accumulator gains one element per post, in post order; a missing or null title appends `None` |
| Recurse.TitlesLength | api_advanced/2-recurse.py:37-38 | the titles of a run of pages are exactly as many as the posts on its successful pages |
| Recurse.TitlesConcat | api_advanced/2-recurse.py:37-41 | the titles of two runs of pages are the titles of the first run, then those of the second |
| Recurse.TitleAt | api_advanced/2-recurse.py:37-38 | post `k` of page `j` contributes the element at the position after all titles of the earlier pages plus `k` |
| Recurse.Recurse | api_advanced/2-recurse.py:28-47 | the accumulator ends with its old contents followed by the titles of every page the walk processed, even when a later page fails; the result is the accumulator when the walk ends on a falsy cursor and `None` when a page fails |
| Count.Keywords | api_advanced/3-count.py:22-24 | every keyword, lower-cased, is a key, and every key is some keyword lower-cased |
| Count.KeysLowered | api_advanced/3-count.py:22-24 | every key is already lower-case |
| Count.SeedCounts | api_advanced/3-count.py:19-24 | the tally's keys are exactly the lower-cased keywords, every one at 0 |
| Count.SharedKey | api_advanced/3-count.py:22-24 | keywords equal up to case share one key: `["Go", "go"]` gives the single key `go` |
| Count.Cleaned | api_advanced/3-count.py:49-51 | `word.strip('._!?;,')` applied to each word, in order |
| Count.Tokens | api_advanced/3-count.py:46-51 | the cleaned words of one title: lower-cased, split on whitespace, each word stripped |
| Count.ItemTokens | api_advanced/3-count.py:46-51 | the cleaned words of one post's title, the missing title read as `''` |
| Count.ItemTokensCount | api_advanced/3-count.py:46-47 | a string title gives one cleaned word per word `split()` finds; a missing title, read as `''`, gives none |
| Count.CleanedConcat | api_advanced/3-count.py:49-51 | words are cleaned one by one, in order |
| Count.TokensAtSpace | api_advanced/3-count.py:46-51 | the cleaned words of a title split at a whitespace character are those of its two sides, in order |
| Count.TokensOfWord | api_advanced/3-count.py:46-51 | a lower-case single word with no strip character at its ends is its own only cleaned word |
| Count.TwoWordTokens | api_advanced/3-count.py:46-51 | two such words separated by a space give exactly those two cleaned words |
| Count.Bump | api_advanced/3-count.py:53-54 | counting one word adds no key; only the key equal to the word, if there is one, grows, and by exactly one |
| Count.BumpCounted | api_advanced/3-count.py:53-54 | after one more word, every count is its base plus the word's occurrences among the words seen |
| Count.CountedTrans | api_advanced/3-count.py:45-57 | counting two runs of words one after the other counts their concatenation |
| Count.CountedMonotone | api_advanced/3-count.py:45-54 | counting never adds a key and never lowers a count |
| Count.CountView | api_advanced/3-count.py:46 | the page as the counting walk sees it: a page holding a null title is a failed page, because `.lower()` raises and the handler at lines 70-71 returns |
| Count.NullTitleFails | api_advanced/3-count.py:46 | a page with a null title anywhere counts as failed |
| Count.CountViewKeeps | api_advanced/3-count.py:45-54 | a failed page and a page without null titles are seen as they are |
| Count.CountCleaned | api_advanced/3-count.py:49-54 | after a title's words, the keys are unchanged and each count has grown by that key's occurrences among the cleaned words |
| Count.CountPost | api_advanced/3-count.py:45-54 | the count fails exactly when the title is null; otherwise each count has grown by that key's occurrences among the post's cleaned words, and a missing title adds nothing |
| Count.NullStep | api_advanced/3-count.py:45-46 | the posts seen so far include a null title exactly when the earlier ones did or this one has one, and then the page has one |
| Count.CountPage | api_advanced/3-count.py:44-54 | the count of a page fails exactly when one of its titles is null; otherwise each count has grown by that key's occurrences among the page's cleaned words |
| Count.Positive | api_advanced/3-count.py:61 | the zero filter: exactly the entries of the tally whose count is positive, with their counts |
| Count.Before | api_advanced/3-count.py:64-65 | the sort key `(-count, word)` under tuple comparison: a larger count first, then the smaller word |
| Count.Tally | api_advanced/3-count.py:19-54 | the tally after a run of cleaned words: every lower-cased keyword with its number of occurrences among them |
| Count.IsReport | api_advanced/3-count.py:61-68 | what the print loop prints for a final tally: exactly its positive entries, strictly ordered by the sort key |
| Count.BeforeIrreflexive | api_advanced/3-count.py:64-65 | no entry sorts before itself under the key `(-count, word)` |
| Count.BeforeTransitive | api_advanced/3-count.py:64-65 | the key order `(-count, word)` is transitive |
| Count.BeforeTotal | api_advanced/3-count.py:64-65 | entries with different words are ordered one way or the other |
| Count.BeforeAsymmetric | api_advanced/3-count.py:64-65 | the key order `(-count, word)` is asymmetric |
| Count.ListsTail | api_advanced/3-count.py:64-65 | the first word of a sorted listing occurs nowhere else in it, and the rest lists the rest of the map |
| Count.ListsEmpty | api_advanced/3-count.py:61-68 | a listing is empty exactly when its map is, so nothing is printed when no keyword occurred |
| Count.SortedUnique | api_advanced/3-count.py:64-65 | a map has only one listing sorted by `(-count, word)`, whatever order `dict.items()` hands the entries out in |
| Count.SortedPermutation | api_advanced/3-count.py:64-65 | a sorted listing of a map is a permutation of its entries |
| Count.SortItems | api_advanced/3-count.py:64-65 | the result lists exactly the entries of the map, strictly ordered by count descending, then word ascending |
| Count.InsertSorted | api_advanced/3-count.py:64-65 | inserting an entry after those that sort before it and ahead of those that sort after it keeps the listing sorted |
| Count.Report | api_advanced/3-count.py:61-65 | the printed pairs are exactly the positive entries of the tally, in the stated order |
| Count.ReportUnique | api_advanced/3-count.py:61-68 | what is printed is determined by the final tally |
| Count.ReportPermutation | api_advanced/3-count.py:61-65 | what is printed is a permutation of the non-zero entries of the tally |
| Count.ReportEntries | api_advanced/3-count.py:61 | each printed pair is a key with its positive final count, and every key with a positive count is printed |
| Count.WalkStep | api_advanced/3-count.py:45-57 | counting one more page extends the tally of the pages walked so far |
| Count.SeededTally | api_advanced/3-count.py:19-54 | counting from the seed gives, for every lower-cased keyword, its number of occurrences among the cleaned words |
| Count.TallyPages | api_advanced/3-count.py:19-71 | the call fails exactly when a page the walk reaches fails or holds a null title; otherwise every lower-cased keyword is counted once per occurrence among the cleaned words of all pages walked |
| Count.CountWords | api_advanced/3-count.py:8-71 | `None` exactly when the call ends on a failure, a later page's included, before it reaches the print loop; otherwise `Some(r)` and `r`, possibly empty, is what the print loop prints: the positive entries of the whole walk's tally, in the stated order |
| Count.ExampleWalk | api_advanced/3-count.py:42-58 | pages with cursors `"x"` and then `None` are walked to the end: two pages |
| Count.ExampleTokens | api_advanced/3-count.py:46-51 | the titles `"a b"` and `"a c"` give the cleaned words `a b a c` |
| Count.ExampleTally | api_advanced/3-count.py:19-54 | with keywords `a` and `c`, those words tally `a` twice and `c` once |
| Count.ExampleReport | api_advanced/3-count.py:61-68 | that tally prints `a: 2`, then `c: 1` |
| Count.TwoPageExample | api_advanced/3-count.py:42-68 | on those two pages with keywords `["a", "c"]` the walk reads both pages, and the one report of its tally, hence what `Count.CountWords` prints, is `a: 2`, then `c: 1` |

## Left out

- HTTP and JSON are not modelled: `requests.get`, the URL, the headers, the
  `limit` and `allow_redirects` parameters, and `response.json()`. A page is
  an already-parsed record. A missing `data` or `children` is an empty item
  list, and a missing `after` is `None`.
- The cursor value sent with each request is not modelled. Page `i + 1` is
  always the answer to the cursor of page `i`.
- Posts and payloads of the wrong JSON type are not modelled: a post that is
  not an object, a title or cursor that is neither a string nor null. In
  `recurse`, such a post would raise the exception part-way through a page,
  after some of that page's titles were already appended.
- `print` is not modelled. The printed lines are returned as (keyword, count)
  pairs. `None` means the call ended on a failure before it reached the print
  loop. `Some(r)` means the walk reached the last page and the print loop
  prints `r`, which is empty when no keyword occurred.
- `str.lower` is modelled for ASCII letters only. Other letters are left
  unchanged. Whitespace for `str.split()` is Python's full `str.isspace` set.
- The mutable default `hot_list=[]` of api_advanced/2-recurse.py:8 is not
  modelled. The list it shares between calls becomes an explicit accumulator
  object passed in by the caller.
- The `after` and `counts` arguments of `count_words` are assumed to take
  their defaults (`None`), as in a top-level call. The recursive calls are
  the loop.
- Recursion depth and Python's stack limit are not modelled. The recursion
  on the cursor becomes a loop, so a long walk never fails for lack of stack.
- `Count.SortItems`: Python's `sorted` is replaced by an insertion sort.
  `Count.SortedUnique` shows both give the same output, because the keys are
  distinct.
- api_advanced/0-subs.py and api_advanced/1-top_ten.py are not part of this
  model. Each is a single request read or printed, with no walk.
