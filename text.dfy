/**
 * The string operations a title goes through before a keyword is matched:
 * lower-casing, Python's whitespace `str.split()`, `str.strip` with a set of
 * characters, and Python's code-point order on strings.
 */
module Text {

  /** The characters Python's `str.split()` (no argument) breaks on: those for
      which `str.isspace` holds, listed by code point. */
  predicate IsSpace(c: char) {
    var n := c as int;
    (0x09 <= n <= 0x0D) || (0x1C <= n <= 0x20) || n == 0x85 || n == 0xA0 ||
    n == 0x1680 || (0x2000 <= n <= 0x200A) || n == 0x2028 || n == 0x2029 ||
    n == 0x202F || n == 0x205F || n == 0x3000
  }

  /** Blank, tab, newline and carriage return separate words; letters, digits
      and the strip characters do not. */
  lemma SpaceKinds(c: char)
    ensures c == ' ' || c == '\t' || c == '\n' || c == '\r' ==> IsSpace(c)
    ensures 'a' <= c <= 'z' || 'A' <= c <= 'Z' || '0' <= c <= '9' ==> !IsSpace(c)
    ensures c == '.' || c == '_' || c == '!' || c == '?' || c == ';' || c == ',' ==> !IsSpace(c)
  {
  }

  predicate NoSpace(s: string) {
    forall i :: 0 <= i < |s| ==> !IsSpace(s[i])
  }

  predicate AllSpace(s: string) {
    forall i :: 0 <= i < |s| ==> IsSpace(s[i])
  }

  /** `str.lower()` restricted to ASCII letters. */
  function LowerChar(c: char): char {
    if 'A' <= c <= 'Z' then (c as int + 32) as char else c
  }

  function Lower(s: string): (r: string)
  {
    seq(|s|, i requires 0 <= i < |s| => LowerChar(s[i]))
  }

  /** Lower-casing keeps the length, leaves no ASCII capital, and changes a
      character only by turning an ASCII capital into its small letter. */
  lemma LowerMeaning(s: string)
    ensures |Lower(s)| == |s|
    ensures forall i :: 0 <= i < |s| ==> !('A' <= Lower(s)[i] <= 'Z')
    ensures forall i :: 0 <= i < |s| ==>
      Lower(s)[i] == s[i] || ('A' <= s[i] <= 'Z' && Lower(s)[i] as int == s[i] as int + 32)
  {
  }

  /** Lower-casing never turns a separator into a word character or back. */
  lemma LowerAround(a: string, c: char, b: string)
    ensures Lower(a + [c] + b) == Lower(a) + [LowerChar(c)] + Lower(b)
    ensures IsSpace(LowerChar(c)) <==> IsSpace(c)
  {
    assert |Lower(a + [c] + b)| == |Lower(a) + [LowerChar(c)] + Lower(b)|;
    forall i | 0 <= i < |a| + 1 + |b|
      ensures Lower(a + [c] + b)[i] == (Lower(a) + [LowerChar(c)] + Lower(b))[i]
    {
      if i < |a| {
      } else if i == |a| {
      } else {
        assert (a + [c] + b)[i] == b[i - |a| - 1];
      }
    }
  }

  lemma LowerIdempotent(s: string)
    ensures Lower(Lower(s)) == Lower(s)
  {
    forall i | 0 <= i < |s| ensures LowerChar(LowerChar(s[i])) == LowerChar(s[i]) {
    }
  }

  /** Length of the run of non-separator characters that starts `s`. */
  function WordLen(s: string): (n: nat)
    ensures n <= |s|
    ensures forall i :: 0 <= i < n ==> !IsSpace(s[i])
    ensures n == |s| || IsSpace(s[n])
  {
    if s == [] || IsSpace(s[0]) then 0 else 1 + WordLen(s[1..])
  }

  /** Python's `s.split()`: the maximal runs of non-separators, in order. */
  function Split(s: string): (r: seq<string>)
    ensures forall i :: 0 <= i < |r| ==> r[i] != [] && NoSpace(r[i])
    decreases |s|
  {
    if s == [] then []
    else if IsSpace(s[0]) then Split(s[1..])
    else
      var n := WordLen(s);
      [s[..n]] + Split(s[n..])
  }

  /** A single word splits into itself. */
  lemma SplitWord(w: string)
    requires w != [] && NoSpace(w)
    ensures Split(w) == [w]
  {
    assert !IsSpace(w[0]);
    assert WordLen(w) == |w|;
    assert w[..|w|] == w;
    assert w[|w|..] == [];
  }

  /** A string made only of separators (the empty one included) has no words. */
  lemma {:induction false} SplitBlank(s: string)
    requires AllSpace(s)
    ensures Split(s) == []
    decreases |s|
  {
    if s != [] {
      SplitBlank(s[1..]);
    }
  }

  /** WordLen is not affected by what follows the first separator. */
  lemma {:induction false} WordLenBeforeSpace(a: string, c: char, b: string)
    requires IsSpace(c)
    ensures WordLen(a + [c] + b) == WordLen(a)
    decreases |a|
  {
    if a == [] {
      assert (a + [c] + b)[0] == c;
    } else if !IsSpace(a[0]) {
      assert (a + [c] + b)[1..] == a[1..] + [c] + b;
      WordLenBeforeSpace(a[1..], c, b);
    }
  }

  /** A separator cuts the string into two independently split halves. */
  lemma {:induction false} SplitAtSpace(a: string, c: char, b: string)
    requires IsSpace(c)
    ensures Split(a + [c] + b) == Split(a) + Split(b)
    decreases |a|
  {
    var s := a + [c] + b;
    if a == [] {
      assert s[1..] == b;
    } else if IsSpace(a[0]) {
      assert s[1..] == a[1..] + [c] + b;
      SplitAtSpace(a[1..], c, b);
    } else {
      var n := WordLen(a);
      WordLenBeforeSpace(a, c, b);
      assert s[..n] == a[..n];
      assert s[n..] == a[n..] + [c] + b;
      SplitAtSpace(a[n..], c, b);
    }
  }

  /** The characters `word.strip('._!?;,')` removes. */
  const StripSet: string := "._!?;,"

  predicate IsStripChar(c: char) {
    c in StripSet
  }

  predicate AllStrip(s: string) {
    forall i :: 0 <= i < |s| ==> IsStripChar(s[i])
  }

  /** `str.lstrip(StripSet)`: the suffix left after dropping the leading strip characters. */
  function LStrip(s: string): (r: string)
    ensures |r| <= |s| && r == s[|s| - |r|..]
    ensures AllStrip(s[..|s| - |r|])
    ensures r == [] || !IsStripChar(r[0])
    decreases |s|
  {
    if s != [] && IsStripChar(s[0]) then LStrip(s[1..]) else s
  }

  /** `str.rstrip(StripSet)`: the prefix left after dropping the trailing strip characters. */
  function RStrip(s: string): (r: string)
    ensures |r| <= |s| && r == s[..|r|]
    ensures AllStrip(s[|r|..])
    ensures r == [] || !IsStripChar(r[|r| - 1])
    decreases |s|
  {
    if s != [] && IsStripChar(s[|s| - 1]) then
      var t := s[..|s| - 1];
      var r := RStrip(t);
      assert s[|r|..] == t[|r|..] + [s[|s| - 1]];
      r
    else s
  }

  /** `str.strip(StripSet)`: both ends, as Python does it. */
  function Strip(s: string): (r: string)
    ensures |r| <= |s|
    ensures r == [] || (!IsStripChar(r[0]) && !IsStripChar(r[|r| - 1]))
  {
    RStrip(LStrip(s))
  }

  /** LStrip drops a run of strip characters and stops at the first other one. */
  lemma {:induction false} LStripPrefix(p: string, t: string)
    requires AllStrip(p) && t != [] && !IsStripChar(t[0])
    ensures LStrip(p + t) == t
    decreases |p|
  {
    if p == [] {
      assert p + t == t;
    } else {
      assert (p + t)[0] == p[0];
      assert (p + t)[1..] == p[1..] + t;
      LStripPrefix(p[1..], t);
    }
  }

  /** RStrip drops a run of strip characters and stops at the last other one. */
  lemma {:induction false} RStripSuffix(t: string, q: string)
    requires AllStrip(q) && t != [] && !IsStripChar(t[|t| - 1])
    ensures RStrip(t + q) == t
    decreases |q|
  {
    if q == [] {
      assert t + q == t;
    } else {
      var s := t + q;
      assert s[|s| - 1] == q[|q| - 1];
      assert s[..|s| - 1] == t + q[..|q| - 1];
      RStripSuffix(t, q[..|q| - 1]);
    }
  }

  /** Strip is determined: whatever is wrapped in strip characters on both
      sides, and neither starts nor ends with one, is what Strip returns. */
  lemma StripUnique(p: string, w: string, q: string)
    requires AllStrip(p) && AllStrip(q)
    requires w == [] || (!IsStripChar(w[0]) && !IsStripChar(w[|w| - 1]))
    ensures Strip(p + w + q) == w
  {
    if w != [] {
      assert p + w + q == p + (w + q);
      LStripPrefix(p, w + q);
      RStripSuffix(w, q);
    } else {
      assert AllStrip(p + w + q);
    }
  }

  /** What Strip returns is the middle of the word: everything before it and
      everything after it is a strip character. */
  lemma StripIsInfix(s: string)
    ensures exists i :: (0 <= i <= |s| - |Strip(s)| && Strip(s) == s[i..i + |Strip(s)|] &&
                         AllStrip(s[..i]) && AllStrip(s[i + |Strip(s)|..]))
  {
    var l := LStrip(s);
    var r := RStrip(l);
    var i := |s| - |l|;
    assert l == s[i..] && AllStrip(s[..i]);
    assert r == l[..|r|] && AllStrip(l[|r|..]);
    assert l[..|r|] == s[i..i + |r|];
    assert l[|r|..] == s[i + |r|..];
    assert Strip(s) == r;
    assert 0 <= i <= |s| - |r| && r == s[i..i + |r|] && AllStrip(s[..i]) && AllStrip(s[i + |r|..]);
  }

  /** Cleaning a cleaned word changes nothing. */
  lemma StripIdempotent(s: string)
    ensures Strip(Strip(s)) == Strip(s)
  {
    var w := Strip(s);
    assert LStrip(w) == w;
    assert RStrip(w) == w;
  }

  /** Both ends are stripped: "!hello," becomes "hello". */
  lemma StripBothEnds()
    ensures Strip("!hello,") == "hello"
  {
    assert "!hello," == "!" + "hello" + ",";
    StripUnique("!", "hello", ",");
  }

  /** The inside is not stripped: "he.llo" stays as it is. */
  lemma StripKeepsInside()
    ensures Strip("he.llo") == "he.llo"
  {
    assert "he.llo" == "" + "he.llo" + "";
    StripUnique("", "he.llo", "");
  }

  /** Python's `<` on `str`: lexicographic by code point, a proper prefix first. */
  predicate LexLess(a: string, b: string): (r: bool)
    ensures r ==> a != b
    ensures a != [] && b != [] && a[0] < b[0] ==> r
    ensures |a| < |b| && a == b[..|a|] ==> r
    decreases |a|
  {
    if a == [] then b != []
    else if b == [] then false
    else if a[0] != b[0] then a[0] < b[0]
    else LexLess(a[1..], b[1..])
  }

  lemma {:induction false} LexIrreflexive(a: string)
    ensures !LexLess(a, a)
    decreases |a|
  {
    if a != [] {
      LexIrreflexive(a[1..]);
    }
  }

  lemma {:induction false} LexAsymmetric(a: string, b: string)
    requires LexLess(a, b)
    ensures !LexLess(b, a)
    decreases |a|
  {
    if a != [] && b != [] && a[0] == b[0] {
      LexAsymmetric(a[1..], b[1..]);
    }
  }

  lemma {:induction false} LexTransitive(a: string, b: string, c: string)
    requires LexLess(a, b) && LexLess(b, c)
    ensures LexLess(a, c)
    decreases |a|
  {
    if a != [] && b != [] && c != [] && a[0] == b[0] && b[0] == c[0] {
      LexTransitive(a[1..], b[1..], c[1..]);
    }
  }

  lemma {:induction false} LexTotal(a: string, b: string)
    requires a != b
    ensures LexLess(a, b) || LexLess(b, a)
    decreases |a|
  {
    if a != [] && b != [] && a[0] == b[0] {
      assert a == [a[0]] + a[1..] && b == [b[0]] + b[1..];
      LexTotal(a[1..], b[1..]);
    }
  }
}
