/**
  Python string behaviour the model relies on: `str.split()` with no separator,
  `str.strip()`, `sep.join(...)` and the code-point ordering of `str` values.
 */
module Strings {

  /** `c.isspace()` in Python: the characters `str.split()` and `str.strip()` treat as whitespace. */
  predicate IsSpace(c: char) {
    var k := c as int;
    || 0x09 <= k <= 0x0D
    || 0x1C <= k <= 0x20
    || k == 0x85 || k == 0xA0 || k == 0x1680
    || 0x2000 <= k <= 0x200A
    || k == 0x2028 || k == 0x2029 || k == 0x202F || k == 0x205F || k == 0x3000
  }

  predicate AllSpace(s: string) {
    forall i :: 0 <= i < |s| ==> IsSpace(s[i])
  }

  /** A token of `str.split()`: non-empty and free of whitespace. */
  predicate IsToken(t: string) {
    |t| > 0 && forall i :: 0 <= i < |t| ==> !IsSpace(t[i])
  }

  /** The length of the run of non-whitespace characters that starts `s`. */
  function TokenEnd(s: string): (n: nat)
    requires |s| > 0 && !IsSpace(s[0])
    ensures 1 <= n <= |s|
    ensures IsToken(s[..n])
    ensures n == |s| || IsSpace(s[n])
  {
    if |s| == 1 || IsSpace(s[1]) then 1 else 1 + TokenEnd(s[1..])
  }

  /** `s.split()`: the maximal runs of non-whitespace characters, in order. */
  function Split(s: string): (r: seq<string>)
    ensures forall i :: 0 <= i < |r| ==> IsToken(r[i])
    decreases |s|
  {
    if |s| == 0 then []
    else if IsSpace(s[0]) then Split(s[1..])
    else
      var n := TokenEnd(s);
      [s[..n]] + Split(s[n..])
  }

  /** `s.split()` is empty exactly when `s` is all whitespace. */
  lemma {:induction false} SplitEmpty(s: string)
    ensures |Split(s)| == 0 <==> AllSpace(s)
    decreases |s|
  {
    if |s| > 0 && IsSpace(s[0]) {
      SplitEmpty(s[1..]);
      assert AllSpace(s) <==> AllSpace(s[1..]) by {
        assert forall i :: 0 < i < |s| ==> s[i] == s[1..][i - 1];
      }
    }
  }

  /** `sep.join(xs)`. */
  function Join(xs: seq<string>, sep: string): string {
    if |xs| == 0 then ""
    else if |xs| == 1 then xs[0]
    else xs[0] + sep + Join(xs[1..], sep)
  }

  /** `s.strip()`: `s` without its leading and trailing whitespace. */
  function Strip(s: string): (r: string)
    ensures exists i, j :: 0 <= i <= j <= |s| && r == s[i..j] && AllSpace(s[..i]) && AllSpace(s[j..])
    ensures |r| > 0 ==> !IsSpace(r[0]) && !IsSpace(r[|r| - 1])
  {
    var i := LeadingSpace(s);
    var j := TrailingSpace(s);
    if j <= i then
      AllSpaceSuffix(s, j, i);
      s[i..i]
    else
      s[i..j]
  }

  /** A suffix of an all-whitespace suffix is all whitespace. */
  lemma AllSpaceSuffix(s: string, j: nat, i: nat)
    requires j <= i <= |s| && AllSpace(s[j..])
    ensures AllSpace(s[i..])
  {
    forall k | 0 <= k < |s| - i ensures IsSpace(s[i..][k]) {
      assert s[i..][k] == s[j..][k + i - j];
    }
  }

  /** The length of the whitespace run that starts `s`. */
  function LeadingSpace(s: string): (i: nat)
    ensures i <= |s| && AllSpace(s[..i])
    ensures i < |s| ==> !IsSpace(s[i])
  {
    if |s| > 0 && IsSpace(s[0]) then
      var i' := LeadingSpace(s[1..]);
      assert s[..i' + 1] == [s[0]] + s[1..][..i'];
      i' + 1
    else 0
  }

  /** Where the whitespace run that ends `s` begins. */
  function TrailingSpace(s: string): (j: nat)
    ensures j <= |s| && AllSpace(s[j..])
    ensures j > 0 ==> !IsSpace(s[j - 1])
  {
    if |s| > 0 && IsSpace(s[|s| - 1]) then
      var j := TrailingSpace(s[..|s| - 1]);
      assert s[j..] == s[..|s| - 1][j..] + [s[|s| - 1]];
      j
    else |s|
  }

  /** A token followed by nothing or by whitespace is split off whole. */
  lemma {:induction false} SplitToken(t: string, rest: string)
    requires IsToken(t)
    requires |rest| == 0 || IsSpace(rest[0])
    ensures Split(t + rest) == [t] + Split(rest)
  {
    var s := t + rest;
    TokenEndOf(t, rest);
    assert s[..|t|] == t;
    assert s[|t|..] == rest;
  }

  lemma {:induction false} TokenEndOf(t: string, rest: string)
    requires IsToken(t)
    requires |rest| == 0 || IsSpace(rest[0])
    ensures TokenEnd(t + rest) == |t|
    decreases |t|
  {
    var s := t + rest;
    if |t| > 1 {
      assert s[1..] == t[1..] + rest;
      TokenEndOf(t[1..], rest);
    }
  }

  /** Splitting tokens joined by single spaces gives the tokens back. */
  lemma {:induction false} SplitJoin(toks: seq<string>)
    requires forall i :: 0 <= i < |toks| ==> IsToken(toks[i])
    ensures Split(Join(toks, " ")) == toks
  {
    if |toks| == 1 {
      SplitToken(toks[0], "");
      assert toks[0] + "" == toks[0];
    } else if |toks| > 1 {
      var rest := Join(toks[1..], " ");
      assert Join(toks, " ") == toks[0] + (" " + rest);
      SplitToken(toks[0], " " + rest);
      assert (" " + rest)[1..] == rest;
      SplitJoin(toks[1..]);
    }
  }

  /** Leading whitespace does not change the tokens. */
  lemma {:induction false} SplitSkipsLeading(w: string, s: string)
    requires AllSpace(w)
    ensures Split(w + s) == Split(s)
    decreases |w|
  {
    if |w| > 0 {
      assert (w + s)[0] == w[0];
      assert (w + s)[1..] == w[1..] + s;
      SplitSkipsLeading(w[1..], s);
    } else {
      assert w + s == s;
    }
  }

  /** Trailing whitespace does not change the tokens. */
  lemma {:induction false} SplitSkipsTrailing(s: string, w: string)
    requires AllSpace(w)
    ensures Split(s + w) == Split(s)
    decreases |s|
  {
    if |s| == 0 {
      assert s + w == w + "";
      SplitSkipsLeading(w, "");
    } else if IsSpace(s[0]) {
      assert (s + w)[1..] == s[1..] + w;
      SplitSkipsTrailing(s[1..], w);
    } else {
      var n := TokenEnd(s);
      if n == |s| {
        TokenThenSpace(s, w);
      } else {
        SplitFirstToken(s, w);
        SplitSkipsTrailing(s[n..], w);
      }
    }
  }

  /** A lone token followed by whitespace splits to that token. */
  lemma TokenThenSpace(t: string, w: string)
    requires IsToken(t) && AllSpace(w)
    ensures Split(t + w) == Split(t)
  {
    SplitToken(t, w);
    SplitSkipsLeading(w, "");
    assert w + "" == w;
    assert t == t + "";
    SplitToken(t, "");
  }

  /** The first token comes off `s` the same way whatever follows the whitespace after it. */
  lemma SplitFirstToken(s: string, w: string)
    requires |s| > 0 && !IsSpace(s[0]) && TokenEnd(s) < |s|
    ensures Split(s + w) == [s[..TokenEnd(s)]] + Split(s[TokenEnd(s)..] + w)
    ensures Split(s) == [s[..TokenEnd(s)]] + Split(s[TokenEnd(s)..])
  {
    var n := TokenEnd(s);
    var t := s[..n];
    SplitToken(t, s[n..] + w);
    assert s + w == t + (s[n..] + w);
    assert s == t + s[n..];
    SplitToken(t, s[n..]);
  }

  /** `s.strip().split() == s.split()`: stripping first changes nothing. */
  lemma SplitStrip(s: string)
    ensures Split(Strip(s)) == Split(s)
  {
    var i, j :| 0 <= i <= j <= |s| && Strip(s) == s[i..j] && AllSpace(s[..i]) && AllSpace(s[j..]);
    assert s == s[..i] + (s[i..j] + s[j..]);
    SplitSkipsLeading(s[..i], s[i..j] + s[j..]);
    SplitSkipsTrailing(s[i..j], s[j..]);
  }

  /** Python's `<` on `str`: code-point lexicographic order, a proper prefix first. */
  predicate LexLess(a: string, b: string) {
    if |a| == 0 then |b| > 0
    else if |b| == 0 then false
    else if a[0] != b[0] then a[0] < b[0]
    else LexLess(a[1..], b[1..])
  }

  lemma {:induction false} LexLessIrreflexive(a: string)
    ensures !LexLess(a, a)
  {
    if |a| > 0 {
      LexLessIrreflexive(a[1..]);
    }
  }

  lemma {:induction false} LexLessTransitive(a: string, b: string, c: string)
    requires LexLess(a, b) && LexLess(b, c)
    ensures LexLess(a, c)
  {
    if |a| > 0 && a[0] == b[0] && b[0] == c[0] {
      LexLessTransitive(a[1..], b[1..], c[1..]);
    }
  }

  lemma {:induction false} LexLessTotal(a: string, b: string)
    ensures a == b || LexLess(a, b) || LexLess(b, a)
  {
    if |a| > 0 && |b| > 0 && a[0] == b[0] {
      LexLessTotal(a[1..], b[1..]);
      if a[1..] == b[1..] {
        assert a == [a[0]] + a[1..] && b == [b[0]] + b[1..];
      }
    }
  }

  lemma LexLessAsymmetric(a: string, b: string)
    requires LexLess(a, b)
    ensures !LexLess(b, a)
  {
    if LexLess(b, a) {
      LexLessTransitive(a, b, a);
      LexLessIrreflexive(a);
    }
  }
}
