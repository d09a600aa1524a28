/** The Python string operations the repository relies on, written out:
    `strip`/`lstrip`/`rstrip`, `split` on one character, `join`,
    `replace`, `os.path.basename`, `str(int)` and `int(digits)`. */
module Text {

  /** Python's `str.isspace()`: the characters `strip()` removes and that
      the regular-expression class `\s` matches. */
  predicate IsSpace(c: char) {
    c == ' ' || ('\t' <= c <= '\r') || ('\U{1c}' <= c <= '\U{1f}')
    || c == '\U{85}' || c == '\U{a0}' || c == '\U{1680}'
    || ('\U{2000}' <= c <= '\U{200a}') || c == '\U{2028}' || c == '\U{2029}'
    || c == '\U{202f}' || c == '\U{205f}' || c == '\U{3000}'
  }

  /** The ASCII digits; the regular-expression class `\d` as the model reads it. */
  predicate IsDigit(c: char) { '0' <= c <= '9' }

  predicate AllDigits(s: string) { forall k :: 0 <= k < |s| ==> IsDigit(s[k]) }

  /** `s.rstrip()`: drops the trailing whitespace and nothing else. */
  function RStrip(s: string): (r: string)
    ensures |r| <= |s| && r == s[..|r|]
    ensures r == [] || !IsSpace(r[|r| - 1])
    ensures forall k :: |r| <= k < |s| ==> IsSpace(s[k])
  {
    if s != [] && IsSpace(s[|s| - 1]) then RStrip(s[..|s| - 1]) else s
  }

  /** Neither end of `s` is whitespace. */
  predicate IsStripped(s: string) {
    s == [] || (!IsSpace(s[0]) && !IsSpace(s[|s| - 1]))
  }

  /** The first index at or after `i` that is not whitespace (`|s|` if none). */
  function SpanStart(s: string, i: nat): (j: nat)
    requires i <= |s|
    ensures i <= j <= |s|
    ensures forall k :: i <= k < j ==> IsSpace(s[k])
    ensures j < |s| ==> !IsSpace(s[j])
    decreases |s| - i
  {
    if i == |s| || !IsSpace(s[i]) then i else SpanStart(s, i + 1)
  }

  /** The end of `s[lo..j]` once its trailing whitespace is dropped. */
  function SpanEnd(s: string, lo: nat, j: nat): (e: nat)
    requires lo <= j <= |s|
    ensures lo <= e <= j
    ensures forall k :: e <= k < j ==> IsSpace(s[k])
    ensures e > lo ==> !IsSpace(s[e - 1])
  {
    if j == lo || !IsSpace(s[j - 1]) then j else SpanEnd(s, lo, j - 1)
  }

  /** `r` is `s[i..i + |r|]` and everything around it in `s` is whitespace. */
  predicate IsSpaceFramedSlice(s: string, r: string, i: int) {
    0 <= i <= |s| - |r| && r == s[i..i + |r|]
    && (forall k :: 0 <= k < i ==> IsSpace(s[k]))
    && (forall k :: i + |r| <= k < |s| ==> IsSpace(s[k]))
  }

  /** `s.strip()`: the part of `s` between a whitespace-only prefix and a
      whitespace-only suffix; empty exactly when `s` is all whitespace. */
  function Strip(s: string): (r: string)
    ensures |r| <= |s| && IsStripped(r)
    ensures r == [] <==> forall k :: 0 <= k < |s| ==> IsSpace(s[k])
  {
    var a := SpanStart(s, 0);
    s[a..SpanEnd(s, a, |s|)]
  }

  /** What `strip()` keeps is a slice of `s` framed by whitespace only. */
  lemma StripIsFramedSlice(s: string)
    ensures exists i :: IsSpaceFramedSlice(s, Strip(s), i)
  {
    var a := SpanStart(s, 0);
    assert IsSpaceFramedSlice(s, Strip(s), a);
  }

  /** Text that neither starts nor ends with whitespace is its own `strip()`;
      in particular `strip()` is idempotent. */
  lemma StripStripped(s: string)
    requires IsStripped(s)
    ensures Strip(s) == s
  {
    assert SpanStart(s, 0) == 0;
    assert SpanEnd(s, 0, |s|) == |s|;
  }

  /** `strip()` adds no character. */
  lemma StripAvoids(s: string, x: char)
    requires x !in s
    ensures x !in Strip(s)
  {
    var a := SpanStart(s, 0);
    var b := SpanEnd(s, a, |s|);
    assert forall k :: 0 <= k < b - a ==> Strip(s)[k] == s[a + k];
  }

  /** `line.strip()` is empty: Python treats the line as blank. */
  predicate IsBlank(s: string) { Strip(s) == [] }

  /** The number of occurrences of `c` in `s`. */
  function Occurrences(s: string, c: char): (n: nat)
    ensures n <= |s|
    ensures n == 0 <==> c !in s
  {
    if s == [] then 0 else (if s[0] == c then 1 else 0) + Occurrences(s[1..], c)
  }

  /** `(cur + s).split(c)`, scanning `s` with `cur` the field read so far. */
  function SplitFrom(s: string, c: char, cur: string): (r: seq<string>)
    ensures |r| == 1 + Occurrences(s, c)
    ensures c !in cur ==> forall k :: 0 <= k < |r| ==> c !in r[k]
  {
    if s == [] then [cur]
    else if s[0] == c then [cur] + SplitFrom(s[1..], c, [])
    else SplitFrom(s[1..], c, cur + [s[0]])
  }

  /** The pieces hold only characters of `cur` and `s`. */
  lemma {:induction false} SplitFromAvoids(s: string, c: char, cur: string, x: char)
    requires x !in s && x !in cur
    ensures forall k :: 0 <= k < |SplitFrom(s, c, cur)| ==> x !in SplitFrom(s, c, cur)[k]
  {
    if s != [] {
      assert x !in s[1..] by { assert forall y :: y in s[1..] ==> y in s; }
      if s[0] == c {
        SplitFromAvoids(s[1..], c, [], x);
      } else {
        SplitFromAvoids(s[1..], c, cur + [s[0]], x);
      }
    }
  }

  /** `s.split(c)` for a one-character separator. */
  function Split(s: string, c: char): seq<string> {
    SplitFrom(s, c, [])
  }

  /** `[c].join(xs)` */
  function Join(sep: char, xs: seq<string>): string {
    if |xs| == 0 then []
    else if |xs| == 1 then xs[0]
    else xs[0] + [sep] + Join(sep, xs[1..])
  }

  /** A character absent from the pieces and different from the separator
      is absent from the joined text. */
  lemma {:induction false} JoinAvoids(sep: char, xs: seq<string>, x: char)
    requires x != sep
    requires forall k :: 0 <= k < |xs| ==> x !in xs[k]
    ensures x !in Join(sep, xs)
  {
    if |xs| > 1 {
      JoinAvoids(sep, xs[1..], x);
    }
  }

  /** Joining the pieces of a split gives back the text. */
  lemma {:induction false} JoinSplitFrom(s: string, c: char, cur: string)
    ensures Join(c, SplitFrom(s, c, cur)) == cur + s
  {
    if s == [] {
    } else if s[0] == c {
      JoinSplitFrom(s[1..], c, []);
      assert |SplitFrom(s[1..], c, [])| >= 1;
      assert s == [c] + s[1..];
    } else {
      JoinSplitFrom(s[1..], c, cur + [s[0]]);
      assert cur + [s[0]] + s[1..] == cur + s;
    }
  }

  lemma JoinSplit(s: string, c: char)
    ensures Join(c, Split(s, c)) == s
  {
    JoinSplitFrom(s, c, []);
  }

  /** Text free of the separator only extends the field being read. */
  lemma {:induction false} SplitFromAppend(a: string, t: string, c: char, cur: string)
    requires c !in a
    ensures SplitFrom(a + t, c, cur) == SplitFrom(t, c, cur + a)
  {
    if a != [] {
      assert (a + t)[0] == a[0] && a[0] != c;
      assert (a + t)[1..] == a[1..] + t;
      assert c !in a[1..] by { assert forall x :: x in a[1..] ==> x in a; }
      SplitFromAppend(a[1..], t, c, cur + [a[0]]);
      assert cur + [a[0]] + a[1..] == cur + a;
    } else {
      assert a + t == t && cur + a == cur;
    }
  }

  /** Splitting text joined from separator-free pieces gives back the pieces. */
  lemma {:induction false} SplitJoin(xs: seq<string>, c: char)
    requires |xs| > 0
    requires forall k :: 0 <= k < |xs| ==> c !in xs[k]
    ensures Split(Join(c, xs), c) == xs
  {
    if |xs| == 1 {
      SplitFromAppend(xs[0], [], c, []);
      assert xs[0] + [] == xs[0];
      assert [] + xs[0] == xs[0];
    } else {
      var rest := Join(c, xs[1..]);
      assert Join(c, xs) == xs[0] + [c] + rest;
      SplitFromAppend(xs[0], [c] + rest, c, []);
      assert xs[0] + ([c] + rest) == xs[0] + [c] + rest;
      assert ([c] + rest)[1..] == rest;
      assert [] + xs[0] == xs[0];
      assert SplitFrom([c] + rest, c, xs[0]) == [xs[0]] + SplitFrom(rest, c, []);
      SplitJoin(xs[1..], c);
      assert [xs[0]] + xs[1..] == xs;
    }
  }

  /** A separator at position |a| cuts off exactly the field `a`. */
  lemma SplitAt(a: string, t: string, c: char)
    requires c !in a
    ensures Split(a + [c] + t, c) == [a] + Split(t, c)
  {
    SplitFromAppend(a, [c] + t, c, []);
    assert a + [c] + t == a + ([c] + t);
    assert ([c] + t)[1..] == t;
    assert [] + a == a;
    assert SplitFrom([c] + t, c, a) == [a] + SplitFrom(t, c, []);
  }

  /** Text without the separator splits into itself alone. */
  lemma SplitNoSeparator(a: string, c: char)
    requires c !in a
    ensures Split(a, c) == [a]
  {
    SplitFromAppend(a, [], c, []);
    assert a + [] == a && [] + a == a;
  }

  /** `s.replace(a, b)` for one-character `a` and `b`. */
  function ReplaceChar(s: string, a: char, b: char): (r: string)
    ensures |r| == |s|
    ensures forall k :: 0 <= k < |s| ==> r[k] == if s[k] == a then b else s[k]
  {
    if s == [] then [] else [if s[0] == a then b else s[0]] + ReplaceChar(s[1..], a, b)
  }

  /** `s.replace(pat, '')`: removes the occurrences of `pat` found scanning
      left to right, without overlaps. */
  function RemoveAll(s: string, pat: string): (r: string)
    requires |pat| > 0
    ensures |r| <= |s|
    decreases |s|
  {
    if s == [] then []
    else if pat <= s then RemoveAll(s[|pat|..], pat)
    else [s[0]] + RemoveAll(s[1..], pat)
  }

  /** Text in which the first character of `pat` never occurs is kept whole. */
  lemma {:induction false} RemoveAllKeeps(a: string, t: string, pat: string)
    requires |pat| > 0 && pat[0] !in a
    ensures RemoveAll(a + t, pat) == a + RemoveAll(t, pat)
  {
    if a != [] {
      assert (a + t)[0] == a[0] && a[0] != pat[0];
      assert !(pat <= a + t);
      assert (a + t)[1..] == a[1..] + t;
      assert pat[0] !in a[1..] by { assert forall x :: x in a[1..] ==> x in a; }
      RemoveAllKeeps(a[1..], t, pat);
      assert a == [a[0]] + a[1..];
    } else {
      assert a + t == t;
    }
  }

  /** An occurrence at the front is removed. */
  lemma RemoveAllFront(t: string, pat: string)
    requires |pat| > 0
    ensures RemoveAll(pat + t, pat) == RemoveAll(t, pat)
  {
    assert pat <= pat + t;
    assert (pat + t)[|pat|..] == t;
  }

  /** `os.path.basename(p)` for '/'-separated paths: what follows the last '/'. */
  function Basename(p: string): (r: string)
    ensures '/' !in r
    ensures |r| <= |p| && r == p[|p| - |r|..]
    ensures |r| < |p| ==> p[|p| - |r| - 1] == '/'
  {
    if p == [] then []
    else if p[|p| - 1] == '/' then []
    else Basename(p[..|p| - 1]) + [p[|p| - 1]]
  }

  lemma {:induction false} BasenameAfterSlash(dir: string, name: string)
    requires '/' !in name
    ensures Basename(dir + "/" + name) == name
  {
    if name == [] {
      assert (dir + "/" + name)[|dir + "/" + name| - 1] == '/';
    } else {
      var p := dir + "/" + name;
      assert p[..|p| - 1] == dir + "/" + name[..|name| - 1];
      assert p[|p| - 1] == name[|name| - 1];
      assert name[|name| - 1] in name;
      BasenameAfterSlash(dir, name[..|name| - 1]);
      assert name[..|name| - 1] + [name[|name| - 1]] == name;
    }
  }

  function DigitChar(n: nat): (c: char)
    requires n < 10
    ensures IsDigit(c)
  {
    (48 + n) as char
  }

  function DigitValue(c: char): (n: nat)
    requires IsDigit(c)
    ensures n < 10
  {
    c as int - 48
  }

  /** `str(n)` for a non-negative `n`: decimal digits without leading zeros. */
  function NatToString(n: nat): (r: string)
    ensures |r| > 0 && AllDigits(r)
    ensures (r[0] == '0') == (n == 0)
  {
    if n < 10 then [DigitChar(n)] else NatToString(n / 10) + [DigitChar(n % 10)]
  }

  /** `str(i)` for any integer. */
  function IntToString(i: int): (r: string)
    ensures |r| > 0
    ensures (r[0] == '-') == (i < 0)
  {
    if i < 0 then "-" + NatToString(-i) else NatToString(i)
  }

  function Pow10(n: nat): (p: nat)
    ensures p >= 1
  {
    if n == 0 then 1 else 10 * Pow10(n - 1)
  }

  /** `int(s)` for a string of decimal digits (leading zeros allowed). */
  function DigitsValue(s: string): (v: nat)
    requires AllDigits(s)
    ensures v < Pow10(|s|)
  {
    if s == [] then 0 else 10 * DigitsValue(s[..|s| - 1]) + DigitValue(s[|s| - 1])
  }

  /** `int(str(n)) == n` */
  lemma {:induction false} DigitsValueOfNatToString(n: nat)
    ensures DigitsValue(NatToString(n)) == n
  {
    if n >= 10 {
      var s := NatToString(n);
      assert s[..|s| - 1] == NatToString(n / 10);
      DigitsValueOfNatToString(n / 10);
    }
  }

  /** Distinct numbers have distinct decimal renderings. */
  lemma NatToStringInjective(i: nat, j: nat)
    requires NatToString(i) == NatToString(j)
    ensures i == j
  {
    DigitsValueOfNatToString(i);
    DigitsValueOfNatToString(j);
  }
}
