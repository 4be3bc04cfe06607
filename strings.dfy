/**
 * The few Ruby string operations the server relies on, over `string`
 * (a sequence of characters): the `\s` character class, `downcase` on the
 * ASCII letters a request method is made of, `start_with?`, substring
 * search (`str["gzip"]`), `Integer#to_s`, and line-terminator scanning.
 */
module Strings {

  const CRLF: string := "\r\n"

  /** Ruby's `\s`: space, tab, line feed, vertical tab, form feed, carriage return. */
  predicate IsSpace(c: char) {
    c == ' ' || c == '\t' || c == '\n' || c == '\r' || c as int == 11 || c as int == 12
  }

  predicate IsUpper(c: char) {
    'A' <= c <= 'Z'
  }

  predicate IsDigit(c: char) {
    '0' <= c <= '9'
  }

  predicate AllUpper(s: string) {
    forall i :: 0 <= i < |s| ==> IsUpper(s[i])
  }

  predicate NoSpace(s: string) {
    forall i :: 0 <= i < |s| ==> !IsSpace(s[i])
  }

  predicate AllDigits(s: string) {
    forall i :: 0 <= i < |s| ==> IsDigit(s[i])
  }

  function LowerChar(c: char): char {
    if IsUpper(c) then (c as int + 32) as char else c
  }

  /** `String#downcase` restricted to ASCII letters; other characters are kept. */
  function Lower(s: string): string {
    seq(|s|, i requires 0 <= i < |s| => LowerChar(s[i]))
  }

  /** Lowercasing an upper-case token yields its letters a..z, one for one. */
  lemma LowerOfUpper(s: string)
    requires AllUpper(s)
    ensures |Lower(s)| == |s|
    ensures forall i :: 0 <= i < |s| ==> 'a' <= Lower(s)[i] <= 'z' && Lower(s)[i] as int == s[i] as int + 32
  {
  }

  predicate StartsWith(s: string, prefix: string) {
    |prefix| <= |s| && s[..|prefix|] == prefix
  }

  predicate OccursAt(s: string, t: string, i: int) {
    0 <= i && i + |t| <= |s| && s[i..i + |t|] == t
  }

  /** Ruby's `s[t]` used as a condition: true iff `t` is a substring of `s`. */
  predicate Contains(s: string, t: string)
    decreases |s|
  {
    StartsWith(s, t) || (s != [] && Contains(s[1..], t))
  }

  lemma {:induction false} ContainsIffOccurs(s: string, t: string)
    ensures Contains(s, t) <==> exists i :: OccursAt(s, t, i)
    decreases |s|
  {
    if StartsWith(s, t) {
      assert OccursAt(s, t, 0);
    } else if s == [] {
    } else {
      ContainsIffOccurs(s[1..], t);
      if exists i :: OccursAt(s[1..], t, i) {
        var i :| OccursAt(s[1..], t, i);
        assert s[i + 1..i + 1 + |t|] == s[1..][i..i + |t|];
        assert OccursAt(s, t, i + 1);
      }
      if exists i :: OccursAt(s, t, i) {
        var i :| OccursAt(s, t, i);
        assert i != 0;
        assert s[1..][i - 1..i - 1 + |t|] == s[i..i + |t|];
        assert OccursAt(s[1..], t, i - 1);
      }
    }
  }

  /** The index of the first `c` in `s`, or `|s|` when there is none. */
  function IndexOf(s: string, c: char): (i: nat)
    ensures i <= |s|
    ensures i < |s| ==> s[i] == c
    ensures forall j :: 0 <= j < i ==> s[j] != c
  {
    if s == [] then 0
    else if s[0] == c then 0
    else 1 + IndexOf(s[1..], c)
  }

  /** The index of the first `\s` character of `s`, or `|s|` when there is none. */
  function IndexOfSpace(s: string): (i: nat)
    ensures i <= |s|
    ensures i < |s| ==> IsSpace(s[i])
    ensures forall j :: 0 <= j < i ==> !IsSpace(s[j])
  {
    if s == [] then 0
    else if IsSpace(s[0]) then 0
    else 1 + IndexOfSpace(s[1..])
  }

  /** `s` cut before its first `c`: the part without `c`, and the rest from `c` on. */
  function SplitAt(s: string, c: char): (r: (string, string))
    ensures r.0 + r.1 == s
    ensures c !in r.0
    ensures r.1 == [] || r.1[0] == c
  {
    var i := IndexOf(s, c);
    assert forall j :: 0 <= j < i ==> s[..i][j] != c;
    (s[..i], s[i..])
  }

  /** There is only one such cut. */
  lemma SplitAtUnique(a: string, b: string, c: char)
    requires c !in a && (b == [] || b[0] == c)
    ensures SplitAt(a + b, c) == (a, b)
  {
    var i := IndexOf(a + b, c);
    assert forall j :: 0 <= j < |a| ==> (a + b)[j] == a[j] && a[j] != c;
    if b != [] {
      assert (a + b)[|a|] == c;
    }
    assert i == |a|;
    assert (a + b)[..i] == a && (a + b)[i..] == b;
  }

  /** `s` cut before its first `\s` character. */
  function SplitAtSpace(s: string): (r: (string, string))
    ensures r.0 + r.1 == s
    ensures NoSpace(r.0)
    ensures r.1 == [] || IsSpace(r.1[0])
  {
    var i := IndexOfSpace(s);
    assert forall j :: 0 <= j < i ==> !IsSpace(s[..i][j]);
    (s[..i], s[i..])
  }

  lemma SplitAtSpaceUnique(a: string, b: string)
    requires NoSpace(a) && (b == [] || IsSpace(b[0]))
    ensures SplitAtSpace(a + b) == (a, b)
  {
    var i := IndexOfSpace(a + b);
    assert forall j :: 0 <= j < |a| ==> (a + b)[j] == a[j];
    if b != [] {
      assert IsSpace((a + b)[|a|]);
    }
    assert i == |a|;
    assert (a + b)[..i] == a && (a + b)[i..] == b;
  }

  predicate CrlfAt(s: string, j: int) {
    0 <= j && j + 1 < |s| && s[j] == '\r' && s[j + 1] == '\n'
  }

  predicate NoCrlf(s: string) {
    forall j :: 0 <= j < |s| ==> !CrlfAt(s, j)
  }

  /**
   * The index just after the first CRLF that starts at or after `from`,
   * or `|s|` when there is none.
   */
  function LineEnd(s: string, from: nat): (e: nat)
    requires from <= |s|
    ensures from <= e <= |s|
    ensures forall j :: from <= j && j + 2 < e ==> !CrlfAt(s, j)
    ensures (from + 2 <= e && CrlfAt(s, e - 2)) || (e == |s| && forall j :: from <= j ==> !CrlfAt(s, j))
    decreases |s| - from
  {
    if from + 1 >= |s| then |s|
    else if s[from] == '\r' && s[from + 1] == '\n' then from + 2
    else LineEnd(s, from + 1)
  }

  /** A complete protocol line: it ends with CRLF and holds no earlier CRLF. */
  predicate IsLine(l: string) {
    |l| >= 2 && CrlfAt(l, |l| - 2) && forall j :: 0 <= j < |l| - 2 ==> !CrlfAt(l, j)
  }

  lemma PrefixOfConcat(a: string, b: string, n: nat)
    requires n <= |b|
    ensures (a + b)[..|a| + n] == a + b[..n]
  {
  }

  /** Regrouping a concatenation of three sequences. */
  lemma Regroup3<T>(a: seq<T>, b: seq<T>, c: seq<T>)
    ensures a + b + c == a + (b + c)
  {
  }

  /** Regrouping a concatenation of four texts. */
  lemma Regroup(a: string, b: string, c: string, d: string)
    ensures a + b + c + d == a + (b + c + d)
  {
  }

  /** Regrouping three texts that follow a fourth. */
  lemma RegroupAfter(s: string, a: string, b: string, c: string)
    ensures s + (a + b + c) == s + a + b + c
  {
  }

  lemma PrefixOfAppend(a: string, b: string)
    ensures StartsWith(a + b, a)
  {
    assert (a + b)[..|a|] == a;
  }

  /** Two texts without CRLF join into one without, unless a CR meets an LF at the seam. */
  lemma NoCrlfConcat(x: string, y: string)
    requires NoCrlf(x) && NoCrlf(y)
    requires x == [] || y == [] || x[|x| - 1] != '\r' || y[0] != '\n'
    ensures NoCrlf(x + y)
  {
    forall j | 0 <= j < |x + y| ensures !CrlfAt(x + y, j) {
      if j + 1 < |x| {
        assert !CrlfAt(x, j);
      } else if j >= |x| {
        assert !CrlfAt(y, j - |x|);
      }
    }
  }

  /** A text without CRLF, terminated by CRLF, is one protocol line. */
  lemma LineOfText(a: string)
    requires NoCrlf(a)
    ensures IsLine(a + CRLF)
  {
    var l := a + CRLF;
    forall j | 0 <= j < |l| - 2 ensures !CrlfAt(l, j) {
      if j + 1 < |a| {
        assert !CrlfAt(a, j);
      }
    }
  }

  /** `Array#join(sep)` on strings. */
  function Join(parts: seq<string>, sep: string): string {
    if parts == [] then []
    else if |parts| == 1 then parts[0]
    else parts[0] + sep + Join(parts[1..], sep)
  }

  function DigitChar(d: nat): char
    requires d < 10
  {
    ('0' as int + d) as char
  }

  function DigitValue(c: char): nat
    requires IsDigit(c)
  {
    c as int - '0' as int
  }

  /** `Integer#to_s` for a non-negative integer: decimal digits, no leading zero. */
  function NatToString(n: nat): (r: string)
    ensures |r| >= 1 && AllDigits(r)
    ensures r[0] == '0' ==> n == 0
    decreases n
  {
    if n < 10 then [DigitChar(n)] else NatToString(n / 10) + [DigitChar(n % 10)]
  }

  /** `Integer#to_s` for any integer: a minus sign before the digits of a negative one. */
  function IntToString(i: int): (r: string)
    ensures |r| >= 1
    ensures i >= 0 ==> AllDigits(r)
    ensures i < 0 ==> r[0] == '-' && AllDigits(r[1..])
  {
    if i < 0 then "-" + NatToString(-i) else NatToString(i)
  }

  /** The value of a string of decimal digits. */
  function DigitsValue(s: string): nat
    requires AllDigits(s)
  {
    if s == [] then 0 else DigitsValue(s[..|s| - 1]) * 10 + DigitValue(s[|s| - 1])
  }

  /** Reading the decimal text of `n` back gives `n`. */
  lemma {:induction false} NatToStringRoundTrip(n: nat)
    ensures DigitsValue(NatToString(n)) == n
    decreases n
  {
    var r := NatToString(n);
    if n >= 10 {
      NatToStringRoundTrip(n / 10);
      assert r[..|r| - 1] == NatToString(n / 10);
    }
  }
}
