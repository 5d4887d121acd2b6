/** The string operations the reference parser is built from: splitting, digit runs, decimal numerals. */
module Text {

  predicate IsDigit(c: char) { '0' <= c <= '9' }

  predicate IsLetter(c: char) { 'A' <= c <= 'Z' || 'a' <= c <= 'z' }

  /** `[0-9]+` */
  predicate Digits(s: string) {
    s != "" && forall i :: 0 <= i < |s| ==> IsDigit(s[i])
  }

  predicate Letters(s: string) {
    s != "" && forall i :: 0 <= i < |s| ==> IsLetter(s[i])
  }

  /** `[1-3]?[A-Za-z]+` */
  predicate BookLike(s: string) {
    Letters(s) || (s != "" && '1' <= s[0] <= '3' && Letters(s[1..]))
  }

  /** `str.isspace` for one character, as `str.strip` uses it. */
  predicate IsSpace(c: char) {
    || '\t' <= c <= '\r' || '\U{1c}' <= c <= ' ' || c == '\U{85}' || c == '\U{a0}' || c == '\U{1680}'
    || '\U{2000}' <= c <= '\U{200a}' || c == '\U{2028}' || c == '\U{2029}' || c == '\U{202f}' || c == '\U{205f}'
    || c == '\U{3000}'
  }

  /** `s.strip() != s` for a nonempty string. */
  predicate HasOuterSpace(s: string)
    requires s != ""
  {
    IsSpace(s[0]) || IsSpace(s[|s| - 1])
  }

  /** `s.split(c)`, for text and for bytes. */
  function Split<T(==)>(s: seq<T>, c: T): (r: seq<seq<T>>)
    ensures r != []
  {
    if s == [] then [[]]
    else if s[0] == c then [[]] + Split(s[1..], c)
    else var r := Split(s[1..], c); [[s[0]] + r[0]] + r[1..]
  }

  lemma {:induction false} SplitWhole<T>(s: seq<T>, c: T)
    requires c !in s
    ensures Split(s, c) == [s]
  {
    if s != [] {
      SplitWhole(s[1..], c);
      assert [s[0]] + s[1..] == s;
    }
  }

  lemma {:induction false} SplitAt<T>(a: seq<T>, c: T, b: seq<T>)
    requires c !in a
    ensures Split(a + [c] + b, c) == [a] + Split(b, c)
  {
    var s := a + [c] + b;
    if a == [] {
      assert s[1..] == b;
    } else {
      assert s[1..] == a[1..] + [c] + b;
      SplitAt(a[1..], c, b);
      assert [a[0]] + a[1..] == a && s[0] == a[0];
      assert Split(s[1..], c)[1..] == Split(b, c);
    }
  }

  /** Parts with a separator between them: what `Split` took apart. */
  function Glue<T>(parts: seq<seq<T>>, c: T): seq<T>
    requires parts != []
  {
    if |parts| == 1 then parts[0] else parts[0] + [c] + Glue(parts[1..], c)
  }

  lemma {:induction false} SplitGlues<T>(s: seq<T>, c: T)
    ensures Glue(Split(s, c), c) == s
  {
    if s != [] {
      SplitGlues(s[1..], c);
      var rest := Split(s[1..], c);
      assert s == [s[0]] + s[1..];
      if s[0] == c {
        assert Split(s, c)[1..] == rest;
      } else {
        assert Split(s, c) == [[s[0]] + rest[0]] + rest[1..];
        assert Split(s, c)[1..] == rest[1..];
      }
    }
  }

  function Digit(c: char): nat
    requires IsDigit(c)
  {
    c as int - '0' as int
  }

  /** `int(s)` for a run of digits. */
  function ParseNat(s: string): nat
    requires forall i :: 0 <= i < |s| ==> IsDigit(s[i])
  {
    if s == "" then 0 else 10 * ParseNat(s[..|s| - 1]) + Digit(s[|s| - 1])
  }

  function DigitChar(d: nat): char
    requires d < 10
  {
    ('0' as int + d) as char
  }

  /** `str(n)` */
  function PrintNat(n: nat): string {
    if n < 10 then [DigitChar(n)] else PrintNat(n / 10) + [DigitChar(n % 10)]
  }

  lemma {:induction false} PrintedIsDigits(n: nat)
    ensures Digits(PrintNat(n)) && ParseNat(PrintNat(n)) == n
  {
    if n >= 10 {
      PrintedIsDigits(n / 10);
      var front := PrintNat(n / 10);
      assert PrintNat(n)[..|PrintNat(n)| - 1] == front;
    } else {
      assert PrintNat(n)[..0] == "";
    }
  }

  lemma {:induction false} DigitsAvoid(s: string, c: char)
    requires Digits(s) && !IsDigit(c)
    ensures c !in s
  {
  }

  lemma {:induction false} BookAvoids(s: string, c: char)
    requires BookLike(s) && !IsDigit(c) && !IsLetter(c)
    ensures c !in s
  {
    if !Letters(s) {
      assert forall k :: 1 <= k < |s| ==> s[k] == s[1..][k - 1];
    }
  }

  /** `separator.join(parts)` */
  function Join(parts: seq<string>, separator: string): string {
    if parts == [] then ""
    else if |parts| == 1 then parts[0]
    else parts[0] + separator + Join(parts[1..], separator)
  }
}
