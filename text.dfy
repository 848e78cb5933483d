/**
 * Text helpers shared by the scripts: decimal rendering of a natural number
 * (Python's `str(int)` and f-string `{n}`), its parse back, and `sep.join(...)`
 * together with `str.split(sep)` as its inverse.
 */
module Text {

  predicate IsDigit(c: char) { '0' <= c <= '9' }

  function DigitChar(d: nat): (c: char)
    requires d < 10
    ensures IsDigit(c)
  {
    ('0' as int + d) as char
  }

  function DigitValue(c: char): (d: nat)
    requires IsDigit(c)
    ensures d < 10
  {
    c as int - '0' as int
  }

  /** Decimal rendering of `n`, without sign or leading zeros. */
  function NatToString(n: nat): (s: string)
    ensures |s| > 0
    ensures forall i :: 0 <= i < |s| ==> IsDigit(s[i])
    ensures |s| > 1 ==> s[0] != '0'
  {
    if n < 10 then [DigitChar(n)] else NatToString(n / 10) + [DigitChar(n % 10)]
  }

  /** The value of a string of decimal digits (most significant first). */
  function ParseDigits(s: string): nat
    requires forall i :: 0 <= i < |s| ==> IsDigit(s[i])
  {
    if s == [] then 0 else 10 * ParseDigits(s[..|s| - 1]) + DigitValue(s[|s| - 1])
  }

  lemma {:induction false} ParseNatToString(n: nat)
    ensures ParseDigits(NatToString(n)) == n
  {
    if n >= 10 {
      var s := NatToString(n);
      assert s[..|s| - 1] == NatToString(n / 10);
      ParseNatToString(n / 10);
    }
  }

  lemma NatToStringInjective(a: nat, b: nat)
    requires NatToString(a) == NatToString(b)
    ensures a == b
  {
    ParseNatToString(a);
    ParseNatToString(b);
  }

  /** `[sep].join(parts)` for a one-character separator. */
  function Join(parts: seq<string>, sep: char): string
  {
    if |parts| == 0 then ""
    else if |parts| == 1 then parts[0]
    else parts[0] + [sep] + Join(parts[1..], sep)
  }

  /** `s.split(sep)` for a one-character separator: the empty string gives `[""]`. */
  function SplitOn(s: string, sep: char): (parts: seq<string>)
    ensures |parts| > 0
  {
    if |s| == 0 then [""]
    else if s[0] == sep then [""] + SplitOn(s[1..], sep)
    else
      var rest := SplitOn(s[1..], sep);
      [[s[0]] + rest[0]] + rest[1..]
  }

  /** Splitting at the first separator: a separator-free head comes off as the first part. */
  lemma {:induction false} SplitOnHead(head: string, sep: char, tail: string)
    requires sep !in head
    ensures SplitOn(head + [sep] + tail, sep) == [head] + SplitOn(tail, sep)
  {
    if head != [] {
      var s := head + [sep] + tail;
      assert s[0] == head[0] != sep;
      assert s[1..] == head[1..] + [sep] + tail;
      SplitOnHead(head[1..], sep, tail);
      assert [head[0]] + head[1..] == head;
    } else {
      assert head + [sep] + tail == [sep] + tail;
    }
  }

  /** A string without the separator splits into itself alone. */
  lemma {:induction false} SplitOnNone(s: string, sep: char)
    requires sep !in s
    ensures SplitOn(s, sep) == [s]
  {
    if s != [] {
      SplitOnNone(s[1..], sep);
      assert [s[0]] + s[1..] == s;
    }
  }

  /** `sep.join` and `split(sep)` are inverse when there is at least one part and no part holds `sep`. */
  lemma {:induction false} SplitJoin(parts: seq<string>, sep: char)
    requires |parts| > 0
    requires forall i :: 0 <= i < |parts| ==> sep !in parts[i]
    ensures SplitOn(Join(parts, sep), sep) == parts
  {
    if |parts| == 1 {
      SplitOnNone(parts[0], sep);
    } else {
      SplitOnHead(parts[0], sep, Join(parts[1..], sep));
      SplitJoin(parts[1..], sep);
      assert [parts[0]] + parts[1..] == parts;
    }
  }

  /** A character that is not the separator occurs in the joined string only if it occurs in a part. */
  lemma {:induction false} JoinAvoids(parts: seq<string>, sep: char, c: char)
    requires c != sep
    requires forall i :: 0 <= i < |parts| ==> c !in parts[i]
    ensures c !in Join(parts, sep)
  {
    if |parts| > 1 {
      JoinAvoids(parts[1..], sep, c);
    }
  }

  predicate EndsWith(s: string, suffix: string)
  {
    |suffix| <= |s| && s[|s| - |suffix|..] == suffix
  }
}
