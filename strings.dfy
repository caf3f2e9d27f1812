/** Bytes, options and the handful of Python `str` operations the carving engine
    relies on, written out over `seq<char>`: prefix/suffix/substring tests, the
    Python whitespace class, ASCII lower-casing, `strip`, `split`/`join` on one
    separator and decimal formatting of naturals. */
module Strings {

  /** One byte of a device block. */
  newtype byte = x: int | 0 <= x < 256

  datatype Option<T> = None | Some(value: T)

  // ---------------------------------------------------------------------------
  // Prefix, suffix and substring tests

  predicate StartsWith<T(==)>(s: seq<T>, p: seq<T>) {
    |p| <= |s| && s[..|p|] == p
  }

  predicate EndsWith<T(==)>(s: seq<T>, p: seq<T>) {
    |p| <= |s| && s[|s| - |p|..] == p
  }

  /** `p` occurs in `s` starting at index `i`. */
  predicate OccursAt<T(==)>(s: seq<T>, p: seq<T>, i: int) {
    0 <= i <= |s| - |p| && s[i..i + |p|] == p
  }

  /** Python's `p in s` on strings: `p` occurs somewhere in `s`. */
  predicate Contains<T(==)>(s: seq<T>, p: seq<T>) {
    exists i :: 0 <= i <= |s| && OccursAt(s, p, i)
  }

  lemma OccursAtIndex<T>(s: seq<T>, p: seq<T>, i: int, k: int)
    requires OccursAt(s, p, i) && 0 <= k < |p|
    ensures s[i + k] == p[k]
  {
    assert s[i..i + |p|][k] == p[k];
  }

  /** A substring of a slice is a substring of the whole. */
  lemma ContainsInSlice<T>(s: seq<T>, lo: int, hi: int, p: seq<T>)
    requires 0 <= lo <= hi <= |s|
    requires Contains(s[lo..hi], p)
    ensures Contains(s, p)
  {
    var i :| 0 <= i <= hi - lo && OccursAt(s[lo..hi], p, i);
    assert i + |p| <= hi - lo;
    forall k | 0 <= k < |p| ensures s[lo + i + k] == p[k] {
      assert s[lo..hi][i..i + |p|][k] == p[k];
    }
    assert s[lo + i..lo + i + |p|] == p;
    assert OccursAt(s, p, lo + i);
  }

  // ---------------------------------------------------------------------------
  // Character classes

  predicate IsAsciiLetter(c: char) {
    ('a' <= c <= 'z') || ('A' <= c <= 'Z')
  }

  predicate IsAsciiDigit(c: char) {
    '0' <= c <= '9'
  }

  predicate IsAscii(c: char) {
    c as int < 128
  }

  /** Python's `str.isspace` / the `\s` class of `re` on str patterns: the
      characters with Unicode property White_Space that Python lists. */
  predicate IsSpace(c: char) {
    ('\t' <= c <= '\r') || ('\U{1C}' <= c <= '\U{1F}') || c == ' '
    || c == '\U{85}' || c == '\U{A0}' || c == '\U{1680}'
    || ('\U{2000}' <= c <= '\U{200A}') || c == '\U{2028}' || c == '\U{2029}'
    || c == '\U{202F}' || c == '\U{205F}' || c == '\U{3000}'
  }

  predicate HasAsciiLetter(s: string) {
    exists i :: 0 <= i < |s| && IsAsciiLetter(s[i])
  }

  /** `lower()` restricted to ASCII: upper-case ASCII letters map to lower case,
      every other character is kept. */
  function LowerChar(c: char): (r: char)
    ensures IsAscii(c) <==> IsAscii(r)
    ensures !('A' <= r <= 'Z')
    ensures 'a' <= c <= 'z' || !IsAsciiLetter(c) ==> r == c
    ensures 'A' <= c <= 'Z' ==> r as int == c as int + 32
  {
    if 'A' <= c <= 'Z' then (c as int + 32) as char else c
  }

  function Lower(s: string): (r: string)
    ensures |r| == |s| && forall i :: 0 <= i < |s| ==> r[i] == LowerChar(s[i])
  {
    seq(|s|, i requires 0 <= i < |s| => LowerChar(s[i]))
  }

  /** Lowering twice is lowering once. */
  lemma LowerIdempotent(s: string)
    ensures Lower(Lower(s)) == Lower(s)
  {
    assert forall i :: 0 <= i < |s| ==> LowerChar(LowerChar(s[i])) == LowerChar(s[i]);
  }

  /** Every character of `s` is mapped through `f` (Python's chained single
      character `replace` calls). */
  function MapChars(s: string, f: char -> char): (r: string)
    ensures |r| == |s| && forall i :: 0 <= i < |s| ==> r[i] == f(s[i])
  {
    seq(|s|, i requires 0 <= i < |s| => f(s[i]))
  }

  // ---------------------------------------------------------------------------
  // strip / lstrip / rstrip

  /** Python's argument-less `lstrip()`: drops leading whitespace. */
  function LStrip(s: string): (r: string)
    ensures |r| <= |s|
    ensures |r| > 0 ==> !IsSpace(r[0])
  {
    if |s| > 0 && IsSpace(s[0]) then LStrip(s[1..]) else s
  }

  /** Python's argument-less `rstrip()`: drops trailing whitespace. */
  function RStrip(s: string): (r: string)
    ensures |r| <= |s|
    ensures |r| > 0 ==> !IsSpace(r[|r| - 1])
  {
    if |s| > 0 && IsSpace(s[|s| - 1]) then RStrip(s[..|s| - 1]) else s
  }

  /** `lstrip()` removes a whitespace prefix and keeps the rest unchanged. */
  lemma {:induction false} LStripDropsSpace(s: string)
    ensures LStrip(s) == s[|s| - |LStrip(s)|..]
    ensures forall i :: 0 <= i < |s| - |LStrip(s)| ==> IsSpace(s[i])
  {
    if |s| > 0 && IsSpace(s[0]) {
      LStripDropsSpace(s[1..]);
      forall i | 1 <= i < |s| - |LStrip(s)| ensures IsSpace(s[i]) {
        assert s[i] == s[1..][i - 1];
      }
    }
  }

  /** `rstrip()` removes a whitespace suffix and keeps the rest unchanged. */
  lemma {:induction false} RStripDropsSpace(s: string)
    ensures RStrip(s) == s[..|RStrip(s)|]
    ensures forall i :: |RStrip(s)| <= i < |s| ==> IsSpace(s[i])
  {
    if |s| > 0 && IsSpace(s[|s| - 1]) {
      RStripDropsSpace(s[..|s| - 1]);
      forall i | |RStrip(s)| <= i < |s| - 1 ensures IsSpace(s[i]) {
        assert s[i] == s[..|s| - 1][i];
      }
    }
  }

  /** Python's argument-less `strip()`. */
  function Strip(s: string): string {
    RStrip(LStrip(s))
  }

  /** Python's `lstrip(chars)`. */
  function LStripChars(s: string, chars: string): (r: string)
    ensures |r| <= |s| && r == s[|s| - |r|..]
    ensures |r| > 0 ==> r[0] !in chars
  {
    if |s| > 0 && s[0] in chars then LStripChars(s[1..], chars) else s
  }

  /** Python's `rstrip(chars)`. */
  function RStripChars(s: string, chars: string): (r: string)
    ensures |r| <= |s| && r == s[..|r|]
  {
    if |s| > 0 && s[|s| - 1] in chars then RStripChars(s[..|s| - 1], chars) else s
  }

  /** Python's `strip(chars)`. */
  function StripChars(s: string, chars: string): string {
    RStripChars(LStripChars(s, chars), chars)
  }

  // ---------------------------------------------------------------------------
  // split / join on one separator character

  /** Python's `s.split(sep)` for a one-character separator: never empty. */
  function Split(s: string, sep: char): (r: seq<string>)
    ensures |r| >= 1
  {
    if |s| == 0 then [""]
    else
      var rest := Split(s[1..], sep);
      if s[0] == sep then [""] + rest else [[s[0]] + rest[0]] + rest[1..]
  }

  /** Python's `sep.join(parts)` for a one-character separator. */
  function Join(sep: char, parts: seq<string>): string
    decreases |parts|
  {
    if |parts| == 0 then ""
    else if |parts| == 1 then parts[0]
    else parts[0] + [sep] + Join(sep, parts[1..])
  }

  lemma JoinConsHead(sep: char, c: char, a: string, parts: seq<string>)
    ensures Join(sep, [[c] + a] + parts) == [c] + Join(sep, [a] + parts)
  {
    if |parts| > 0 {
      assert ([[c] + a] + parts)[1..] == parts;
      assert ([a] + parts)[1..] == parts;
    }
  }

  /** Joining what was split gives the string back. */
  lemma {:induction false} JoinSplit(s: string, sep: char)
    ensures Join(sep, Split(s, sep)) == s
  {
    if |s| > 0 {
      var rest := Split(s[1..], sep);
      JoinSplit(s[1..], sep);
      if s[0] == sep {
        assert ([""] + rest)[1..] == rest;
      } else {
        assert rest == [rest[0]] + rest[1..];
        JoinConsHead(sep, s[0], rest[0], rest[1..]);
      }
    }
  }

  /** Joining the first `k` parts gives a prefix of joining them all. */
  lemma {:induction false} JoinTakePrefix(sep: char, parts: seq<string>, k: nat)
    requires 1 <= k <= |parts|
    ensures StartsWith(Join(sep, parts), Join(sep, parts[..k]))
    decreases k
  {
    if k > 1 {
      JoinTakePrefix(sep, parts[1..], k - 1);
      assert parts[..k][1..] == parts[1..][..k - 1];
    }
  }

  /** No part of a split holds the separator. */
  lemma {:induction false} SplitPartsNoSep(s: string, sep: char)
    ensures forall i :: 0 <= i < |Split(s, sep)| ==> sep !in Split(s, sep)[i]
  {
    if |s| > 0 {
      SplitPartsNoSep(s[1..], sep);
    }
  }

  /** Joining `n` separator-free parts puts exactly `n - 1` separators in. */
  lemma {:induction false} JoinSeparatorCount(sep: char, parts: seq<string>)
    requires |parts| >= 1 && forall i :: 0 <= i < |parts| ==> sep !in parts[i]
    ensures multiset(Join(sep, parts))[sep] == |parts| - 1
  {
    if |parts| > 1 {
      assert sep !in parts[0];
      JoinSeparatorCount(sep, parts[1..]);
      assert multiset(parts[0] + [sep] + Join(sep, parts[1..]))
          == multiset(parts[0]) + multiset([sep]) + multiset(Join(sep, parts[1..]));
    }
  }

  /** Right after the join of the first `k` parts, the full join has the
      separator before part `k`. */
  lemma {:induction false} JoinTakeNext(sep: char, parts: seq<string>, k: nat)
    requires 1 <= k < |parts|
    ensures |Join(sep, parts[..k])| < |Join(sep, parts)|
    ensures Join(sep, parts)[|Join(sep, parts[..k])|] == sep
    decreases k
  {
    var whole := Join(sep, parts);
    assert whole == parts[0] + [sep] + Join(sep, parts[1..]);
    if k > 1 {
      JoinTakeNext(sep, parts[1..], k - 1);
      assert parts[..k][1..] == parts[1..][..k - 1];
      assert Join(sep, parts[..k]) == parts[0] + [sep] + Join(sep, parts[1..][..k - 1]);
    }
  }

  // ---------------------------------------------------------------------------
  // Decimal formatting

  function DigitChar(d: nat): (c: char)
    requires d < 10
    ensures IsAsciiDigit(c) && c as int - '0' as int == d
  {
    (d + '0' as int) as char
  }

  /** Python's `str(n)` for a natural number. */
  function NatToString(n: nat): (r: string)
    ensures |r| >= 1 && forall i :: 0 <= i < |r| ==> IsAsciiDigit(r[i])
    ensures |r| > 1 ==> r[0] != '0'
  {
    if n < 10 then [DigitChar(n)] else NatToString(n / 10) + [DigitChar(n % 10)]
  }

  /** The value of a string of ASCII digits (leading zeros allowed). */
  function ParseNat(s: string): nat
    requires forall i :: 0 <= i < |s| ==> IsAsciiDigit(s[i])
  {
    if |s| == 0 then 0
    else
      assert IsAsciiDigit(s[|s| - 1]);
      ParseNat(s[..|s| - 1]) * 10 + (s[|s| - 1] as int - '0' as int)
  }

  lemma {:induction false} ParseNatToString(n: nat)
    ensures ParseNat(NatToString(n)) == n
  {
    if n >= 10 {
      var s := NatToString(n);
      assert s[..|s| - 1] == NatToString(n / 10);
      ParseNatToString(n / 10);
    }
  }

  lemma NatToStringInjective(m: nat, n: nat)
    requires NatToString(m) == NatToString(n)
    ensures m == n
  {
    ParseNatToString(m);
    ParseNatToString(n);
  }

  function Zeros(k: nat): (r: string)
    ensures |r| == k && forall i :: 0 <= i < k ==> r[i] == '0'
  {
    seq(k, _ => '0')
  }

  /** Python's `f"{n:05d}"` for a natural number: at least five digits, padded
      on the left with zeros. */
  function ZeroPad5(n: nat): (r: string)
  {
    var s := NatToString(n);
    if |s| < 5 then Zeros(5 - |s|) + s else s
  }

  lemma {:induction false} ParseNatLeadingZeros(k: nat, s: string)
    requires forall i :: 0 <= i < |s| ==> IsAsciiDigit(s[i])
    ensures forall i :: 0 <= i < |Zeros(k) + s| ==> IsAsciiDigit((Zeros(k) + s)[i])
    ensures ParseNat(Zeros(k) + s) == ParseNat(s)
    decreases |s|
  {
    if |s| > 0 {
      var t := Zeros(k) + s;
      assert t[..|t| - 1] == Zeros(k) + s[..|s| - 1];
      ParseNatLeadingZeros(k, s[..|s| - 1]);
    } else {
      assert Zeros(k) + s == Zeros(k);
      ZerosParse(k);
    }
  }

  lemma {:induction false} ZerosParse(k: nat)
    ensures ParseNat(Zeros(k)) == 0
  {
    if k > 0 {
      assert Zeros(k)[..k - 1] == Zeros(k - 1);
      ZerosParse(k - 1);
    }
  }

  /** The padded form has at least five digits, exactly five below 100000, and
      reads back as the number it formats. */
  lemma ZeroPad5RoundTrip(n: nat)
    ensures |ZeroPad5(n)| >= 5 && (n < 100000 ==> |ZeroPad5(n)| == 5)
    ensures forall i :: 0 <= i < |ZeroPad5(n)| ==> IsAsciiDigit(ZeroPad5(n)[i])
    ensures ParseNat(ZeroPad5(n)) == n
  {
    var s := NatToString(n);
    ParseNatToString(n);
    NatToStringLength(n);
    if |s| < 5 {
      ParseNatLeadingZeros(5 - |s|, s);
    }
  }

  /** `str(n)` has at most five digits exactly when `n` is below 100000. */
  lemma {:induction false} NatToStringLength(n: nat)
    ensures n < 100000 <==> |NatToString(n)| <= 5
  {
    NatToStringLengthBound(n, 5);
  }

  lemma {:induction false} NatToStringLengthBound(n: nat, k: nat)
    requires k >= 1
    ensures |NatToString(n)| <= k <==> n < Pow10(k)
  {
    if n >= 10 {
      if k > 1 {
        NatToStringLengthBound(n / 10, k - 1);
        assert n < Pow10(k) <==> n / 10 < Pow10(k - 1);
      }
    } else {
      Pow10Positive(k - 1);
    }
  }

  function Pow10(k: nat): nat {
    if k == 0 then 1 else 10 * Pow10(k - 1)
  }

  lemma Pow10Positive(k: nat)
    ensures Pow10(k) >= 1
  {
  }
}
