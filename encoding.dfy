/** The text classifier and the encoding probe (utils/encoding_utils.py).
    Character decoding itself is a parameter: a `Decoder` maps an encoding name
    and a byte span to the decoded string, or to `None` when the strict codec
    raises. */
module EncodingUtils {
  import opened Strings
  import Config

  // ---------------------------------------------------------------------------
  // Printable bytes

  /** A byte of `string.printable`: the 95 visible ASCII characters with space,
      and the five whitespace controls `\t \n \x0b \x0c \r` (100 bytes). */
  predicate IsPrintableByte(b: byte) {
    (9 <= b <= 13) || (32 <= b <= 126)
  }

  predicate AllPrintable(s: seq<byte>) {
    forall i :: 0 <= i < |s| ==> IsPrintableByte(s[i])
  }

  /** `sum(b in imprimibles for b in data)`. */
  function PrintableCount(d: seq<byte>): (n: nat)
    ensures n <= |d|
  {
    if d == [] then 0
    else PrintableCount(d[..|d| - 1]) + (if IsPrintableByte(d[|d| - 1]) then 1 else 0)
  }

  /** The share of printable bytes, `validos / len(data)`. */
  function Ratio(d: seq<byte>): (r: real)
    requires |d| > 0
    ensures 0.0 <= r <= 1.0
  {
    PrintableCount(d) as real / |d| as real
  }

  /** The `n` bytes of `d` from index `i` on are all printable. */
  predicate PrintableRunAt(d: seq<byte>, i: int, n: int) {
    0 <= i && 0 <= n && i + n <= |d| && forall m :: i <= m < i + n ==> IsPrintableByte(d[m])
  }

  /** Some window of `n` consecutive bytes of `d` is all printable. */
  predicate HasPrintableRun(d: seq<byte>, n: nat) {
    exists i :: 0 <= i <= |d| - n && PrintableRunAt(d, i, n)
  }

  /** What `is_text(data, threshold)` decides: at least ten bytes, and either
      the printable share reaches the threshold, or a printable run of fifty
      bytes exists and at least half the bytes are printable. */
  predicate LooksLikeText(d: seq<byte>, threshold: real) {
    |d| >= 10 && (Ratio(d) >= threshold || (HasPrintableRun(d, 50) && Ratio(d) >= 0.5))
  }

  // ---------------------------------------------------------------------------
  // is_text

  /** `is_text`: counts the printable bytes, then walks the span once keeping
      the current and the longest printable run. */
  method IsText(data: seq<byte>, threshold: real) returns (r: bool)
    ensures r == LooksLikeText(data, threshold)
    ensures |data| < 10 ==> !r
  {
    if |data| < 10 {
      return false;
    }
    var validos := PrintableCount(data);
    var ratio := validos as real / |data| as real;
    var maxRun, run := 0, 0;
    assert PrintableRunAt(data, 0, 0);
    for i := 0 to |data|
      invariant run <= maxRun <= PrintableCount(data[..i]) <= i
      invariant PrintableRunAt(data, i - run, run)
      invariant run < i ==> !IsPrintableByte(data[i - run - 1])
      invariant exists j :: j + maxRun <= i && PrintableRunAt(data, j, maxRun)
      invariant forall j, n :: PrintableRunAt(data, j, n) && j + n <= i ==> n <= maxRun
    {
      assert data[..i + 1][..i] == data[..i];
      if IsPrintableByte(data[i]) {
        RunExtends(data, i, run);
        run := run + 1;
        if run > maxRun {
          maxRun := run;
        }
      } else {
        RunBroken(data, i);
        run := 0;
      }
    }
    assert data[..|data|] == data;
    LongestRunDecides(data, maxRun);
    r := ratio >= threshold || (maxRun >= 50 && ratio >= 0.5);
  }

  /** A printable run ending at `i + 1` starts no earlier than the current run. */
  lemma RunExtends(data: seq<byte>, i: int, run: nat)
    requires run <= i < |data| && IsPrintableByte(data[i])
    requires PrintableRunAt(data, i - run, run)
    requires run < i ==> !IsPrintableByte(data[i - run - 1])
    ensures PrintableRunAt(data, i - run, run + 1)
    ensures forall j, n :: PrintableRunAt(data, j, n) && j + n == i + 1 ==> n <= run + 1
  {
  }

  /** No printable run of positive length ends right after a non-printable byte. */
  lemma RunBroken(data: seq<byte>, i: int)
    requires 0 <= i < |data| && !IsPrintableByte(data[i])
    ensures forall j, n :: PrintableRunAt(data, j, n) && j + n == i + 1 ==> n == 0
  {
  }

  /** The longest run decides the run criterion. */
  lemma LongestRunDecides(data: seq<byte>, maxRun: nat)
    requires exists j :: j + maxRun <= |data| && PrintableRunAt(data, j, maxRun)
    requires forall j, n :: PrintableRunAt(data, j, n) && j + n <= |data| ==> n <= maxRun
    ensures maxRun >= 50 <==> HasPrintableRun(data, 50)
  {
    if maxRun >= 50 {
      var j :| j + maxRun <= |data| && PrintableRunAt(data, j, maxRun);
      assert PrintableRunAt(data, j, 50);
    }
  }

  // ---------------------------------------------------------------------------
  // Properties of the classifier

  lemma {:induction false} AllPrintableCount(d: seq<byte>)
    requires AllPrintable(d)
    ensures PrintableCount(d) == |d|
  {
    if d != [] {
      var init := d[..|d| - 1];
      forall m | 0 <= m < |init| ensures IsPrintableByte(init[m]) {
        assert init[m] == d[m];
      }
      AllPrintableCount(init);
    }
  }

  /** A span of at least ten printable bytes is text at every threshold up to 1. */
  lemma AllPrintableIsText(d: seq<byte>, threshold: real)
    requires |d| >= 10 && AllPrintable(d) && threshold <= 1.0
    ensures LooksLikeText(d, threshold)
  {
    AllPrintableCount(d);
    assert Ratio(d) == 1.0;
  }

  /** Lowering the threshold never turns text into non-text. */
  lemma ThresholdMonotone(d: seq<byte>, t: real, t': real)
    requires t' <= t && LooksLikeText(d, t)
    ensures LooksLikeText(d, t')
  {
  }

  /** Below both criteria the span is not text, whatever its length. */
  lemma BelowBothCriteria(d: seq<byte>, threshold: real)
    requires |d| > 0 && Ratio(d) < threshold
    requires Ratio(d) < 0.5 || !HasPrintableRun(d, 50)
    ensures !LooksLikeText(d, threshold)
  {
  }

  // ---------------------------------------------------------------------------
  // detect_encoding

  /** Strict decoding, `data.decode(encoding)`: `None` when the codec raises. */
  type Decoder = (string, seq<byte>) -> Option<string>

  /** An encoding is accepted when it decodes the span and the decoded text,
      stripped of surrounding whitespace, has at least `MinTextLen` characters. */
  predicate Accepts(decode: Decoder, encoding: string, data: seq<byte>) {
    decode(encoding, data).Some? && |Strip(decode(encoding, data).value)| >= Config.MinTextLen
  }

  /** The `for codif in CODIFICACIONES` loop: the position of the first
      accepted encoding of `encodings`, or `|encodings|` when none is. */
  function FirstAccepted(decode: Decoder, data: seq<byte>, encodings: seq<string>): (k: nat)
    ensures k <= |encodings|
    ensures k < |encodings| ==> Accepts(decode, encodings[k], data)
    ensures forall j :: 0 <= j < k ==> !Accepts(decode, encodings[j], data)
  {
    if encodings == [] then 0
    else if Accepts(decode, encodings[0], data) then 0
    else
      var k := FirstAccepted(decode, data, encodings[1..]);
      assert forall j :: 1 <= j < |encodings| ==> encodings[1..][j - 1] == encodings[j];
      k + 1
  }

  /** `detect_encoding`: `(encoding, text)` for the first encoding of the list
      that decodes the span to at least `MinTextLen` non-blank characters, the
      text left unstripped; `None` (Python's `(None, None)`) when none does. */
  function DetectEncoding(decode: Decoder, data: seq<byte>): (r: Option<(string, string)>)
    ensures r.Some? ==> |Strip(r.value.1)| >= Config.MinTextLen
    ensures r.Some? ==> exists k :: 0 <= k < |Config.Encodings| && r.value.0 == Config.Encodings[k]
                          && decode(Config.Encodings[k], data) == Some(r.value.1)
                          && forall j :: 0 <= j < k ==> !Accepts(decode, Config.Encodings[j], data)
    ensures r.None? <==> forall k :: 0 <= k < |Config.Encodings| ==> !Accepts(decode, Config.Encodings[k], data)
  {
    var k := FirstAccepted(decode, data, Config.Encodings);
    if k < |Config.Encodings| then Some((Config.Encodings[k], decode(Config.Encodings[k], data).value))
    else None
  }

  /** The encoding list decides ties: when two encodings are accepted, the
      earlier one is returned. */
  lemma DetectEncodingPrefersEarlier(decode: Decoder, data: seq<byte>, i: int, j: int)
    requires 0 <= i < j < |Config.Encodings|
    requires Accepts(decode, Config.Encodings[i], data)
    ensures DetectEncoding(decode, data).Some?
    ensures DetectEncoding(decode, data).value.0 != Config.Encodings[j]
  {
    var k := FirstAccepted(decode, data, Config.Encodings);
    assert k <= i;
    assert Config.Encodings[k] != Config.Encodings[j];
  }
}
