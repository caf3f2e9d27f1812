/** The recovery engine (services/recovery_service.py): the read loop over a
    device, the four carving passes, fingerprint deduplication, fragment
    reconstruction and the naming and save pipeline.

    Everything outside the process is an input: the device is a sequence of
    read steps, the output directory is an `OutputDir` whose writes succeed or
    fail by an oracle, and character decoding, the Unicode character classes,
    the name patterns and the wildcard matcher are the oracles of `Env`. */
module Recovery {
  import opened Strings
  import Config
  import EncodingUtils
  import Detection
  import FileUtils
  import Filter
  import Resource

  /** The oracles the engine runs on: strict decoding (`detect_encoding`),
      decoding with `errors="ignore"` (`_reconstruct_text`), Unicode classes,
      the seven name patterns and the wildcard full-match. */
  datatype Env = Env(
    decode: EncodingUtils.Decoder,
    decodeLoose: (string, seq<byte>) -> string,
    u: FileUtils.UnicodeClasses,
    matcher: FileUtils.NameMatcher,
    fullMatch: Filter.FullMatch)

  // ---------------------------------------------------------------------------
  // Budgets from the memory limit

  /** `max_memory_mb or 4096`: an absent or zero limit counts as 4 GB. */
  function MemoryBasis(maxMemoryMb: Option<int>): int {
    if maxMemoryMb.None? || maxMemoryMb.value == 0 then 4096 else maxMemoryMb.value
  }

  /** `max_unique_texts`: about two million fingerprints per GB, between one
      hundred thousand and fifty million. */
  function MaxUniqueTexts(maxMemoryMb: Option<int>): (n: int)
    ensures 100000 <= n <= 50000000
    ensures var s := Scaled(maxMemoryMb, 2000000.0);
            (s <= 100000 ==> n == 100000) && (100000 <= s <= 50000000 ==> n == s)
            && (s >= 50000000 ==> n == 50000000)
  {
    Resource.Max(100000, Resource.Min(Scaled(maxMemoryMb, 2000000.0), 50000000))
  }

  /** `int((max_memory_mb / 1024) * perGb)`: a quantity per GB of the limit. */
  function Scaled(maxMemoryMb: Option<int>, perGb: real): int {
    Resource.Trunc(MemoryBasis(maxMemoryMb) as real / 1024.0 * perGb)
  }

  /** `cleanup_interval`: about one hundred thousand blocks per GB, between
      fifty thousand and five hundred thousand. */
  function CleanupInterval(maxMemoryMb: Option<int>): (n: int)
    ensures 50000 <= n <= 500000
    ensures var s := Scaled(maxMemoryMb, 100000.0);
            (s <= 50000 ==> n == 50000) && (50000 <= s <= 500000 ==> n == s)
            && (s >= 500000 ==> n == 500000)
  {
    Resource.Max(50000, Resource.Min(500000, Scaled(maxMemoryMb, 100000.0)))
  }

  /** Without a limit the engine keeps up to eight million fingerprints and
      cleans up every four hundred thousand blocks; a zero limit is the same. */
  lemma DefaultBudgets()
    ensures MaxUniqueTexts(None) == 8000000 && CleanupInterval(None) == 400000
    ensures MaxUniqueTexts(Some(0)) == 8000000 && CleanupInterval(Some(0)) == 400000
  {
    assert Scaled(None, 2000000.0) == Scaled(Some(0), 2000000.0) == 8000000;
    assert Scaled(None, 100000.0) == Scaled(Some(0), 100000.0) == 400000;
  }

  /** A larger limit never gives a smaller budget. */
  lemma BudgetsMonotone(a: Option<int>, b: Option<int>)
    requires MemoryBasis(a) <= MemoryBasis(b)
    ensures MaxUniqueTexts(a) <= MaxUniqueTexts(b)
    ensures CleanupInterval(a) <= CleanupInterval(b)
  {
    var x, y := MemoryBasis(a) as real, MemoryBasis(b) as real;
    assert x / 1024.0 * 2000000.0 <= y / 1024.0 * 2000000.0;
    assert x / 1024.0 * 100000.0 <= y / 1024.0 * 100000.0;
    Resource.TruncMonotone(x / 1024.0 * 2000000.0, y / 1024.0 * 2000000.0);
    Resource.TruncMonotone(x / 1024.0 * 100000.0, y / 1024.0 * 100000.0);
  }

  /** `int(max_unique_texts * 0.7)`: how many fingerprints a cleanup keeps. */
  function KeepCount(maxUnique: int): (k: int)
    requires maxUnique >= 0
    ensures 0 <= k <= maxUnique
    ensures 10 * k <= 7 * maxUnique < 10 * k + 10
  {
    Resource.Trunc(maxUnique as real * 0.7)
  }

  // ---------------------------------------------------------------------------
  // Fingerprints and text candidates

  /** `text[:100]`, the key deduplication works on (the source hashes it;
      the model keeps the prefix itself, so distinct prefixes never collide). */
  function Fingerprint(text: string): (f: string)
    ensures |f| <= 100 && StartsWith(text, f)
    ensures |text| <= 100 ==> f == text
    ensures |text| > 100 ==> |f| == 100
  {
    if |text| <= 100 then text else text[..100]
  }

  /** The text a span yields in the block, window and offset passes:
      `is_text` at the pass's threshold, then `detect_encoding`, and a
      non-empty decoded text. */
  function SpanText(env: Env, span: seq<byte>, threshold: real): (t: Option<string>)
    ensures t.Some? ==> EncodingUtils.LooksLikeText(span, threshold)
    ensures t.Some? ==> |Strip(t.value)| >= Config.MinTextLen
  {
    if !EncodingUtils.LooksLikeText(span, threshold) then None
    else
      var d := EncodingUtils.DetectEncoding(env.decode, span);
      if d.Some? && d.value.1 != [] then Some(d.value.1) else None
  }

  /** The sliding-window pass also asks for `MinTextLen` characters after
      stripping. */
  function WindowText(env: Env, window: seq<byte>): Option<string> {
    var t := SpanText(env, window, 0.6);
    if t.Some? && |Strip(t.value)| >= Config.MinTextLen then t else None
  }

  /** That length test is already guaranteed by `detect_encoding`, so the
      window pass accepts exactly what the block pass would at its threshold. */
  lemma WindowLengthTestRedundant(env: Env, window: seq<byte>)
    ensures WindowText(env, window) == SpanText(env, window, 0.6)
  {
  }

  // ---------------------------------------------------------------------------
  // Window and offset geometry

  /** `range(lo, hi, OVERLAP)`. */
  function Range(lo: int, hi: int): (r: seq<int>)
    ensures forall i :: 0 <= i < |r| ==> r[i] == lo + i * Config.Overlap && r[i] < hi
    decreases hi - lo
  {
    if lo >= hi then [] else [lo] + Range(lo + Config.Overlap, hi)
  }

  /** `range` yields one value per started step. */
  lemma {:induction false} RangeLength(lo: int, hi: int)
    ensures |Range(lo, hi)| == if hi <= lo then 0 else (hi - lo + 255) / 256
    decreases hi - lo
  {
    if lo < hi {
      RangeLength(lo + Config.Overlap, hi);
    }
  }

  /** The window starts of a block of `n` bytes:
      `range(0, n - WINDOW_SIZE, OVERLAP)`. */
  function WindowStarts(n: nat): seq<int> {
    Range(0, n - Config.WindowSize)
  }

  /** The `i`-th window starts at `i * OVERLAP`, ends before the block does,
      and there is one window per started `OVERLAP` bytes beyond the first
      `WINDOW_SIZE`. */
  lemma WindowStartsShape(n: nat)
    ensures forall i :: 0 <= i < |WindowStarts(n)| ==> WindowStarts(n)[i] == i * Config.Overlap
    ensures forall i :: 0 <= i < |WindowStarts(n)| ==>
              0 <= WindowStarts(n)[i] && WindowStarts(n)[i] + Config.WindowSize < n
    ensures |WindowStarts(n)| == if n <= Config.WindowSize then 0 else (n - Config.WindowSize + 255) / 256
  {
    RangeLength(0, n - Config.WindowSize);
  }

  /** The `k`-th window text is the text of the `k`-th window's bytes at the
      window threshold. */
  lemma WindowTextAt(env: Env, block: seq<byte>, k: nat)
    requires k < |WindowStarts(|block|)|
    ensures WindowTexts(env, block)[k] == SpanText(env, WindowAt(block, k), 0.6)
  {
    WindowStartsShape(|block|);
    assert WindowTexts(env, block)[k] == WindowText(env, WindowAt(block, k));
    WindowLengthTestRedundant(env, WindowAt(block, k));
  }

  /** The bytes of the `k`-th window of a block. */
  function WindowAt(block: seq<byte>, k: nat): (w: seq<byte>)
    requires k < |WindowStarts(|block|)|
    ensures |w| == Config.WindowSize
  {
    WindowStartsShape(|block|);
    block[WindowStarts(|block|)[k]..WindowStarts(|block|)[k] + Config.WindowSize]
  }

  /** A full 4096-byte block is scanned through fourteen windows, the last
      at 3328; the final window at 3584, which would end at the block's end,
      is never scanned. */
  lemma FullBlockWindows()
    ensures |WindowStarts(4096)| == 14
    ensures WindowStarts(4096)[13] == 3328
    ensures 3584 !in WindowStarts(4096)
  {
    WindowStartsShape(4096);
  }

  /** The offsets of the offset scan. */
  const Offsets: seq<int> := [0, 128, 256, 512, 1024, 2048, 3072]

  /** `block[offset:offset + WINDOW_SIZE]`, cut short at the end of the block. */
  function OffsetSpan(block: seq<byte>, offset: int): (s: seq<byte>)
    requires 0 <= offset < |block|
    ensures 0 < |s| <= Config.WindowSize
    ensures forall i :: 0 <= i < |s| ==> offset + i < |block| && s[i] == block[offset + i]
  {
    if offset + Config.WindowSize <= |block| then block[offset..offset + Config.WindowSize]
    else block[offset..]
  }

  // ---------------------------------------------------------------------------
  // The block ring buffer

  /** `deque.append` on a deque with `maxlen = size`: the block joins at the
      right and the oldest blocks leave once there are more than `size`. */
  function Ring(buffer: seq<seq<byte>>, block: seq<byte>, size: nat): (r: seq<seq<byte>>)
    ensures |r| == if |buffer| + 1 <= size then |buffer| + 1 else size
    ensures r == (buffer + [block])[|buffer| + 1 - |r|..]
  {
    var b := buffer + [block];
    if |b| > size then b[|b| - size..] else b
  }

  /** The last `k` elements of `h`, or all of them when there are fewer. */
  function LastOf(h: seq<seq<byte>>, k: nat): (r: seq<seq<byte>>)
    ensures |r| == if |h| <= k then |h| else k
  {
    h[|h| - (if |h| <= k then |h| else k)..]
  }

  /** After any history of appends, the buffer holds the last `min(n, size)`
      blocks in order. */
  lemma {:induction false} RingKeepsLast(h: seq<seq<byte>>, size: nat)
    ensures RingOf(h, size) == LastOf(h, size)
  {
    if h != [] {
      var init, x := h[..|h| - 1], h[|h| - 1];
      assert init + [x] == h;
      RingKeepsLast(init, size);
      RingStep(init, x, size);
    }
  }

  /** One append to a buffer holding the last blocks of `init` leaves the
      last blocks of `init + [x]`. */
  lemma RingStep(init: seq<seq<byte>>, x: seq<byte>, size: nat)
    ensures Ring(LastOf(init, size), x, size) == LastOf(init + [x], size)
  {
    var h := init + [x];
    var b := LastOf(init, size);
    var m := |b|;
    assert b + [x] == h[|init| - m..];
    var r := Ring(b, x, size);
    assert r == (b + [x])[m + 1 - |r|..];
    assert |r| == |LastOf(h, size)|;
    assert (b + [x])[m + 1 - |r|..] == h[|h| - |r|..];
  }

  /** The buffer after appending the blocks of `h`, one by one, to an empty
      buffer. */
  function RingOf(h: seq<seq<byte>>, size: nat): seq<seq<byte>> {
    if h == [] then [] else Ring(RingOf(h[..|h| - 1], size), h[|h| - 1], size)
  }

  /** `b''.join(buffer)`. */
  function Concat(parts: seq<seq<byte>>): (r: seq<byte>)
  {
    if parts == [] then [] else parts[0] + Concat(parts[1..])
  }

  // ---------------------------------------------------------------------------
  // Fragment reconstruction

  /** A character of `[a-zA-ZáéíóúÁÉÍÓÚñÑ]`. */
  predicate IsWordChar(c: char) {
    IsAsciiLetter(c) || c in FileUtils.Accented
  }

  /** `re.findall('[a-zA-ZáéíóúÁÉÍÓÚñÑ]{3,}', text)`: the maximal runs of word
      characters of length three or more, in order (the greedy pattern takes
      a whole run, and shorter runs are skipped). */
  function Words(s: string): (r: seq<string>)
    ensures forall i :: 0 <= i < |r| ==> IsWord(r[i])
    decreases |s|
  {
    if s == [] then []
    else
      var n := FileUtils.PrefixRun(s, IsWordChar);
      if n == 0 then Words(s[1..])
      else if n >= 3 then [s[..n]] + Words(s[n..])
      else Words(s[n..])
  }

  /** A run of word characters followed by a non-word character is taken as
      one piece. */
  lemma {:induction false} PrefixRunOfWord(w: string, rest: string)
    requires forall j :: 0 <= j < |w| ==> IsWordChar(w[j])
    requires rest == [] || !IsWordChar(rest[0])
    ensures FileUtils.PrefixRun(w + rest, IsWordChar) == |w|
    decreases |w|
  {
    if w != [] {
      assert (w + rest)[0] == w[0];
      assert (w + rest)[1..] == w[1..] + rest;
      PrefixRunOfWord(w[1..], rest);
    }
  }

  /** Extracting the words of their space-separated join gives the same words
      back: the reconstructed text is a fixed point of the word pattern. */
  lemma {:induction false} WordsOfJoin(ws: seq<string>)
    requires forall i :: 0 <= i < |ws| ==> IsWord(ws[i])
    ensures Words(Join(' ', ws)) == ws
  {
    if |ws| == 1 {
      WordThenRest(ws[0], []);
      assert ws[0] + [] == ws[0];
    } else if |ws| > 1 {
      var w, tail := ws[0], ws[1..];
      var rest := Join(' ', tail);
      assert Join(' ', ws) == w + ([' '] + rest);
      WordThenRest(w, [' '] + rest);
      SpaceThenRest(rest);
      assert forall i :: 0 <= i < |tail| ==> IsWord(tail[i]);
      WordsOfJoin(tail);
      assert [w] + tail == ws;
    }
  }

  /** Running the word pattern over a reconstructed text finds the same words
      again. */
  lemma WordsIdempotent(s: string)
    ensures Words(Join(' ', Words(s))) == Words(s)
  {
    var ws := Words(s);
    assert forall i :: 0 <= i < |ws| ==> IsWord(ws[i]);
    WordsOfJoin(ws);
  }

  /** What the word pattern matches: three or more word characters. */
  predicate IsWord(w: string) {
    |w| >= 3 && forall j :: 0 <= j < |w| ==> IsWordChar(w[j])
  }

  /** A word followed by a non-word character is the first word found. */
  lemma WordThenRest(w: string, t: string)
    requires IsWord(w)
    requires t == [] || !IsWordChar(t[0])
    ensures Words(w + t) == [w] + Words(t)
  {
    var s := w + t;
    PrefixRunOfWord(w, t);
    assert s[..|w|] == w;
    assert s[|w|..] == t;
  }

  /** A lone word is found whole: the pattern takes the entire run. */
  lemma WordAlone(w: string)
    requires IsWord(w)
    ensures Words(w) == [w]
  {
    WordThenRest(w, []);
    assert w + [] == w;
  }

  /** A run of one or two word characters is too short to be found. */
  lemma ShortRunNoWords(w: string)
    requires |w| < 3 && forall j :: 0 <= j < |w| ==> IsWordChar(w[j])
    ensures Words(w) == []
  {
    if w != [] {
      PrefixRunOfWord(w, []);
      assert w + [] == w;
      assert w[|w|..] == [];
    }
  }

  /** A non-word character separates: no word is found across it, so the
      words of `a`, the separator and `b` are those of `a` and then those
      of `b`. With `WordAlone` and `ShortRunNoWords` this pins `Words` on
      every string: the maximal runs of three or more word characters, in
      order. */
  lemma WordsSplit(a: string, c: char, b: string)
    requires !IsWordChar(c)
    ensures Words(a + [c] + b) == Words(a) + Words(b)
  {
    var t := [c] + b;
    assert a + [c] + b == a + t && t[1..] == b;
    WordsBeforeSeparator(a, t);
  }

  lemma {:induction false} WordsBeforeSeparator(a: string, t: string)
    requires t != [] && !IsWordChar(t[0])
    ensures Words(a + t) == Words(a) + Words(t[1..])
    decreases |a|
  {
    if a == [] {
      assert a + t == t;
    } else {
      var head, k := WordsStep(a, t);
      WordsBeforeSeparator(a[k..], t);
      AppendAssoc(head, Words(a[k..]), Words(t[1..]));
    }
  }

  lemma AppendAssoc(x: seq<string>, y: seq<string>, z: seq<string>)
    ensures x + (y + z) == (x + y) + z
  {
  }

  /** The first piece the word pattern consumes from `a` is the same whether
      or not `t` follows, when `t` starts with a non-word character. */
  lemma WordsStep(a: string, t: string) returns (head: seq<string>, k: nat)
    requires a != [] && t != [] && !IsWordChar(t[0])
    ensures 0 < k <= |a|
    ensures Words(a) == head + Words(a[k..])
    ensures Words(a + t) == head + Words(a[k..] + t)
  {
    SkipHeadStable(a, t);
    WordsHead(a);
    WordsHead(a + t);
    k, head := Skip(a), Head(a);
  }

  /** One step of the word pattern. */
  lemma WordsHead(s: string)
    requires s != []
    ensures Words(s) == Head(s) + Words(s[Skip(s)..])
  {
  }

  /** The pattern's first step over `a` ignores a following `t` that starts
      with a non-word character. */
  lemma SkipHeadStable(a: string, t: string)
    requires a != [] && t != [] && !IsWordChar(t[0])
    ensures Skip(a + t) == Skip(a) && Head(a + t) == Head(a)
    ensures (a + t)[Skip(a)..] == a[Skip(a)..] + t
  {
    PrefixRunStops(a, t);
    assert (a + t)[..FileUtils.PrefixRun(a, IsWordChar)] == a[..FileUtils.PrefixRun(a, IsWordChar)];
  }

  /** How far the word pattern advances over a non-empty string. */
  function Skip(s: string): (k: nat)
    requires s != []
    ensures 0 < k <= |s|
  {
    var m := FileUtils.PrefixRun(s, IsWordChar);
    if m == 0 then 1 else m
  }

  /** What the word pattern finds in the part `Skip` passes over. */
  function Head(s: string): seq<string>
    requires s != []
  {
    var m := FileUtils.PrefixRun(s, IsWordChar);
    if m >= 3 then [s[..m]] else []
  }

  /** A word run in `a` ends where `a` does when a non-word character
      follows. */
  lemma {:induction false} PrefixRunStops(a: string, t: string)
    requires t != [] && !IsWordChar(t[0])
    ensures FileUtils.PrefixRun(a + t, IsWordChar) == FileUtils.PrefixRun(a, IsWordChar)
    decreases |a|
  {
    if a == [] {
      assert a + t == t;
    } else if IsWordChar(a[0]) {
      assert (a + t)[1..] == a[1..] + t;
      PrefixRunStops(a[1..], t);
    }
  }

  /** A leading space is skipped. */
  lemma SpaceThenRest(t: string)
    ensures Words([' '] + t) == Words(t)
  {
    var s := [' '] + t;
    assert !IsWordChar(s[0]);
    assert FileUtils.PrefixRun(s, IsWordChar) == 0;
    assert s[1..] == t;
  }

  /** What one encoding contributes: the space-joined words, when there are at
      least ten of them and the join has at least `MinTextLen` characters. */
  function Reconstruction(env: Env, data: seq<byte>, encoding: string): (r: Option<string>)
    ensures r.Some? ==> |r.value| >= Config.MinTextLen
    ensures r.Some? ==> |Words(r.value)| >= 10
    ensures r.Some? ==> Words(r.value) == Words(env.decodeLoose(encoding, data))
  {
    var words := Words(env.decodeLoose(encoding, data));
    WordsIdempotent(env.decodeLoose(encoding, data));
    if |words| >= 10 && |Join(' ', words)| >= Config.MinTextLen then Some(Join(' ', words)) else None
  }

  /** The contributions of all encodings, in list order. */
  function Reconstructions(env: Env, data: seq<byte>): (r: seq<Option<string>>)
    ensures |r| == |Config.Encodings|
    ensures forall k :: 0 <= k < |r| ==> r[k] == Reconstruction(env, data, Config.Encodings[k])
  {
    seq(|Config.Encodings|, k requires 0 <= k < |Config.Encodings| => Reconstruction(env, data, Config.Encodings[k]))
  }

  function Len(t: Option<string>): nat {
    if t.Some? then |t.value| else 0
  }

  /** The `best_text` / `best_length` fold: a candidate replaces the best so
      far only when strictly longer. */
  function Longest(cands: seq<Option<string>>): Option<string> {
    if cands == [] then None
    else
      var best := Longest(cands[..|cands| - 1]);
      var c := cands[|cands| - 1];
      if c.Some? && |c.value| > Len(best) then c else best
  }

  /** One step of the fold: the `k`-th candidate replaces the best of the
      earlier ones only when it is strictly longer. */
  lemma LongestStep(cands: seq<Option<string>>, k: nat)
    requires k < |cands|
    ensures Longest(cands[..k + 1]) ==
            if cands[k].Some? && |cands[k].value| > Len(Longest(cands[..k])) then cands[k] else Longest(cands[..k])
  {
    assert cands[..k + 1][..k] == cands[..k];
  }

  /** The fold never returns an empty text. */
  lemma LongestNonEmpty(cands: seq<Option<string>>)
    ensures Longest(cands).Some? ==> Longest(cands).value != []
  {
  }

  /** The fold returns the first longest non-empty candidate: it is one of the
      candidates, none is longer, and every earlier one is strictly shorter;
      it is `None` exactly when every candidate is absent or empty. */
  lemma {:induction false} LongestIsFirstLongest(cands: seq<Option<string>>)
    ensures Longest(cands).None? <==> forall j :: 0 <= j < |cands| ==> Len(cands[j]) == 0
    ensures Longest(cands).Some? ==>
      exists k :: 0 <= k < |cands| && cands[k] == Longest(cands)
        && (forall j :: 0 <= j < |cands| ==> Len(cands[j]) <= Len(cands[k]))
        && (forall j :: 0 <= j < k ==> Len(cands[j]) < Len(cands[k]))
  {
    if cands != [] {
      var init := cands[..|cands| - 1];
      LongestIsFirstLongest(init);
      assert forall j :: 0 <= j < |init| ==> init[j] == cands[j];
    }
  }

  // ---------------------------------------------------------------------------
  // Naming

  /** `detected_type or 'txt'`. */
  function TypeOrTxt(t: Option<string>): (s: string)
    ensures s != []
    ensures t.Some? && t.value != [] ==> s == t.value
    ensures t.None? || t.value == [] ==> s == "txt"
  {
    if t.Some? && t.value != [] then t.value else "txt"
  }

  /** `f"{prefix}recovered_{found_count:05d}.{detected_type or 'txt'}"`. */
  function GenericName(prefix: string, n: nat, detected: Option<string>): (name: string)
    ensures '.' in name
    ensures StartsWith(name, prefix + "recovered_") && EndsWith(name, "." + TypeOrTxt(detected))
    ensures |name| >= |prefix| + 16 + |TypeOrTxt(detected)|
    ensures var digits := name[|prefix| + 10..|name| - |TypeOrTxt(detected)| - 1];
            |digits| >= 5 && (n < 100000 ==> |digits| == 5)
            && (forall i :: 0 <= i < |digits| ==> IsAsciiDigit(digits[i]))
            && ParseNat(digits) == n
  {
    var head, digits, tail := prefix + "recovered_", ZeroPad5(n), "." + TypeOrTxt(detected);
    ZeroPad5RoundTrip(n);
    var name := head + digits + tail;
    assert name[|head| + |digits|] == '.';
    assert name[..|head|] == head;
    assert name[|name| - |tail|..] == tail;
    assert name[|head|..|name| - |tail|] == digits;
    name
  }

  /** The name `_save_file` settles on before filtering: the cleaned original
      name, with `.<type>` added when it has no dot; the generic name when
      there is no original name or it does not survive cleaning. */
  function ChosenName(u: FileUtils.UnicodeClasses, original: Option<string>, detected: Option<string>,
                      prefix: string, n: nat): (name: string)
    ensures '.' in name
    ensures original.Some? && FileUtils.Cleaned(u, original.value).Some? ==>
              StartsWith(name, FileUtils.Cleaned(u, original.value).value)
    ensures (original.None? || FileUtils.Cleaned(u, original.value).None?) ==> name == GenericName(prefix, n, detected)
    ensures original.Some? && FileUtils.Cleaned(u, original.value).Some? ==>
              var c := FileUtils.Cleaned(u, original.value).value;
              name == if '.' in c then c else c + "." + TypeOrTxt(detected)
  {
    var clean := if original.Some? then FileUtils.Cleaned(u, original.value) else None;
    if clean.None? then GenericName(prefix, n, detected)
    else if '.' in clean.value then clean.value
    else
      var dotted := clean.value + "." + TypeOrTxt(detected);
      assert dotted[|clean.value|] == '.' && dotted[..|clean.value|] == clean.value;
      dotted
  }

  /** The `k`-th path tried for `filename`: the name itself, then
      `f"{name_base}_{k}{ext}"` for `k = 1, 2, ...`. */
  function Attempt(filename: string, k: nat): string {
    if k == 0 then filename
    else Filter.SplitExt(filename).0 + "_" + NatToString(k) + Filter.SplitExt(filename).1
  }

  /** Different counters give different paths. */
  lemma AttemptInjective(filename: string, i: nat, k: nat)
    requires Attempt(filename, i) == Attempt(filename, k)
    ensures i == k
  {
    var stem, ext := Filter.SplitExt(filename).0, Filter.SplitExt(filename).1;
    if i != 0 && k != 0 {
      var a, b := NatToString(i), NatToString(k);
      assert |a| == |b|;
      assert (stem + "_" + a + ext)[|stem| + 1..|stem| + 1 + |a|] == a;
      assert (stem + "_" + b + ext)[|stem| + 1..|stem| + 1 + |b|] == b;
      NatToStringInjective(i, k);
    }
  }

  /** The first free path: the first attempt that does not exist yet, all
      earlier ones existing. */
  ghost predicate IsFirstFree(existing: set<string>, filename: string, path: string) {
    exists k: nat :: path == Attempt(filename, k) && path !in existing
      && forall i :: 0 <= i < k ==> Attempt(filename, i) in existing
  }

  /** The first free path is unique. */
  lemma FirstFreeUnique(existing: set<string>, filename: string, p: string, q: string)
    requires IsFirstFree(existing, filename, p) && IsFirstFree(existing, filename, q)
    ensures p == q
  {
    var i: nat :| p == Attempt(filename, i) && p !in existing
      && forall j :: 0 <= j < i ==> Attempt(filename, j) in existing;
    var k: nat :| q == Attempt(filename, k) && q !in existing
      && forall j :: 0 <= j < k ==> Attempt(filename, j) in existing;
    assert !(i < k) && !(k < i);
  }

  /** The attempts made before the `k`-th. */
  function AttemptsBelow(filename: string, k: nat): set<string> {
    set i: nat | i < k :: Attempt(filename, i)
  }

  /** Marking an unseen key as seen leaves fewer unseen keys. */
  lemma FewerUnseen(keys: set<string>, seen: set<string>, p: string)
    requires p in keys && p !in seen
    ensures |keys - (seen + {p})| < |keys - seen|
  {
    assert keys - seen == (keys - (seen + {p})) + {p};
  }

  /** One more taken name: the taken attempts grow by one and fewer existing
      names remain unseen. */
  lemma TakenAttempt(keys: set<string>, filename: string, k: nat)
    requires AttemptsBelow(filename, k) <= keys && Attempt(filename, k) in keys
    ensures AttemptsBelow(filename, k + 1) <= keys
    ensures |keys - AttemptsBelow(filename, k + 1)| < |keys - AttemptsBelow(filename, k)|
  {
    AttemptNotBelow(filename, k);
    FewerUnseen(keys, AttemptsBelow(filename, k), Attempt(filename, k));
  }

  /** The first attempt not taken, after all the earlier ones were, is the
      first free path. */
  lemma FreeAttempt(keys: set<string>, filename: string, k: nat)
    requires AttemptsBelow(filename, k) <= keys && Attempt(filename, k) !in keys
    ensures IsFirstFree(keys, filename, Attempt(filename, k))
  {
    forall i | 0 <= i < k ensures Attempt(filename, i) in keys {
      assert Attempt(filename, i) in AttemptsBelow(filename, k);
    }
  }

  lemma AttemptNotBelow(filename: string, k: nat)
    ensures Attempt(filename, k) !in AttemptsBelow(filename, k)
    ensures AttemptsBelow(filename, k) + {Attempt(filename, k)} == AttemptsBelow(filename, k + 1)
  {
    if Attempt(filename, k) in AttemptsBelow(filename, k) {
      var i: nat :| i < k && Attempt(filename, i) == Attempt(filename, k);
      AttemptInjective(filename, i, k);
    }
  }

  /** Every name has a first free path: the existing names are finitely many. */
  lemma FirstFreeExists(keys: set<string>, filename: string) returns (p: string)
    ensures IsFirstFree(keys, filename, p)
  {
    assert AttemptsBelow(filename, 0) == {};
    p := FirstFreeFrom(keys, filename, 0);
  }

  lemma {:induction false} FirstFreeFrom(keys: set<string>, filename: string, k: nat) returns (p: string)
    requires AttemptsBelow(filename, k) <= keys
    ensures IsFirstFree(keys, filename, p)
    decreases |keys - AttemptsBelow(filename, k)|
  {
    if Attempt(filename, k) in keys {
      TakenAttempt(keys, filename, k);
      p := FirstFreeFrom(keys, filename, k + 1);
    } else {
      FreeAttempt(keys, filename, k);
      p := Attempt(filename, k);
    }
  }

  /** The outcome of the writing step of `_save_file` on the directory
      `before`: when the first free path for `name` can be created the text
      is written there and counted; otherwise the text goes to the first free
      path for `fallback` when that one can be created, and is counted
      exactly then; nothing else changes. */
  ghost predicate Written(before: map<string, string>, after: map<string, string>, writable: string -> bool,
                          name: string, fallback: string, text: string, counted: bool) {
    (forall p :: IsFirstFree(before.Keys, name, p) && writable(p) ==> after == before[p := text] && counted)
    && (forall p, q :: IsFirstFree(before.Keys, name, p) && !writable(p) && IsFirstFree(before.Keys, fallback, q) ==>
          after == (if writable(q) then before[q := text] else before) && (counted <==> writable(q)))
  }

  /** The first free path was writable and the text went there. */
  lemma WrittenFirst(before: map<string, string>, after: map<string, string>, writable: string -> bool,
                     name: string, fallback: string, text: string, p: string)
    requires IsFirstFree(before.Keys, name, p) && writable(p) && after == before[p := text]
    ensures Written(before, after, writable, name, fallback, text, true)
  {
    forall p' | IsFirstFree(before.Keys, name, p') ensures p' == p {
      FirstFreeUnique(before.Keys, name, p, p');
    }
  }

  /** The first free path was not writable and the fallback's first free path
      was tried. */
  lemma WrittenFallback(before: map<string, string>, after: map<string, string>, writable: string -> bool,
                        name: string, fallback: string, text: string, p: string, q: string)
    requires IsFirstFree(before.Keys, name, p) && !writable(p) && IsFirstFree(before.Keys, fallback, q)
    requires after == (if writable(q) then before[q := text] else before)
    ensures Written(before, after, writable, name, fallback, text, writable(q))
  {
    forall p' | IsFirstFree(before.Keys, name, p') ensures p' == p {
      FirstFreeUnique(before.Keys, name, p, p');
    }
    forall q' | IsFirstFree(before.Keys, fallback, q') ensures q' == q {
      FirstFreeUnique(before.Keys, fallback, q, q');
    }
  }

  // ---------------------------------------------------------------------------
  // Records

  /** The `file_info` record appended to `preview_list`. */
  datatype FileInfo = FileInfo(
    filename: string,
    originalName: Option<string>,
    fileType: string,
    size: nat,
    position: int)

  /** The name `_save_file` gives a text found in `data` after `n` counted
      files: the chosen form of the name extracted from the text. */
  function SavedName(env: Env, data: seq<byte>, text: string, prefix: string, n: nat): string {
    ChosenName(env.u, FileUtils.Extracted(env.u, env.matcher, text), Detection.DetectFileType(data), prefix, n)
  }

  /** The record `_save_file` lists for that text. */
  function SavedRecord(env: Env, data: seq<byte>, text: string, position: int, prefix: string, n: nat): FileInfo {
    FileInfo(SavedName(env, data, text, prefix, n), FileUtils.Extracted(env.u, env.matcher, text),
             TypeOrTxt(Detection.DetectFileType(data)), |text|, position)
  }

  /** The effect of `_save_file` on the list: the record of the name it
      settles on is appended when the filter chain admits that name, and the
      list is unchanged otherwise. */
  ghost predicate Listed(before: seq<FileInfo>, after: seq<FileInfo>, env: Env, data: seq<byte>, text: string,
                         position: int, types: seq<string>, filterSystem: bool, prefix: string, n: nat) {
    forall name | name == SavedName(env, data, text, prefix, n) ::
      if Filter.Admitted(name, data, types, filterSystem)
      then after == before + [SavedRecord(env, data, text, position, prefix, n)]
      else after == before
  }

  /** The effect of offering a candidate text `t` to the deduplication while
      the fingerprints `seen` are known: a new text is saved as `Listed`
      says. (For no text or a known one nothing is listed: every pass states
      that its list grows by at most the number of new fingerprints.) */
  ghost predicate Offered(before: seq<FileInfo>, after: seq<FileInfo>, env: Env, data: seq<byte>,
                          t: Option<string>, seen: set<string>, position: int, types: seq<string>,
                          filterSystem: bool, prefix: string, n: nat) {
    forall text {:trigger Listed(before, after, env, data, text, position, types, filterSystem, prefix, n)}
      | t == Some(text) && Fingerprint(text) !in seen ::
      Listed(before, after, env, data, text, position, types, filterSystem, prefix, n)
  }

  /** What every listed record satisfies under the scan's filters: a
      non-empty name, no system file or system directory when system
      filtering is on, and with a type list, a listed extension or, for a
      name without one, a listed type. */
  predicate Admissible(r: FileInfo, types: seq<string>, filterSystem: bool) {
    r.filename != []
    && (filterSystem ==> !Config.IsSystemFile(r.filename) && !Config.IsSystemDirectory(r.filename))
    && (types != [] ==>
          var e := Lower(Filter.Extension(r.filename));
          (e != [] && e in types) || (e == [] && r.fileType in types))
  }

  /** A record built from a name the filter chain admits is admissible. */
  lemma AdmittedRecord(name: string, original: Option<string>, data: seq<byte>, size: nat, position: int,
                       types: seq<string>, search: string, filterSystem: bool)
    requires Filter.Admitted(name, data, types, filterSystem)
    ensures Admissible(FileInfo(name, original, TypeOrTxt(Detection.DetectFileType(data)), size, position),
                       types, filterSystem)
  {
  }

  // ---------------------------------------------------------------------------
  // The device

  /** One read: bytes (empty at the end of the device), or an error, which
      is a `PermissionError` or another `OSError`, with whether the
      follow-up `seek` succeeds. */
  datatype ReadResult = Bytes(data: seq<byte>) | ReadError(permission: bool, seekOk: bool)

  /** One iteration's inputs: the read, whether `cancel()` was called by then,
      and the two resident-size readings of the limit check. */
  datatype Step = Step(read: ReadResult, cancelRequested: bool,
                       rss: Resource.RssProbe, rssAfterCleanup: Resource.RssProbe)

  /** Opening the device: success, `PermissionError`, or another error. */
  datatype OpenResult = Opened | OpenDenied | OpenFailed

  /** Why the read loop ended. */
  datatype Stop = Exhausted | Cancelled | SeekFailed | ReadRaised(permission: bool) | MemoryExceeded

  /** What `recover_files` returns or raises: the count, the `ValueError` about
      the output directory, the re-raised `PermissionError`, or the generic
      `Exception` every other error is wrapped in. */
  datatype ScanOutcome = Found(count: nat) | OutputDirError | PermissionDenied | ScanError

  /** The raw path prefix of a physical drive, `\\.\PhysicalDrive`. */
  const PhysicalDrivePrefix: string := "\\\\.\\PhysicalDrive"

  /** What one iteration of the read loop does, given whether a
      cancellation is already pending: go on, with or without a processed
      block, or halt. An empty read ends the loop; a cancellation seen after
      a read discards that block; a read error skips one block on a physical
      drive and ends the scan elsewhere; a block after which the memory check
      fails twice is the last. */
  datatype Effect = Go(block: Option<seq<byte>>) | Halt(block: Option<seq<byte>>, stop: Stop)

  function StepEffect(step: Step, physical: bool, config: Resource.ResourceConfig, flagged: bool): (e: Effect)
    ensures e.block.Some? ==> step.read == Bytes(e.block.value) && e.block.value != [] && !flagged
                              && !step.cancelRequested
    ensures e.Go? && e.block.None? ==> physical && step.read.ReadError?
  {
    match step.read
      case Bytes(d) =>
        if d == [] then Halt(None, Exhausted)
        else if flagged || step.cancelRequested then Halt(None, Cancelled)
        else if !Resource.ShouldContinue(config, step.rss)
             && !Resource.ShouldContinue(config, step.rssAfterCleanup) then Halt(Some(d), MemoryExceeded)
        else Go(Some(d))
      case ReadError(permission, seekOk) =>
        if !physical then Halt(None, ReadRaised(permission))
        else if !seekOk then Halt(None, SeekFailed)
        else Go(None)
  }

  function Blocks(b: Option<seq<byte>>): seq<seq<byte>> {
    if b.Some? then [b.value] else []
  }

  /** The blocks the read loop processes and why it stops. The flag carries a
      cancellation made during a skipped read. */
  function Schedule(steps: seq<Step>, physical: bool, config: Resource.ResourceConfig, flagged: bool)
    : (r: (seq<seq<byte>>, Stop))
    ensures forall i :: 0 <= i < |r.0| ==> r.0[i] != []
    decreases |steps|
  {
    if steps == [] then ([], Exhausted)
    else
      var e := StepEffect(steps[0], physical, config, flagged);
      if e.Halt? then (Blocks(e.block), e.stop)
      else
        var rest := Schedule(steps[1..], physical, config, flagged || steps[0].cancelRequested);
        (Blocks(e.block) + rest.0, rest.1)
  }

  /** `Schedule` from the `i`-th step on is that step's effect followed, when
      it does not halt, by the schedule from the next step. */
  lemma ScheduleUnfold(steps: seq<Step>, i: int, physical: bool, config: Resource.ResourceConfig, flagged: bool)
    requires 0 <= i < |steps|
    ensures var e := StepEffect(steps[i], physical, config, flagged);
            var r := Schedule(steps[i..], physical, config, flagged);
            var rest := Schedule(steps[i + 1..], physical, config, flagged || steps[i].cancelRequested);
            (e.Halt? ==> r == (Blocks(e.block), e.stop))
            && (e.Go? ==> r == (Blocks(e.block) + rest.0, rest.1))
  {
    assert steps[i..][0] == steps[i] && steps[i..][1..] == steps[i + 1..];
  }

  /** A step that does not halt moves its blocks from the schedule still to
      come to the blocks processed. */
  lemma GoKeepsProgress(processed: seq<seq<byte>>, b: seq<seq<byte>>, r: (seq<seq<byte>>, Stop),
                        rest: (seq<seq<byte>>, Stop), final: (seq<seq<byte>>, Stop))
    requires r == (b + rest.0, rest.1) && processed + r.0 == final.0 && r.1 == final.1
    ensures (processed + b) + rest.0 == final.0 && rest.1 == final.1
  {
    assert processed + (b + rest.0) == (processed + b) + rest.0;
  }

  /** The scan's result for a loop that stopped for `stop`. */
  function Outcome(stop: Stop, found: nat): ScanOutcome {
    match stop
      case Exhausted => Found(found)
      case Cancelled => Found(found)
      case SeekFailed => Found(found)
      case ReadRaised(permission) => if permission then PermissionDenied else ScanError
      case MemoryExceeded => ScanError
  }

  /** Only a physical drive survives read errors: on any other path the first
      failing read ends the scan, with `PermissionDenied` or `ScanError`. */
  lemma ReadErrorEndsOrdinaryScan(steps: seq<Step>, config: Resource.ResourceConfig, flagged: bool, k: int)
    requires 0 <= k < |steps| && steps[k].read.ReadError?
    requires forall j :: 0 <= j < k ==>
               (steps[j].read.Bytes? && steps[j].read.data != [] && !steps[j].cancelRequested
                && Resource.ShouldContinue(config, steps[j].rss))
    requires !flagged
    ensures Schedule(steps, false, config, flagged).0 == seq(k, j requires 0 <= j < k => steps[j].read.data)
    ensures Schedule(steps, false, config, flagged).1 == ReadRaised(steps[k].read.permission)
    decreases k
  {
    if k > 0 {
      ReadErrorEndsOrdinaryScan(steps[1..], config, false, k - 1);
    }
  }

  /** Without limit there is no memory stop: with no cancellation and no read
      error the loop processes every block up to the first empty read. */
  lemma {:induction false} UnlimitedScanReadsAll(steps: seq<Step>, physical: bool, config: Resource.ResourceConfig)
    requires config.maxMemoryMb.None?
    requires forall j :: 0 <= j < |steps| ==>
               (steps[j].read.Bytes? && steps[j].read.data != [] && !steps[j].cancelRequested)
    ensures Schedule(steps, physical, config, false) == (ReadData(steps), Exhausted)
  {
    if steps != [] {
      var tail := steps[1..];
      assert forall j :: 0 <= j < |tail| ==> tail[j] == steps[j + 1];
      UnlimitedScanReadsAll(tail, physical, config);
      assert StepEffect(steps[0], physical, config, false) == Go(Some(steps[0].read.data));
    }
  }

  /** The blocks of a run of successful reads, in order. */
  function ReadData(steps: seq<Step>): seq<seq<byte>>
    requires forall j :: 0 <= j < |steps| ==> steps[j].read.Bytes?
  {
    if steps == [] then [] else [steps[0].read.data] + ReadData(steps[1..])
  }

  // ---------------------------------------------------------------------------
  // What the passes offer

  /** The fingerprints of the texts present among `ts`. */
  function Fingerprints(ts: seq<Option<string>>): set<string> {
    if ts == [] then {}
    else
      var t := ts[|ts| - 1];
      Fingerprints(ts[..|ts| - 1]) + (if t.Some? then {Fingerprint(t.value)} else {})
  }

  lemma FingerprintsOne(t: Option<string>)
    ensures Fingerprints([t]) == if t.Some? then {Fingerprint(t.value)} else {}
  {
    assert [t][..0] == [];
  }

  lemma FingerprintsSnoc(ts: seq<Option<string>>, k: int)
    requires 0 <= k < |ts|
    ensures Fingerprints(ts[..k + 1]) == Fingerprints(ts[..k]) + Fingerprints([ts[k]])
  {
    assert ts[..k + 1][..k] == ts[..k];
    FingerprintsOne(ts[k]);
  }

  lemma {:induction false} FingerprintsConcat(a: seq<Option<string>>, b: seq<Option<string>>)
    ensures Fingerprints(a + b) == Fingerprints(a) + Fingerprints(b)
    decreases |b|
  {
    if b == [] {
      assert a + b == a;
    } else {
      var init := b[..|b| - 1];
      FingerprintsConcat(a, init);
      assert (a + b)[..|a + b| - 1] == a + init;
      assert (a + b)[|a + b| - 1] == b[|b| - 1];
    }
  }

  /** The texts of the sliding windows of a block, in window order. */
  function WindowTexts(env: Env, block: seq<byte>): (r: seq<Option<string>>)
    ensures |r| == |WindowStarts(|block|)|
  {
    var starts := WindowStarts(|block|);
    WindowStartsShape(|block|);
    seq(|starts|, k requires 0 <= k < |starts| => WindowText(env, block[starts[k]..starts[k] + Config.WindowSize]))
  }

  /** The texts of the offset scan, `None` for offsets past the block. */
  function OffsetTexts(env: Env, block: seq<byte>): (r: seq<Option<string>>)
    ensures |r| == |Offsets|
  {
    seq(|Offsets|, i requires 0 <= i < |Offsets| =>
      if Offsets[i] < |block| then SpanText(env, OffsetSpan(block, Offsets[i]), 0.65) else None)
  }

  /** The text the fragment pass reconstructs from the buffer, once it holds
      two blocks or more. */
  function FragmentText(env: Env, buffer: seq<seq<byte>>): Option<string> {
    if |buffer| >= 2 then Longest(Reconstructions(env, Concat(buffer))) else None
  }

  /** Every text the four passes offer for one block, in pass order; the
      offset scan runs on every tenth block. */
  function BlockTexts(env: Env, block: seq<byte>, buffer: seq<seq<byte>>, offsetScan: bool): seq<Option<string>> {
    [SpanText(env, block, 0.7)] + WindowTexts(env, block) + [FragmentText(env, buffer)]
      + (if offsetScan then OffsetTexts(env, block) else [])
  }

  /** `after` is `before` with at most `n` records appended, all admissible
      and at positions in `[lo, hi)`. */
  ghost predicate Appended(before: seq<FileInfo>, after: seq<FileInfo>, n: int,
                           types: seq<string>, filterSystem: bool, lo: int, hi: int) {
    |before| <= |after| <= |before| + n && after[..|before|] == before
    && forall i :: |before| <= i < |after| ==>
         Admissible(after[i], types, filterSystem) && lo <= after[i].position < hi
  }

  /** `after` is `before` with at most `n` records appended. */
  ghost predicate Grows(before: seq<FileInfo>, after: seq<FileInfo>, n: int) {
    |before| <= |after| <= |before| + n && after[..|before|] == before
  }

  lemma GrowsCompose(a: seq<FileInfo>, b: seq<FileInfo>, c: seq<FileInfo>, m: int, n: int)
    requires Grows(a, b, m) && Grows(b, c, n)
    ensures Grows(a, c, m + n)
  {
    assert c[..|b|][..|a|] == c[..|a|];
  }

  /** No existing file is changed or removed; in preview mode nothing at all. */
  ghost predicate FilesKept(before: map<string, string>, after: map<string, string>, preview: bool) {
    (preview ==> after == before)
    && forall k :: k in before ==> k in after && after[k] == before[k]
  }

  lemma FilesKeptCompose(a: map<string, string>, b: map<string, string>, c: map<string, string>, preview: bool)
    requires FilesKept(a, b, preview) && FilesKept(b, c, preview)
    ensures FilesKept(a, c, preview)
  {
  }

  /** The fingerprints a block adds are those of its four passes, the first
      two adding to `s0` and the last two to `s1`. */
  lemma BlockFingerprints(env: Env, block: seq<byte>, buffer: seq<seq<byte>>, offsetScan: bool,
                           s0: set<string>, s1: set<string>, s2: set<string>)
    requires s1 == s0 + (Fingerprints([SpanText(env, block, 0.7)]) + Fingerprints(WindowTexts(env, block)))
    requires s2 == s1 + (Fingerprints([FragmentText(env, buffer)])
                         + (if offsetScan then Fingerprints(OffsetTexts(env, block)) else {}))
    ensures s2 == s0 + Fingerprints(BlockTexts(env, block, buffer, offsetScan))
  {
    var a, w, f := [SpanText(env, block, 0.7)], WindowTexts(env, block), [FragmentText(env, buffer)];
    var o: seq<Option<string>> := if offsetScan then OffsetTexts(env, block) else [];
    FingerprintsConcat(a, w);
    FingerprintsConcat(a + w, f);
    FingerprintsConcat(a + w + f, o);
    assert Fingerprints([]) == {};
  }

  /** Appending a block to the buffer holding the last blocks of a history
      gives the last blocks of the longer history. */
  lemma LastOfSnoc(h: seq<seq<byte>>, d: seq<byte>, size: nat)
    ensures LastOf(h + [d], size) == Ring(LastOf(h, size), d, size)
  {
    RingKeepsLast(h, size);
    RingKeepsLast(h + [d], size);
    assert (h + [d])[..|h + [d]| - 1] == h;
  }

  // ---------------------------------------------------------------------------
  // The output directory

  /** The output directory: its files by name, and whether creating a file
      under a given name would succeed. */
  class OutputDir {
    var files: map<string, string>
    const writable: string -> bool

    constructor (existing: map<string, string>, writable: string -> bool)
      ensures files == existing && this.writable == writable
    {
      files := existing;
      this.writable := writable;
    }

    /** `open(path, "w").write(text)`: the file holds the text when the
        directory lets it be created; nothing changes otherwise. */
    method Write(path: string, text: string) returns (ok: bool)
      modifies this
      ensures ok == writable(path)
      ensures files == if ok then old(files)[path := text] else old(files)
    {
      ok := writable(path);
      if ok {
        files := files[path := text];
      }
    }

    /** The collision loop of `_save_file`: the name itself, then
        `name_1.ext`, `name_2.ext`, ... up to the first that does not exist. */
    method FreePath(filename: string) returns (path: string)
      ensures IsFirstFree(files.Keys, filename, path)
    {
      path := filename;
      var counter: nat := 1;
      ghost var keys := files.Keys;
      ghost var k: nat := 0;
      while path in files
        invariant counter == k + 1 && path == Attempt(filename, k)
        invariant AttemptsBelow(filename, k) <= keys
        decreases |keys - AttemptsBelow(filename, k)|
      {
        TakenAttempt(keys, filename, k);
        path := Attempt(filename, counter);
        counter := counter + 1;
        k := k + 1;
      }
      FreeAttempt(keys, filename, k);
    }
  }

  // ---------------------------------------------------------------------------
  // The service

  /** `RecoveryService`: the resource settings and budgets fixed at
      construction, and the scan state its methods update. The callback and
      the console messages are left out. */
  class RecoveryService {
    const env: Env
    const out: OutputDir
    const config: Resource.ResourceConfig
    const maxUniqueTexts: int
    const cleanupInterval: int
    var uniqueTexts: set<string>
    var blockBuffer: seq<seq<byte>>
    var foundCount: nat
    var blocks: nat
    var cancelled: bool
    var lastCleanupBlocks: nat
    var previewMode: bool
    var previewList: seq<FileInfo>

    /** The budget is not negative, the ring buffer within its depth, every
        counted file listed, and in preview mode every listed file counted. */
    predicate Valid()
      reads this
    {
      100000 <= maxUniqueTexts && 0 <= config.bufferSize && |blockBuffer| <= config.bufferSize
      && foundCount <= |previewList|
      && (previewMode ==> foundCount == |previewList|)
    }

    /** `__init__`: the given settings or the balanced preset, budgets from
        the memory limit, and empty state. */
    constructor (env: Env, out: OutputDir, resourceConfig: Option<Resource.ResourceConfig>,
                 totalMb: real, freeMb: real)
      requires resourceConfig.None? || resourceConfig.value.bufferSize >= 0
      ensures Valid()
      ensures this.env == env && this.out == out
      ensures config == if resourceConfig.Some? then resourceConfig.value else Resource.BalancedMode(totalMb, freeMb)
      ensures maxUniqueTexts == MaxUniqueTexts(config.maxMemoryMb)
      ensures cleanupInterval == CleanupInterval(config.maxMemoryMb)
      ensures uniqueTexts == {} && blockBuffer == [] && foundCount == 0 && blocks == 0
      ensures !cancelled && lastCleanupBlocks == 0 && !previewMode && previewList == []
    {
      this.env := env;
      this.out := out;
      var c := if resourceConfig.Some? then resourceConfig.value else Resource.BalancedMode(totalMb, freeMb);
      config := c;
      maxUniqueTexts := MaxUniqueTexts(c.maxMemoryMb);
      cleanupInterval := CleanupInterval(c.maxMemoryMb);
      uniqueTexts := {};
      blockBuffer := [];
      foundCount := 0;
      blocks := 0;
      cancelled := false;
      lastCleanupBlocks := 0;
      previewMode := false;
      previewList := [];
    }

    /** `cancel`. */
    method Cancel()
      modifies this`cancelled
      ensures cancelled
    {
      cancelled := true;
    }

    /** `get_preview_list`: every file counted so far is listed. */
    function GetPreviewList(): (r: seq<FileInfo>)
      reads this
      requires Valid()
      ensures foundCount <= |r|
    {
      previewList
    }

    /** `_cleanup_memory`: above the budget, the set is cut down to
        `KeepCount` of its own fingerprints (which ones is the set's
        iteration order, left open here); otherwise nothing changes. */
    method CleanupMemory()
      requires Valid()
      modifies this`uniqueTexts
      ensures |old(uniqueTexts)| <= maxUniqueTexts ==> uniqueTexts == old(uniqueTexts)
      ensures |old(uniqueTexts)| > maxUniqueTexts ==>
                uniqueTexts <= old(uniqueTexts) && |uniqueTexts| == KeepCount(maxUniqueTexts)
      ensures |uniqueTexts| <= maxUniqueTexts
    {
      if |uniqueTexts| > maxUniqueTexts {
        var keep := KeepCount(maxUniqueTexts);
        if keep < |uniqueTexts| {
          var kept: set<string> := {};
          var rest := uniqueTexts;
          while |kept| < keep
            invariant kept <= uniqueTexts && rest == uniqueTexts - kept
            invariant |rest| == |uniqueTexts| - |kept| && |kept| <= keep
            decreases keep - |kept|
          {
            var x :| x in rest;
            kept := kept + {x};
            rest := rest - {x};
          }
          uniqueTexts := kept;
        }
      }
    }

    /** `_reconstruct_text`: the longest word reconstruction over the encoding
        list, the first of equal length winning. */
    method ReconstructText(data: seq<byte>) returns (best: Option<string>)
      ensures best == Longest(Reconstructions(env, data))
    {
      best := None;
      var bestLength := 0;
      for k := 0 to |Config.Encodings|
        invariant best == Longest(Reconstructions(env, data)[..k])
        invariant bestLength == Len(best)
      {
        LongestStep(Reconstructions(env, data), k);
        var text := env.decodeLoose(Config.Encodings[k], data);
        var words := Words(text);
        if |words| >= 10 {
          var cleanText := Join(' ', words);
          if |cleanText| >= Config.MinTextLen && |cleanText| > bestLength {
            bestLength := |cleanText|;
            best := Some(cleanText);
          }
        }
      }
      assert Reconstructions(env, data)[..|Config.Encodings|] == Reconstructions(env, data);
    }

    /** The naming step of `_save_file`: the original name the text yields,
        and the name chosen from it. */
    method NameFile(data: seq<byte>, text: string, prefix: string)
      returns (original: Option<string>, filename: string)
      ensures original.Some? ==> FileUtils.IsValidFilename(env.u, original.value)
      ensures original == FileUtils.Extracted(env.u, env.matcher, text)
      ensures filename == ChosenName(env.u, original, Detection.DetectFileType(data), prefix, foundCount)
    {
      original := FileUtils.ExtractFilenameFromContent(env.u, env.matcher, text);
      var detected := Detection.DetectFileType(data);
      if original.Some? && original.value != [] {
        var clean := FileUtils.CleanFilename(env.u, original.value);
        if clean.Some? {
          var c := clean.value;
          if '.' !in c {
            c := c + "." + TypeOrTxt(detected);
          }
          filename := c;
        } else {
          filename := GenericName(prefix, foundCount, detected);
        }
      } else {
        filename := GenericName(prefix, foundCount, detected);
      }
    }

    /** The storing step of `_save_file`: the record is listed; in preview
        mode it is counted, otherwise the text is written under the first free
        name, or failing that under the first free generic `.txt` name, and
        counted when a write succeeds. */
    method Store(info: FileInfo, text: string, prefix: string)
      requires Valid()
      modifies this`previewList, this`foundCount, out
      ensures Valid()
      ensures previewList == old(previewList) + [info]
      ensures FilesKept(old(out.files), out.files, previewMode)
      ensures previewMode ==> foundCount == old(foundCount) + 1
      ensures !previewMode ==> (foundCount == old(foundCount) + 1 <==> out.files != old(out.files))
      ensures !previewMode ==> foundCount == old(foundCount) || foundCount == old(foundCount) + 1
      ensures !previewMode ==> Written(old(out.files), out.files, out.writable, info.filename,
                                       GenericName(prefix, old(foundCount), None), text,
                                       foundCount == old(foundCount) + 1)
    {
      previewList := previewList + [info];
      if previewMode {
        foundCount := foundCount + 1;
        return;
      }
      var path := out.FreePath(info.filename);
      var ok := out.Write(path, text);
      if ok {
        foundCount := foundCount + 1;
        WrittenFirst(old(out.files), out.files, out.writable, info.filename,
                     GenericName(prefix, old(foundCount), None), text, path);
        return;
      }
      var fallback := GenericName(prefix, foundCount, None);
      var second := out.FreePath(fallback);
      ok := out.Write(second, text);
      if ok {
        foundCount := foundCount + 1;
      }
      WrittenFallback(old(out.files), out.files, out.writable, info.filename, fallback, text, path, second);
    }

    /** `_save_file`: names the file, runs the filter chain and the strict
        type check, then stores the record. The records listed are those of
        `SaveEffect`; the strict check never rejects one more. */
    method SaveFile(data: seq<byte>, text: string, position: int, types: seq<string>, search: string,
                    filterSystem: bool, prefix: string)
      returns (original: Option<string>, filename: string)
      requires Valid()
      modifies this`previewList, this`foundCount, out
      ensures Valid()
      ensures original.Some? ==> FileUtils.IsValidFilename(env.u, original.value)
      ensures original == FileUtils.Extracted(env.u, env.matcher, text)
      ensures filename == SavedName(env, data, text, prefix, old(foundCount))
      ensures Listed(old(previewList), previewList, env, data, text, position, types, filterSystem, prefix,
                     old(foundCount))
      ensures !Filter.Admitted(filename, data, types, filterSystem) ==>
                foundCount == old(foundCount) && out.files == old(out.files)
      ensures Appended(old(previewList), previewList, 1, types, filterSystem, position, position + 1)
      ensures FilesKept(old(out.files), out.files, previewMode)
      ensures !previewMode ==> (foundCount == old(foundCount) + 1 <==> out.files != old(out.files))
      ensures !previewMode ==> foundCount == old(foundCount) || foundCount == old(foundCount) + 1
      ensures Filter.Admitted(filename, data, types, filterSystem) && !previewMode ==>
                Written(old(out.files), out.files, out.writable, filename, GenericName(prefix, old(foundCount), None),
                        text, foundCount == old(foundCount) + 1)
    {
      original, filename := NameFile(data, text, prefix);
      FilterAndStore(filename, original, data, text, position, types, search, filterSystem, prefix);
    }

    /** The second half of `_save_file`: the filter chain and the strict type
        check decide, and an admitted name is stored with its record. */
    method FilterAndStore(filename: string, original: Option<string>, data: seq<byte>, text: string, position: int,
                          types: seq<string>, search: string, filterSystem: bool, prefix: string)
      requires Valid()
      modifies this`previewList, this`foundCount, out
      ensures Valid()
      ensures Filter.Admitted(filename, data, types, filterSystem) ==>
                previewList == old(previewList)
                  + [FileInfo(filename, original, TypeOrTxt(Detection.DetectFileType(data)), |text|, position)]
      ensures !Filter.Admitted(filename, data, types, filterSystem) ==>
                previewList == old(previewList) && foundCount == old(foundCount) && out.files == old(out.files)
      ensures Appended(old(previewList), previewList, 1, types, filterSystem, position, position + 1)
      ensures FilesKept(old(out.files), out.files, previewMode)
      ensures !previewMode ==> (foundCount == old(foundCount) + 1 <==> out.files != old(out.files))
      ensures !previewMode ==> foundCount == old(foundCount) || foundCount == old(foundCount) + 1
      ensures Filter.Admitted(filename, data, types, filterSystem) && !previewMode ==>
                Written(old(out.files), out.files, out.writable, filename, GenericName(prefix, old(foundCount), None),
                        text, foundCount == old(foundCount) + 1)
    {
      var detected := Detection.DetectFileType(data);
      var verdict := Filter.ApplyFilters(env.fullMatch, filename, data, types, search, filterSystem);
      if !verdict.0 {
        return;
      }
      var strictOk := StrictTypeCheck(filename, data, detected, verdict.1, types);
      if !strictOk {
        return;
      }
      if !(detected.Some? && detected.value != []) && verdict.1.Some? && verdict.1.value != [] {
        detected := verdict.1;
      }
      assert TypeOrTxt(detected) == TypeOrTxt(Detection.DetectFileType(data));
      var info := FileInfo(filename, original, TypeOrTxt(detected), |text|, position);
      assert Filter.Admitted(filename, data, types, filterSystem);
      AdmittedRecord(filename, original, data, |text|, position, types, search, filterSystem);
      Store(info, text, prefix);
    }

    /** The strict double check of `_save_file`: with a type list, the
        extension of the name, else the detected type, else the filter's
        type, must exist and be listed. It accepts exactly what the type-list
        test of the filter chain accepts, so it never rejects a file that
        passed the filters. */
    method StrictTypeCheck(filename: string, data: seq<byte>, detected: Option<string>,
                           filterType: Option<string>, types: seq<string>) returns (ok: bool)
      requires detected == Detection.DetectFileType(data) && filterType == Filter.Detected(data)
      ensures ok <==> types == [] || (Filter.FinalType(filename, data).Some?
                                      && Filter.FinalType(filename, data).value != []
                                      && Filter.FinalType(filename, data).value in types)
    {
      if types == [] {
        return true;
      }
      var extFromName := Lower(Filter.Extension(filename));
      var finalType: Option<string> := None;
      if extFromName != [] {
        finalType := Some(extFromName);
      } else if detected.Some? && detected.value != [] {
        finalType := detected;
      } else if filterType.Some? && filterType.value != [] {
        finalType := filterType;
      }
      ok := finalType.Some? && finalType.value != [] && finalType.value in types;
    }

    /** The deduplication every pass applies: a text whose fingerprint is new
        is recorded and saved; any other text is dropped. */
    method Offer(data: seq<byte>, text: string, position: int, types: seq<string>, search: string,
                 filterSystem: bool, prefix: string)
      requires Valid()
      modifies this`uniqueTexts, this`previewList, this`foundCount, out
      ensures Valid()
      ensures uniqueTexts == old(uniqueTexts) + {Fingerprint(text)}
      ensures Fingerprint(text) in old(uniqueTexts) ==>
                previewList == old(previewList) && foundCount == old(foundCount) && out.files == old(out.files)
      ensures Offered(old(previewList), previewList, env, data, Some(text), old(uniqueTexts), position, types,
                      filterSystem, prefix, old(foundCount))
      ensures Appended(old(previewList), previewList, |uniqueTexts| - |old(uniqueTexts)|, types, filterSystem,
                       position, position + 1)
      ensures FilesKept(old(out.files), out.files, previewMode)
    {
      var fingerprint := Fingerprint(text);
      if fingerprint !in uniqueTexts {
        uniqueTexts := uniqueTexts + {fingerprint};
        var _, _ := SaveFile(data, text, position, types, search, filterSystem, prefix);
      }
    }

    /** The offer of a candidate text, when there is one. */
    method OfferCandidate(data: seq<byte>, t: Option<string>, position: int, types: seq<string>, search: string,
                          filterSystem: bool, prefix: string)
      requires Valid()
      modifies this`uniqueTexts, this`previewList, this`foundCount, out
      ensures Valid()
      ensures uniqueTexts == old(uniqueTexts) + Fingerprints([t])
      ensures Offered(old(previewList), previewList, env, data, t, old(uniqueTexts), position, types, filterSystem,
                      prefix, old(foundCount))
      ensures Grows(old(previewList), previewList, |uniqueTexts| - |old(uniqueTexts)|)
      ensures FilesKept(old(out.files), out.files, previewMode)
    {
      if t.Some? {
        Offer(data, t.value, position, types, search, filterSystem, prefix);
      }
      FingerprintsOne(t);
    }

    /** One span of the block, window and offset passes: `is_text` at the
        threshold, `detect_encoding`, and the offer of a non-empty text; the
        window pass also asks for `MinTextLen` characters after stripping. */
    method ScanSpan(span: seq<byte>, threshold: real, checkLength: bool, position: int, types: seq<string>,
                    search: string, filterSystem: bool, prefix: string)
      requires Valid()
      modifies this`uniqueTexts, this`previewList, this`foundCount, out
      ensures Valid()
      ensures uniqueTexts == old(uniqueTexts) + Fingerprints([SpanText(env, span, threshold)])
      ensures Offered(old(previewList), previewList, env, span, SpanText(env, span, threshold), old(uniqueTexts),
                      position, types, filterSystem, prefix, old(foundCount))
      ensures Appended(old(previewList), previewList, |uniqueTexts| - |old(uniqueTexts)|, types, filterSystem,
                       position, position + 1)
      ensures FilesKept(old(out.files), out.files, previewMode)
    {
      FingerprintsOne(SpanText(env, span, threshold));
      var isText := EncodingUtils.IsText(span, threshold);
      if isText {
        var d := EncodingUtils.DetectEncoding(env.decode, span);
        if d.Some? && d.value.1 != [] && (!checkLength || |Strip(d.value.1)| >= Config.MinTextLen) {
          Offer(span, d.value.1, position, types, search, filterSystem, prefix);
        }
      }
    }

    /** `_process_block`: the whole block, at threshold 0.7. */
    method ProcessBlock(block: seq<byte>, position: int, types: seq<string>, search: string, filterSystem: bool)
      requires Valid()
      modifies this`uniqueTexts, this`previewList, this`foundCount, out
      ensures Valid()
      ensures uniqueTexts == old(uniqueTexts) + Fingerprints([SpanText(env, block, 0.7)])
      ensures Offered(old(previewList), previewList, env, block, SpanText(env, block, 0.7), old(uniqueTexts),
                      position, types, filterSystem, "", old(foundCount))
      ensures Grows(old(previewList), previewList, |uniqueTexts| - |old(uniqueTexts)|)
      ensures FilesKept(old(out.files), out.files, previewMode)
    {
      ScanSpan(block, 0.7, false, position, types, search, filterSystem, "");
    }

    /** One window of the sliding-window pass, at threshold 0.6 and saved at
        its own position; the pass's length test after stripping never rejects
        a text (`WindowLengthTestRedundant`), so the window yields its
        `SpanText`. */
    method ScanWindow(window: seq<byte>, position: int, types: seq<string>, search: string, filterSystem: bool)
      requires Valid()
      modifies this`uniqueTexts, this`previewList, this`foundCount, out
      ensures Valid()
      ensures uniqueTexts == old(uniqueTexts) + Fingerprints([SpanText(env, window, 0.6)])
      ensures Offered(old(previewList), previewList, env, window, SpanText(env, window, 0.6), old(uniqueTexts),
                      position, types, filterSystem, "", old(foundCount))
      ensures Grows(old(previewList), previewList, |uniqueTexts| - |old(uniqueTexts)|)
      ensures FilesKept(old(out.files), out.files, previewMode)
    {
      ScanSpan(window, 0.6, true, position, types, search, filterSystem, "");
    }

    /** The `k`-th window of the sliding-window pass, saved at its start. */
    method ScanWindowAt(block: seq<byte>, position: int, k: int, types: seq<string>, search: string,
                        filterSystem: bool)
      requires Valid() && 0 <= k < |WindowStarts(|block|)|
      modifies this`uniqueTexts, this`previewList, this`foundCount, out
      ensures Valid()
      ensures uniqueTexts == old(uniqueTexts) + Fingerprints([WindowTexts(env, block)[k]])
      ensures Grows(old(previewList), previewList, |uniqueTexts| - |old(uniqueTexts)|)
      ensures FilesKept(old(out.files), out.files, previewMode)
    {
      ScanWindow(WindowAt(block, k), position + WindowStarts(|block|)[k], types, search, filterSystem);
      WindowTextAt(env, block, k);
    }

    /** One iteration of the sliding-window pass: the `k`-th window extends
        what the first `k` windows did. */
    method WindowStep(block: seq<byte>, position: int, k: int, types: seq<string>, search: string,
                      filterSystem: bool, ghost list: seq<FileInfo>, ghost seen: set<string>,
                      ghost files: map<string, string>)
      requires Valid() && 0 <= k < |WindowStarts(|block|)|
      requires uniqueTexts == seen + Fingerprints(WindowTexts(env, block)[..k])
      requires Grows(list, previewList, |uniqueTexts| - |seen|)
      requires FilesKept(files, out.files, previewMode)
      modifies this`uniqueTexts, this`previewList, this`foundCount, out
      ensures Valid()
      ensures uniqueTexts == seen + Fingerprints(WindowTexts(env, block)[..k + 1])
      ensures Grows(list, previewList, |uniqueTexts| - |seen|)
      ensures FilesKept(files, out.files, previewMode)
    {
      ghost var list0, set0, files0 := previewList, uniqueTexts, out.files;
      ScanWindowAt(block, position, k, types, search, filterSystem);
      FingerprintsSnoc(WindowTexts(env, block), k);
      GrowsCompose(list, list0, previewList, |set0| - |seen|, |uniqueTexts| - |set0|);
      FilesKeptCompose(files, files0, out.files, previewMode);
    }

    /** `_process_sliding_window`: each full window, at threshold 0.6, saved
        at its own position. */
    method ProcessSlidingWindow(block: seq<byte>, position: int, types: seq<string>, search: string,
                                filterSystem: bool)
      requires Valid()
      modifies this`uniqueTexts, this`previewList, this`foundCount, out
      ensures Valid()
      ensures uniqueTexts == old(uniqueTexts) + Fingerprints(WindowTexts(env, block))
      ensures Grows(old(previewList), previewList, |uniqueTexts| - |old(uniqueTexts)|)
      ensures FilesKept(old(out.files), out.files, previewMode)
    {
      var starts := WindowStarts(|block|);
      ghost var texts := WindowTexts(env, block);
      ghost var list, seen, files := previewList, uniqueTexts, out.files;
      assert texts[..0] == [];
      for k := 0 to |starts|
        invariant Valid()
        invariant uniqueTexts == seen + Fingerprints(texts[..k])
        invariant Grows(list, previewList, |uniqueTexts| - |seen|)
        invariant FilesKept(files, out.files, previewMode)
      {
        WindowStep(block, position, k, types, search, filterSystem, list, seen, files);
      }
      assert texts[..|starts|] == texts;
    }

    /** `_process_fragmented`: the block joins the ring buffer; from two
        blocks on, the best reconstruction of their concatenation is saved
        one block before the current position. */
    method ProcessFragmented(block: seq<byte>, position: int, types: seq<string>, search: string,
                             filterSystem: bool)
      requires Valid()
      modifies this`blockBuffer, this`uniqueTexts, this`previewList, this`foundCount, out
      ensures Valid()
      ensures blockBuffer == Ring(old(blockBuffer), block, config.bufferSize)
      ensures uniqueTexts == old(uniqueTexts) + Fingerprints([FragmentText(env, blockBuffer)])
      ensures Offered(old(previewList), previewList, env, Concat(blockBuffer), FragmentText(env, blockBuffer),
                      old(uniqueTexts), position - Config.BlockSize, types, filterSystem, "frag_", old(foundCount))
      ensures Grows(old(previewList), previewList, |uniqueTexts| - |old(uniqueTexts)|)
      ensures FilesKept(old(out.files), out.files, previewMode)
    {
      blockBuffer := Ring(blockBuffer, block, config.bufferSize);
      OfferFragment(position, types, search, filterSystem);
    }

    /** The reconstruction from the buffered blocks, when there are two or
        more, offered with the position of the block before. */
    method OfferFragment(position: int, types: seq<string>, search: string, filterSystem: bool)
      requires Valid()
      modifies this`uniqueTexts, this`previewList, this`foundCount, out
      ensures Valid()
      ensures uniqueTexts == old(uniqueTexts) + Fingerprints([FragmentText(env, blockBuffer)])
      ensures Offered(old(previewList), previewList, env, Concat(blockBuffer), FragmentText(env, blockBuffer),
                      old(uniqueTexts), position - Config.BlockSize, types, filterSystem, "frag_", old(foundCount))
      ensures Grows(old(previewList), previewList, |uniqueTexts| - |old(uniqueTexts)|)
      ensures FilesKept(old(out.files), out.files, previewMode)
    {
      var reconstructed := None;
      if |blockBuffer| >= 2 {
        reconstructed := ReconstructText(Concat(blockBuffer));
      }
      OfferCandidate(Concat(blockBuffer), reconstructed, position - Config.BlockSize, types, search, filterSystem,
                     "frag_");
    }

    /** The window at an offset inside the block, at threshold 0.65, without
        the length test after stripping, and saved at its own position. */
    method ScanOffset(span: seq<byte>, position: int, types: seq<string>, search: string, filterSystem: bool)
      requires Valid()
      modifies this`uniqueTexts, this`previewList, this`foundCount, out
      ensures Valid()
      ensures uniqueTexts == old(uniqueTexts) + Fingerprints([SpanText(env, span, 0.65)])
      ensures Offered(old(previewList), previewList, env, span, SpanText(env, span, 0.65), old(uniqueTexts),
                      position, types, filterSystem, "offset_", old(foundCount))
      ensures Grows(old(previewList), previewList, |uniqueTexts| - |old(uniqueTexts)|)
      ensures FilesKept(old(out.files), out.files, previewMode)
    {
      ScanSpan(span, 0.65, false, position, types, search, filterSystem, "offset_");
    }

    /** The `k`-th offset of the offset scan: its window when the offset lies
        inside the block, nothing otherwise. */
    method ScanOffsetAt(block: seq<byte>, position: int, k: int, types: seq<string>, search: string,
                        filterSystem: bool)
      requires Valid() && 0 <= k < |Offsets|
      modifies this`uniqueTexts, this`previewList, this`foundCount, out
      ensures Valid()
      ensures uniqueTexts == old(uniqueTexts) + Fingerprints([OffsetTexts(env, block)[k]])
      ensures Offsets[k] >= |block| ==> previewList == old(previewList) && foundCount == old(foundCount)
      ensures Grows(old(previewList), previewList, |uniqueTexts| - |old(uniqueTexts)|)
      ensures FilesKept(old(out.files), out.files, previewMode)
    {
      if Offsets[k] < |block| {
        ScanOffset(OffsetSpan(block, Offsets[k]), position + Offsets[k], types, search, filterSystem);
      } else {
        FingerprintsOne(None);
      }
    }

    /** One iteration of the offset scan: the `k`-th offset extends what the
        first `k` did. */
    method OffsetStep(block: seq<byte>, position: int, k: int, types: seq<string>, search: string,
                      filterSystem: bool, ghost list: seq<FileInfo>, ghost seen: set<string>,
                      ghost files: map<string, string>)
      requires Valid() && 0 <= k < |Offsets|
      requires uniqueTexts == seen + Fingerprints(OffsetTexts(env, block)[..k])
      requires Grows(list, previewList, |uniqueTexts| - |seen|)
      requires FilesKept(files, out.files, previewMode)
      modifies this`uniqueTexts, this`previewList, this`foundCount, out
      ensures Valid()
      ensures uniqueTexts == seen + Fingerprints(OffsetTexts(env, block)[..k + 1])
      ensures Grows(list, previewList, |uniqueTexts| - |seen|)
      ensures FilesKept(files, out.files, previewMode)
    {
      ghost var list0, set0, files0 := previewList, uniqueTexts, out.files;
      ScanOffsetAt(block, position, k, types, search, filterSystem);
      FingerprintsSnoc(OffsetTexts(env, block), k);
      GrowsCompose(list, list0, previewList, |set0| - |seen|, |uniqueTexts| - |set0|);
      FilesKeptCompose(files, files0, out.files, previewMode);
    }

    /** `_process_offset_scan`: a window at each offset inside the block, at
        threshold 0.65, saved at its own position. */
    method ProcessOffsetScan(block: seq<byte>, position: int, types: seq<string>, search: string,
                             filterSystem: bool)
      requires Valid()
      modifies this`uniqueTexts, this`previewList, this`foundCount, out
      ensures Valid()
      ensures uniqueTexts == old(uniqueTexts) + Fingerprints(OffsetTexts(env, block))
      ensures Grows(old(previewList), previewList, |uniqueTexts| - |old(uniqueTexts)|)
      ensures FilesKept(old(out.files), out.files, previewMode)
    {
      ghost var texts := OffsetTexts(env, block);
      ghost var list, seen, files := previewList, uniqueTexts, out.files;
      assert texts[..0] == [];
      for k := 0 to |Offsets|
        invariant Valid()
        invariant uniqueTexts == seen + Fingerprints(texts[..k])
        invariant Grows(list, previewList, |uniqueTexts| - |seen|)
        invariant FilesKept(files, out.files, previewMode)
      {
        OffsetStep(block, position, k, types, search, filterSystem, list, seen, files);
      }
      assert texts[..|Offsets|] == texts;
    }

    /** The first two passes over a block: the whole block, then its
        sliding windows. */
    method ScanWhole(block: seq<byte>, position: int, types: seq<string>, search: string, filterSystem: bool)
      requires Valid()
      modifies this`uniqueTexts, this`previewList, this`foundCount, out
      ensures Valid()
      ensures uniqueTexts == old(uniqueTexts) + (Fingerprints([SpanText(env, block, 0.7)]) + Fingerprints(WindowTexts(env, block)))
      ensures Grows(old(previewList), previewList, |uniqueTexts| - |old(uniqueTexts)|)
      ensures FilesKept(old(out.files), out.files, previewMode)
    {
      ghost var l0, s0, f0 := previewList, uniqueTexts, out.files;
      ProcessBlock(block, position, types, search, filterSystem);
      ghost var l1, s1, f1 := previewList, uniqueTexts, out.files;
      ProcessSlidingWindow(block, position, types, search, filterSystem);
      GrowsCompose(l0, l1, previewList, |s1| - |s0|, |uniqueTexts| - |s1|);
      FilesKeptCompose(f0, f1, out.files, previewMode);
    }

    /** The last two passes over a block: the ring buffer, then, on every
        tenth block, the offset scan. */
    method ScanBuffered(block: seq<byte>, position: int, offsetScan: bool, types: seq<string>, search: string,
                        filterSystem: bool)
      requires Valid()
      modifies this`blockBuffer, this`uniqueTexts, this`previewList, this`foundCount, out
      ensures Valid()
      ensures blockBuffer == Ring(old(blockBuffer), block, config.bufferSize)
      ensures uniqueTexts == old(uniqueTexts) + (Fingerprints([FragmentText(env, blockBuffer)])
                                                + (if offsetScan then Fingerprints(OffsetTexts(env, block)) else {}))
      ensures Grows(old(previewList), previewList, |uniqueTexts| - |old(uniqueTexts)|)
      ensures FilesKept(old(out.files), out.files, previewMode)
    {
      ghost var l0, s0, f0 := previewList, uniqueTexts, out.files;
      ProcessFragmented(block, position, types, search, filterSystem);
      if offsetScan {
        ghost var l1, s1, f1 := previewList, uniqueTexts, out.files;
        ProcessOffsetScan(block, position, types, search, filterSystem);
        GrowsCompose(l0, l1, previewList, |s1| - |s0|, |uniqueTexts| - |s1|);
        FilesKeptCompose(f0, f1, out.files, previewMode);
      }
    }

    /** The body of the read loop for a block that was read and not
        cancelled: the four passes at `blocks * BLOCK_SIZE`, the offset scan
        on every tenth block only, then the block count. */
    method ScanBlock(block: seq<byte>, types: seq<string>, search: string, filterSystem: bool)
      requires Valid()
      modifies this`blocks, this`blockBuffer, this`uniqueTexts, this`previewList, this`foundCount, out
      ensures Valid()
      ensures blocks == old(blocks) + 1
      ensures blockBuffer == Ring(old(blockBuffer), block, config.bufferSize)
      ensures uniqueTexts == old(uniqueTexts) + Fingerprints(BlockTexts(env, block, blockBuffer, old(blocks) % 10 == 0))
      ensures Grows(old(previewList), previewList, |uniqueTexts| - |old(uniqueTexts)|)
      ensures FilesKept(old(out.files), out.files, previewMode)
    {
      var position := blocks * Config.BlockSize;
      ghost var l0, s0, f0 := previewList, uniqueTexts, out.files;
      ScanWhole(block, position, types, search, filterSystem);
      ghost var l1, s1, f1 := previewList, uniqueTexts, out.files;
      ScanBuffered(block, position, blocks % 10 == 0, types, search, filterSystem);
      GrowsCompose(l0, l1, previewList, |s1| - |s0|, |uniqueTexts| - |s1|);
      FilesKeptCompose(f0, f1, out.files, previewMode);
      BlockFingerprints(env, block, blockBuffer, blocks % 10 == 0, s0, s1, uniqueTexts);
      blocks := blocks + 1;
    }

    /** The end of the read loop: the periodic cleanup once `cleanupInterval`
        blocks have passed since the last one, then the memory check, which
        cleans up and checks again before giving up. `exceeded` is the
        `MemoryError`. */
    method CheckBudgets(rss: Resource.RssProbe, rssAfterCleanup: Resource.RssProbe) returns (exceeded: bool)
      requires Valid()
      modifies this`uniqueTexts, this`lastCleanupBlocks
      ensures Valid()
      ensures exceeded <==> !Resource.ShouldContinue(config, rss) && !Resource.ShouldContinue(config, rssAfterCleanup)
      ensures uniqueTexts <= old(uniqueTexts)
      ensures blocks - old(lastCleanupBlocks) >= cleanupInterval ==>
                lastCleanupBlocks == blocks && |uniqueTexts| <= maxUniqueTexts
      ensures blocks - old(lastCleanupBlocks) < cleanupInterval ==> lastCleanupBlocks == old(lastCleanupBlocks)
    {
      if blocks - lastCleanupBlocks >= cleanupInterval {
        CleanupMemory();
        lastCleanupBlocks := blocks;
      }
      exceeded := false;
      if !Resource.ShouldContinue(config, rss) {
        CleanupMemory();
        exceeded := !Resource.ShouldContinue(config, rssAfterCleanup);
      }
    }

    /** One iteration of the read loop: a pending cancellation is noted,
        then a read error is skipped or ends the scan, and a block is scanned
        unless it is empty or the scan was cancelled. `halt` is what ends the
        loop: the value returned or the error raised. */
    method Iterate(step: Step, physical: bool, types: seq<string>, search: string, filterSystem: bool)
      returns (halt: Option<ScanOutcome>)
      requires Valid()
      modifies this`cancelled, this`blocks, this`blockBuffer, this`uniqueTexts, this`previewList,
               this`foundCount, this`lastCleanupBlocks, out
      ensures Valid()
      ensures cancelled == (old(cancelled) || step.cancelRequested)
      ensures var e := StepEffect(step, physical, config, old(cancelled));
              (halt.Some? <==> e.Halt?)
              && (e.Halt? ==> halt.value == Outcome(e.stop, foundCount))
              && (e.block.Some? ==> blocks == old(blocks) + 1
                                    && blockBuffer == Ring(old(blockBuffer), e.block.value, config.bufferSize))
              && (e.block.None? ==> blocks == old(blocks) && blockBuffer == old(blockBuffer))
      ensures FilesKept(old(out.files), out.files, previewMode)
    {
      ghost var e := StepEffect(step, physical, config, cancelled);
      if step.cancelRequested {
        Cancel();
      }
      match step.read
      case ReadError(permission, seekOk) =>
        if !physical {
          assert e == Halt(None, ReadRaised(permission));
          return Some(if permission then PermissionDenied else ScanError);
        }
        if !seekOk {
          assert e == Halt(None, SeekFailed);
          return Some(Found(foundCount));
        }
        assert e == Go(None);
        return None;
      case Bytes(block) =>
        if block == [] || cancelled {
          assert e == Halt(None, if block == [] then Exhausted else Cancelled);
          return Some(Found(foundCount));
        }
        var exceeded := ScanAndCheck(block, step.rss, step.rssAfterCleanup, types, search, filterSystem);
        if exceeded {
          assert e == Halt(Some(block), MemoryExceeded);
          return Some(ScanError);
        }
        assert e == Go(Some(block));
        return None;
    }

    /** A block read and not cancelled: its passes, then the budget checks. */
    method ScanAndCheck(block: seq<byte>, rss: Resource.RssProbe, rssAfterCleanup: Resource.RssProbe,
                        types: seq<string>, search: string, filterSystem: bool) returns (exceeded: bool)
      requires Valid()
      modifies this`blocks, this`blockBuffer, this`uniqueTexts, this`previewList, this`foundCount,
               this`lastCleanupBlocks, out
      ensures Valid()
      ensures exceeded <==> !Resource.ShouldContinue(config, rss) && !Resource.ShouldContinue(config, rssAfterCleanup)
      ensures blocks == old(blocks) + 1 && blockBuffer == Ring(old(blockBuffer), block, config.bufferSize)
      ensures FilesKept(old(out.files), out.files, previewMode)
    {
      ScanBlock(block, types, search, filterSystem);
      exceeded := CheckBudgets(rss, rssAfterCleanup);
    }

    /** `recover_files`: checks the output directory (outside preview mode)
        before touching any state, resets the scan state (but not
        `lastCleanupBlocks`), opens the device and runs the read loop the
        steps describe. The blocks processed and the outcome are those of
        `Schedule`; the buffer ends holding the last processed blocks, and no
        existing file is changed. */
    method RecoverFiles(diskPath: string, types: seq<string>, search: string, filterSystem: bool,
                        preview: bool, outputDirOk: bool, open: OpenResult, steps: seq<Step>)
      returns (outcome: ScanOutcome)
      requires Valid()
      modifies this, out
      ensures Valid()
      ensures !preview && !outputDirOk ==> outcome == OutputDirError && unchanged(this) && unchanged(out)
      ensures (preview || outputDirOk) ==> previewMode == preview
      ensures (preview || outputDirOk) && open == OpenDenied ==>
                outcome == PermissionDenied && previewList == [] && foundCount == 0 && blocks == 0
                && uniqueTexts == {} && blockBuffer == [] && !cancelled
      ensures (preview || outputDirOk) && open == OpenFailed ==>
                outcome == ScanError && previewList == [] && foundCount == 0 && blocks == 0
                && uniqueTexts == {} && blockBuffer == [] && !cancelled
      ensures (preview || outputDirOk) && open == Opened ==>
                var r := Schedule(steps, StartsWith(diskPath, PhysicalDrivePrefix), config, false);
                blocks == |r.0| && blockBuffer == LastOf(r.0, config.bufferSize)
                && outcome == Outcome(r.1, foundCount) && (r.1 == Cancelled ==> cancelled)
      ensures FilesKept(old(out.files), out.files, preview)
    {
      if !preview && !outputDirOk {
        return OutputDirError;
      }
      previewMode := preview;
      previewList := [];
      foundCount := 0;
      blocks := 0;
      uniqueTexts := {};
      blockBuffer := [];
      cancelled := false;
      if open == OpenDenied {
        return PermissionDenied;
      }
      if open == OpenFailed {
        return ScanError;
      }
      outcome := ReadLoop(StartsWith(diskPath, PhysicalDrivePrefix), steps, types, search, filterSystem);
    }

    /** The read loop of `recover_files`, from a fresh scan state: each step
        as `Iterate` does it, until one ends the loop or the steps run out. */
    method ReadLoop(physical: bool, steps: seq<Step>, types: seq<string>, search: string, filterSystem: bool)
      returns (outcome: ScanOutcome)
      requires Valid() && blocks == 0 && blockBuffer == [] && !cancelled
      requires uniqueTexts == {} && previewList == [] && foundCount == 0
      modifies this`cancelled, this`blocks, this`blockBuffer, this`uniqueTexts, this`previewList,
               this`foundCount, this`lastCleanupBlocks, out
      ensures Valid()
      ensures var r := Schedule(steps, physical, config, false);
              blocks == |r.0| && blockBuffer == LastOf(r.0, config.bufferSize)
              && outcome == Outcome(r.1, foundCount) && (r.1 == Cancelled ==> cancelled)
      ensures FilesKept(old(out.files), out.files, previewMode)
    {
      ghost var final := Schedule(steps, physical, config, false);
      ghost var processed: seq<seq<byte>> := [];
      ghost var files := out.files;
      assert steps[0..] == steps;
      var i := 0;
      while i < |steps|
        invariant 0 <= i <= |steps|
        invariant ReadProgress(physical, steps[i..], final, processed, files)
        decreases |steps| - i
      {
        var halt;
        halt, processed := ReadStep(physical, steps, i, types, search, filterSystem, final, processed, files);
        if halt.Some? {
          return halt.value;
        }
        i := i + 1;
      }
      assert steps[i..] == [];
      assert processed + [] == processed;
      outcome := Found(foundCount);
    }

    /** What the read loop keeps: the blocks processed so far followed by
        those the remaining steps process are the blocks of the whole
        schedule, which stops for the same reason; the counter and the buffer
        follow the processed blocks, and no existing file has changed. */
    ghost predicate ReadProgress(physical: bool, rest: seq<Step>, final: (seq<seq<byte>>, Stop),
                                 processed: seq<seq<byte>>, files: map<string, string>)
      reads this, out
    {
      Valid()
      && processed + Schedule(rest, physical, config, cancelled).0 == final.0
      && Schedule(rest, physical, config, cancelled).1 == final.1
      && blocks == |processed| && blockBuffer == LastOf(processed, config.bufferSize)
      && FilesKept(files, out.files, previewMode)
    }

    /** One turn of the read loop: `Iterate` on the `i`-th step, with the
        blocks it processes appended to those of the earlier steps. */
    method ReadStep(physical: bool, steps: seq<Step>, i: int, types: seq<string>, search: string,
                    filterSystem: bool, ghost final: (seq<seq<byte>>, Stop), ghost processed: seq<seq<byte>>,
                    ghost files: map<string, string>)
      returns (halt: Option<ScanOutcome>, ghost processed': seq<seq<byte>>)
      requires 0 <= i < |steps| && ReadProgress(physical, steps[i..], final, processed, files)
      modifies this`cancelled, this`blocks, this`blockBuffer, this`uniqueTexts, this`previewList,
               this`foundCount, this`lastCleanupBlocks, out
      ensures Valid()
      ensures halt.None? ==> ReadProgress(physical, steps[i + 1..], final, processed', files)
      ensures halt.Some? ==> blocks == |final.0| && blockBuffer == LastOf(final.0, config.bufferSize)
                             && FilesKept(files, out.files, previewMode)
                             && halt.value == Outcome(final.1, foundCount) && (final.1 == Cancelled ==> cancelled)
    {
      ghost var e := StepEffect(steps[i], physical, config, cancelled);
      ghost var r := Schedule(steps[i..], physical, config, cancelled);
      ScheduleUnfold(steps, i, physical, config, cancelled);
      ghost var files0 := out.files;
      halt := Iterate(steps[i], physical, types, search, filterSystem);
      FilesKeptCompose(files, files0, out.files, previewMode);
      if e.block.Some? {
        LastOfSnoc(processed, e.block.value, config.bufferSize);
      }
      processed' := processed + Blocks(e.block);
      if halt.None? {
        GoKeepsProgress(processed, Blocks(e.block), r, Schedule(steps[i + 1..], physical, config, cancelled), final);
      } else {
        assert r == (Blocks(e.block), e.stop);
        assert processed' == final.0;
      }
    }
  }
}
