/** File-name utilities (utils/file_utils.py): the sanitiser `clean_filename`,
    the plausibility test `is_valid_filename`, and the extractor
    `extract_filename_from_content`, which votes over the names the seven
    name patterns find in a recovered text.

    The Unicode classes of non-ASCII characters (`isprintable`, `isalnum`, the
    regular-expression class `\d`) are parameters; on ASCII they are exact.
    The seven name patterns are one parameter, `NameMatcher`. */
module FileUtils {
  import opened Strings

  // ---------------------------------------------------------------------------
  // Character classes

  /** The Unicode predicates `str.isprintable`, `str.isalnum` and the regular
      expression class `\d`, as they answer for non-ASCII characters. */
  datatype UnicodeClasses = UnicodeClasses(printable: char -> bool, alnum: char -> bool, digit: char -> bool)

  /** `c.isprintable()`: on ASCII, exactly the characters from space to `~`. */
  predicate IsPrintable(u: UnicodeClasses, c: char) {
    if IsAscii(c) then ' ' <= c <= '~' else u.printable(c)
  }

  /** `c.isalnum()`: on ASCII, letters and digits. */
  predicate IsAlnum(u: UnicodeClasses, c: char) {
    if IsAscii(c) then IsAsciiLetter(c) || IsAsciiDigit(c) else u.alnum(c)
  }

  /** The class `\d` of a `str` pattern: on ASCII, the ten digits. */
  predicate IsDigit(u: UnicodeClasses, c: char) {
    if IsAscii(c) then IsAsciiDigit(c) else u.digit(c)
  }

  /** Characters Windows refuses in file names, replaced by `_`. */
  const InvalidChars: string := "<>:\"|?*\\/\0\r\n\t"

  /** Accented letters kept as they are. */
  const Accented: string := "áéíóúÁÉÍÓÚñÑ"

  /** The characters `lstrip` removes from the front of a cleaned name. */
  const LeadingJunk: string := ". -_"

  predicate IsDash(c: char) {
    c == '-' || c == '_'
  }

  /** No two neighbouring characters both satisfy `P`. */
  predicate NoAdjacent(s: string, P: char -> bool) {
    forall i :: 0 <= i < |s| - 1 ==> !(P(s[i]) && P(s[i + 1]))
  }

  // ---------------------------------------------------------------------------
  // The steps of clean_filename

  /** `''.join(c for c in nombre if c.isprintable() or c in ' \t')`. */
  function DropControls(u: UnicodeClasses, s: string): (r: string)
    ensures |r| <= |s|
    ensures forall i :: 0 <= i < |r| ==> IsPrintable(u, r[i]) || r[i] == '\t'
  {
    if s == [] then []
    else
      var c := s[|s| - 1];
      DropControls(u, s[..|s| - 1]) + (if IsPrintable(u, c) || c == ' ' || c == '\t' then [c] else [])
  }

  /** The chained `replace(char, '_')` over the invalid characters. */
  function ReplaceInvalid(s: string): (r: string)
    ensures |r| == |s|
    ensures forall i :: 0 <= i < |s| ==> r[i] == (if s[i] in InvalidChars then '_' else s[i])
  {
    MapChars(s, c => if c in InvalidChars then '_' else c)
  }

  /** One step of the `nombre_limpio` loop. */
  function TransliterateChar(u: UnicodeClasses, c: char): char {
    if IsAscii(c) || c in Accented then c
    else if IsAlnum(u, c) then c
    else '_'
  }

  /** The `nombre_limpio` loop as a whole. */
  function Transliterated(u: UnicodeClasses, s: string): (r: string)
    ensures |r| == |s| && forall i :: 0 <= i < |s| ==> r[i] == TransliterateChar(u, s[i])
  {
    MapChars(s, c => TransliterateChar(u, c))
  }

  /** `while nombre.endswith('.') and len(nombre) > 1: nombre = nombre[:-1]`. */
  function DropTrailingDots(s: string): (r: string)
    ensures StartsWith(s, r)
    ensures |s| > 0 ==> |r| > 0
    ensures |r| > 1 ==> r[|r| - 1] != '.'
    ensures forall i :: |r| <= i < |s| ==> s[i] == '.'
  {
    if |s| > 1 && s[|s| - 1] == '.' then DropTrailingDots(s[..|s| - 1]) else s
  }

  /** The length of the longest prefix of `s` whose characters satisfy `P`. */
  function PrefixRun(s: string, P: char -> bool): (n: nat)
    ensures n <= |s|
    ensures forall i :: 0 <= i < n ==> P(s[i])
    ensures n < |s| ==> !P(s[n])
  {
    if s != [] && P(s[0]) then 1 + PrefixRun(s[1..], P) else 0
  }

  /** `re.sub(C + '{m,}', rep, s)` for a one-character class `C` given as `P`:
      every maximal run of at least `minRun` characters of the class becomes
      the single character `rep`; shorter runs stay as they are. */
  function Collapse(s: string, P: char -> bool, minRun: nat, rep: char): string
    decreases |s|
  {
    if s == [] then []
    else
      var n := PrefixRun(s, P);
      if n == 0 then [s[0]] + Collapse(s[1..], P, minRun, rep)
      else (if n >= minRun then [rep] else s[..n]) + Collapse(s[n..], P, minRun, rep)
  }

  /** `re.sub(r'\s+', ' ', nombre)`. */
  function CollapseSpaces(s: string): string {
    Collapse(s, IsSpace, 1, ' ')
  }

  /** `re.sub(r'[-_]{2,}', '_', nombre)`. */
  function CollapseDashes(s: string): string {
    Collapse(s, IsDash, 2, '_')
  }

  /** The first half of `clean_filename`: control characters dropped, invalid
      characters replaced, the `nombre_limpio` loop, `strip()` and the
      trailing-dot loop. */
  function Prepared(u: UnicodeClasses, s: string): string {
    DropTrailingDots(Strip(Transliterated(u, ReplaceInvalid(DropControls(u, s)))))
  }

  /** The second half: the two collapses, the emptiness check, truncation to
      200 characters, the leading-junk strip and the final checks. */
  function Finished(b: string): Option<string> {
    var d := CollapseDashes(CollapseSpaces(b));
    if |d| < 1 then None
    else
      var e := if |d| > 200 then d[..200] else d;
      var f := LStripChars(e, LeadingJunk);
      if |f| < 1 then None
      else if !HasAsciiLetter(f) then None
      else Some(f)
  }

  /** What `clean_filename` returns: `None` for the empty name, for a name that
      cleans down to nothing, and for one without an ASCII letter. */
  function Cleaned(u: UnicodeClasses, s: string): Option<string> {
    if s == [] then None else Finished(Prepared(u, s))
  }

  /** `clean_filename`, step by step: the filters and substitutions, the
      `nombre_limpio` character loop, the trailing-dot loop, the two collapses,
      truncation to 200 characters and the leading-junk strip. */
  method CleanFilename(u: UnicodeClasses, nombre: string) returns (r: Option<string>)
    ensures r == Cleaned(u, nombre)
  {
    if nombre == [] {
      return None;
    }
    var s := ReplaceInvalid(DropControls(u, nombre));
    var limpio := "";
    for i := 0 to |s|
      invariant limpio == Transliterated(u, s[..i])
    {
      limpio := limpio + [TransliterateChar(u, s[i])];
    }
    assert s[..|s|] == s;
    var n := Strip(limpio);
    while |n| > 1 && n[|n| - 1] == '.'
      invariant DropTrailingDots(n) == DropTrailingDots(Strip(limpio))
      decreases |n|
    {
      n := n[..|n| - 1];
    }
    assert n == DropTrailingDots(Strip(Transliterated(u, s)));
    n := CollapseDashes(CollapseSpaces(n));
    if |n| < 1 {
      return None;
    }
    if |n| > 200 {
      n := n[..200];
    }
    n := LStripChars(n, LeadingJunk);
    if |n| < 1 {
      return None;
    }
    if !HasAsciiLetter(n) {
      return None;
    }
    return Some(n);
  }

  // ---------------------------------------------------------------------------
  // What a cleaned name looks like

  /** A character that can survive cleaning: printable, not one of the invalid
      characters, and, if not ASCII, accented or alphanumeric. */
  predicate GoodChar(u: UnicodeClasses, c: char) {
    IsPrintable(u, c) && c !in InvalidChars && (IsAscii(c) || c in Accented || IsAlnum(u, c))
  }

  /** The output invariants of `clean_filename`. */
  predicate WellFormedName(u: UnicodeClasses, r: string) {
    1 <= |r| <= 200 && HasAsciiLetter(r)
    && (forall i :: 0 <= i < |r| ==> GoodChar(u, r[i]))
    && r[0] !in LeadingJunk
    && NoAdjacent(r, IsDash) && NoAdjacent(r, IsSpace)
  }

  /** Every name `clean_filename` returns has 1 to 200 characters, an ASCII
      letter, only good characters, no leading `.`, space, `-` or `_`, no two
      neighbouring dashes/underscores and no two neighbouring whitespace
      characters. */
  lemma CleanedIsWellFormed(u: UnicodeClasses, s: string)
    ensures Cleaned(u, s).Some? ==> WellFormedName(u, Cleaned(u, s).value)
  {
    if s != [] {
      PreparedIsGood(u, s);
      FinishedIsWellFormed(u, Prepared(u, s));
    }
  }

  /** The first half of cleaning leaves only good characters. */
  lemma PreparedIsGood(u: UnicodeClasses, s: string)
    ensures forall i :: 0 <= i < |Prepared(u, s)| ==> GoodChar(u, Prepared(u, s)[i])
  {
    var t := Transliterated(u, ReplaceInvalid(DropControls(u, s)));
    TransliteratedIsGood(u, s);
    StripKeeps(t, c => GoodChar(u, c));
    var a := Strip(t);
    var b := DropTrailingDots(a);
    assert forall i :: 0 <= i < |b| ==> b[i] == a[i];
  }

  /** The second half turns a string of good characters into a well-formed
      name, or into nothing. */
  lemma FinishedIsWellFormed(u: UnicodeClasses, b: string)
    requires forall i :: 0 <= i < |b| ==> GoodChar(u, b[i])
    ensures Finished(b).Some? ==> WellFormedName(u, Finished(b).value)
  {
    CollapsesAreTidy(u, b);
    var d := CollapseDashes(CollapseSpaces(b));
    if |d| >= 1 {
      var e := if |d| > 200 then d[..200] else d;
      TruncationKeepsTidy(u, d);
      LeadingStripKeepsTidy(u, e);
    }
  }

  /** After the filters and the `nombre_limpio` loop every character is good. */
  lemma TransliteratedIsGood(u: UnicodeClasses, s: string)
    ensures forall i :: 0 <= i < |Transliterated(u, ReplaceInvalid(DropControls(u, s)))| ==>
              GoodChar(u, Transliterated(u, ReplaceInvalid(DropControls(u, s)))[i])
  {
    var a := ReplaceInvalid(DropControls(u, s));
    var t := Transliterated(u, a);
    assert forall i :: 0 <= i < |t| ==> GoodChar(u, t[i]);
  }

  /** Good characters, with neither dashes nor whitespace next to their own kind. */
  predicate Tidy(u: UnicodeClasses, d: string) {
    (forall i :: 0 <= i < |d| ==> GoodChar(u, d[i])) && NoAdjacent(d, IsDash) && NoAdjacent(d, IsSpace)
  }

  /** The two `re.sub` collapses leave a tidy string. */
  lemma CollapsesAreTidy(u: UnicodeClasses, b: string)
    requires forall i :: 0 <= i < |b| ==> GoodChar(u, b[i])
    ensures Tidy(u, CollapseDashes(CollapseSpaces(b)))
  {
    SpacesCollapsed(u, b);
    DashesCollapsed(u, CollapseSpaces(b));
  }

  /** The whitespace collapse keeps good characters and leaves no two
      whitespace characters side by side. */
  lemma SpacesCollapsed(u: UnicodeClasses, b: string)
    requires forall i :: 0 <= i < |b| ==> GoodChar(u, b[i])
    ensures forall i :: 0 <= i < |CollapseSpaces(b)| ==> GoodChar(u, CollapseSpaces(b)[i])
    ensures NoAdjacent(CollapseSpaces(b), IsSpace)
  {
    CollapseKeeps(b, IsSpace, 1, ' ', c => GoodChar(u, c));
    CollapseNoAdjacentP(b, IsSpace, 1, ' ');
  }

  /** The dash collapse, after the whitespace one, leaves a tidy string. */
  lemma DashesCollapsed(u: UnicodeClasses, c1: string)
    requires forall i :: 0 <= i < |c1| ==> GoodChar(u, c1[i])
    requires NoAdjacent(c1, IsSpace)
    ensures Tidy(u, CollapseDashes(c1))
  {
    CollapseKeeps(c1, IsDash, 2, '_', c => GoodChar(u, c));
    CollapseNoAdjacentP(c1, IsDash, 2, '_');
    CollapseNoAdjacentQ(c1, IsDash, 2, '_', IsSpace);
  }

  /** Truncation to 200 characters keeps a string tidy. */
  lemma TruncationKeepsTidy(u: UnicodeClasses, d: string)
    requires Tidy(u, d) && |d| >= 1
    ensures var e := if |d| > 200 then d[..200] else d;
            Tidy(u, e) && 1 <= |e| <= 200
  {
  }

  /** The leading-junk strip and the final checks turn a tidy string of at
      most 200 characters into a well-formed name or into `None`. */
  lemma LeadingStripKeepsTidy(u: UnicodeClasses, e: string)
    requires Tidy(u, e) && |e| <= 200
    ensures var f := LStripChars(e, LeadingJunk);
            |f| >= 1 && HasAsciiLetter(f) ==> WellFormedName(u, f)
  {
    var f := LStripChars(e, LeadingJunk);
    var k := |e| - |f|;
    assert f == e[k..];
    forall i | 0 <= i < |f| - 1
      ensures !(IsDash(f[i]) && IsDash(f[i + 1])) && !(IsSpace(f[i]) && IsSpace(f[i + 1]))
    {
      assert f[i] == e[k + i] && f[i + 1] == e[k + i + 1];
    }
  }

  /** `strip()` keeps a contiguous part of the string. */
  lemma StripKeeps(s: string, Q: char -> bool)
    requires forall i :: 0 <= i < |s| ==> Q(s[i])
    ensures forall i :: 0 <= i < |Strip(s)| ==> Q(Strip(s)[i])
  {
    LStripDropsSpace(s);
    RStripDropsSpace(LStrip(s));
  }

  /** The result of a collapse starts like its input: with the same character,
      or with the replacement when the input starts inside a run. */
  lemma {:induction false} CollapseHead(s: string, P: char -> bool, minRun: nat, rep: char)
    requires |s| > 0
    ensures |Collapse(s, P, minRun, rep)| > 0
    ensures Collapse(s, P, minRun, rep)[0] == s[0] || (P(s[0]) && Collapse(s, P, minRun, rep)[0] == rep)
  {
  }

  /** A collapse only inserts the replacement, so any property of characters
      that the input and the replacement have, the output has. */
  lemma {:induction false} CollapseKeeps(s: string, P: char -> bool, minRun: nat, rep: char, Q: char -> bool)
    requires forall i :: 0 <= i < |s| ==> Q(s[i])
    requires Q(rep)
    ensures forall i :: 0 <= i < |Collapse(s, P, minRun, rep)| ==> Q(Collapse(s, P, minRun, rep)[i])
    decreases |s|
  {
    if s != [] {
      var n := PrefixRun(s, P);
      if n == 0 {
        CollapseKeeps(s[1..], P, minRun, rep, Q);
      } else {
        CollapseKeeps(s[n..], P, minRun, rep, Q);
      }
    }
  }

  /** After collapsing runs of at least one or two class characters into one
      class character, no two class characters are neighbours. */
  lemma {:induction false} CollapseNoAdjacentP(s: string, P: char -> bool, minRun: nat, rep: char)
    requires 1 <= minRun <= 2 && P(rep)
    ensures NoAdjacent(Collapse(s, P, minRun, rep), P)
    decreases |s|
  {
    if s != [] {
      var n := PrefixRun(s, P);
      var rest := if n == 0 then s[1..] else s[n..];
      var head := if n == 0 then [s[0]] else if n >= minRun then [rep] else s[..n];
      var r := Collapse(s, P, minRun, rep);
      CollapseNoAdjacentP(rest, P, minRun, rep);
      var t := Collapse(rest, P, minRun, rep);
      assert r == head + t;
      assert |head| == 1;
      if |t| > 0 {
        CollapseHead(rest, P, minRun, rep);
        if n > 0 {
          assert !P(rest[0]);
        }
      }
      forall i | 0 <= i < |r| - 1 ensures !(P(r[i]) && P(r[i + 1])) {
        if i > 0 {
          assert r[i] == t[i - 1] && r[i + 1] == t[i];
        }
      }
    }
  }

  /** A collapse keeps apart the characters of a second class `Q` disjoint
      from the collapsed class, when the replacement is not in `Q`. */
  lemma {:induction false} CollapseNoAdjacentQ(s: string, P: char -> bool, minRun: nat, rep: char, Q: char -> bool)
    requires !Q(rep) && forall i :: 0 <= i < |s| ==> !(P(s[i]) && Q(s[i]))
    requires NoAdjacent(s, Q)
    ensures NoAdjacent(Collapse(s, P, minRun, rep), Q)
    decreases |s|
  {
    if s != [] {
      var n := PrefixRun(s, P);
      var rest := if n == 0 then s[1..] else s[n..];
      var head := if n == 0 then [s[0]] else if n >= minRun then [rep] else s[..n];
      var r := Collapse(s, P, minRun, rep);
      CollapseNoAdjacentQ(rest, P, minRun, rep, Q);
      var t := Collapse(rest, P, minRun, rep);
      assert r == head + t;
      if |t| > 0 {
        CollapseHead(rest, P, minRun, rep);
      }
      forall i | 0 <= i < |r| - 1 ensures !(Q(r[i]) && Q(r[i + 1])) {
        if i >= |head| {
          assert r[i] == t[i - |head|] && r[i + 1] == t[i + 1 - |head|];
        } else if i == |head| - 1 {
          assert r[i] == head[i] && r[i + 1] == t[0];
          if n == 0 {
            assert rest[0] == s[1];
          }
        } else {
          assert r[i] == head[i] && r[i + 1] == head[i + 1];
        }
      }
    }
  }

  /** On printable ASCII without invalid characters the control filter, the
      replacements and the `nombre_limpio` loop change nothing. */
  lemma {:induction false} PlainAsciiUnchanged(u: UnicodeClasses, s: string)
    requires forall i :: 0 <= i < |s| ==> ' ' <= s[i] <= '~' && s[i] !in InvalidChars
    ensures DropControls(u, s) == s
    ensures Transliterated(u, ReplaceInvalid(DropControls(u, s))) == s
  {
    PrintableKept(u, s);
    var t := Transliterated(u, ReplaceInvalid(s));
    assert forall i :: 0 <= i < |s| ==> t[i] == s[i];
  }

  /** The control filter keeps printable ASCII. */
  lemma {:induction false} PrintableKept(u: UnicodeClasses, s: string)
    requires forall i :: 0 <= i < |s| ==> ' ' <= s[i] <= '~'
    ensures DropControls(u, s) == s
  {
    if s != [] {
      PrintableKept(u, s[..|s| - 1]);
      assert s[..|s| - 1] + [s[|s| - 1]] == s;
    }
  }

  /** A collapse leaves alone a string in which no two class characters are
      neighbours, when the runs it would replace are already the replacement:
      the collapses are idempotent. */
  lemma {:induction false} CollapseFixed(s: string, P: char -> bool, minRun: nat, rep: char)
    requires NoAdjacent(s, P)
    requires minRun <= 1 ==> forall i :: 0 <= i < |s| && P(s[i]) ==> s[i] == rep
    ensures Collapse(s, P, minRun, rep) == s
    decreases |s|
  {
    if s != [] {
      var n := PrefixRun(s, P);
      if |s| >= 2 {
        assert !(P(s[0]) && P(s[1]));
      }
      assert n <= 1;
      var rest := s[1..];
      TailKeepsClass(s, P, minRun <= 1, rep);
      CollapseFixed(rest, P, minRun, rep);
      CollapseStep(s, P, minRun, rep);
      assert s == [s[0]] + rest;
    }
  }

  /** One step of a collapse whose leading run is at most one character
      long. */
  lemma CollapseStep(s: string, P: char -> bool, minRun: nat, rep: char)
    requires s != [] && PrefixRun(s, P) <= 1
    ensures Collapse(s, P, minRun, rep)
         == (if PrefixRun(s, P) == 1 && 1 >= minRun then [rep] else [s[0]]) + Collapse(s[1..], P, minRun, rep)
  {
    if PrefixRun(s, P) == 1 {
      assert s[..1] == [s[0]];
    }
  }

  /** What `CollapseFixed` asks of a string holds of its tail. */
  lemma TailKeepsClass(s: string, P: char -> bool, only: bool, rep: char)
    requires s != [] && NoAdjacent(s, P)
    requires only ==> forall i :: 0 <= i < |s| && P(s[i]) ==> s[i] == rep
    ensures NoAdjacent(s[1..], P)
    ensures only ==> forall i :: 0 <= i < |s[1..]| && P(s[1..][i]) ==> s[1..][i] == rep
  {
    var rest := s[1..];
    forall i | 0 <= i < |rest| - 1
      ensures !(P(rest[i]) && P(rest[i + 1]))
    {
      assert rest[i] == s[i + 1] && rest[i + 1] == s[i + 2];
    }
  }

  /** Neither collapse changes `"a . "` or `"a "`. */
  lemma CollapsesKeepSpacedName(s: string)
    requires s == "a . " || s == "a "
    ensures CollapseDashes(CollapseSpaces(s)) == s
  {
    SpacedNameClasses(s);
    CollapseFixed(s, IsSpace, 1, ' ');
    CollapseFixed(s, IsDash, 2, '_');
  }

  /** In `"a . "` and `"a "` the spaces are plain and apart, and there are no
      dashes. */
  lemma SpacedNameClasses(s: string)
    requires s == "a . " || s == "a "
    ensures NoAdjacent(s, IsSpace) && NoAdjacent(s, IsDash)
    ensures forall i :: 0 <= i < |s| && IsSpace(s[i]) ==> s[i] == ' '
  {
    forall i | 0 <= i < |s|
      ensures (s[i] == ' ' <==> i % 2 == 1) && (s[i] == ' ' || s[i] == 'a' || s[i] == '.')
    {
      if s == "a . " {
        assert s[0] == 'a' && s[1] == ' ' && s[2] == '.' && s[3] == ' ';
      } else {
        assert s[0] == 'a' && s[1] == ' ';
      }
    }
  }

  /** The first half of cleaning takes `"a . ."` to `"a . "`: one trailing
      dot goes. */
  lemma PreparedDotted(u: UnicodeClasses, s: string)
    requires s == "a . ."
    ensures Prepared(u, s) == "a . "
  {
    PlainExamples(s);
    PreparedPlain(u, s);
    StripExamples(s);
    DropDotsExamples(s);
  }

  /** The first half of cleaning takes `"a . "` to `"a "`: the strip uncovers a
      trailing dot. */
  lemma PreparedSpaced(u: UnicodeClasses, s: string)
    requires s == "a . "
    ensures Prepared(u, s) == "a "
  {
    PlainExamples(s);
    PreparedPlain(u, s);
    StripExamples(s);
    DropDotsExamples(Strip(s));
  }

  /** On printable ASCII without invalid characters, the first half of
      cleaning is the strip and the trailing-dot loop. */
  lemma PreparedPlain(u: UnicodeClasses, s: string)
    requires forall i :: 0 <= i < |s| ==> ' ' <= s[i] <= '~' && s[i] !in InvalidChars
    ensures Prepared(u, s) == DropTrailingDots(Strip(s))
  {
    PlainAsciiUnchanged(u, s);
  }

  /** `"a . ."` and `"a . "` are plain printable ASCII. */
  lemma PlainExamples(s: string)
    requires s == "a . ." || s == "a . "
    ensures forall i :: 0 <= i < |s| ==> ' ' <= s[i] <= '~' && s[i] !in InvalidChars
  {
    forall i | 0 <= i < |s|
      ensures ' ' <= s[i] <= '~' && s[i] !in InvalidChars
    {
      assert s[i] == 'a' || s[i] == ' ' || s[i] == '.';
    }
  }

  /** The trailing-dot loop takes one dot off `"a . ."` and `"a ."`. */
  lemma DropDotsExamples(t: string)
    requires t == "a . ." || t == "a ."
    ensures DropTrailingDots(t) == t[..|t| - 1]
  {
    var r := t[..|t| - 1];
    assert r[|r| - 1] == ' ';
    assert DropTrailingDots(r) == r;
  }

  /** `strip()` leaves `"a . ."` alone and takes the final space off `"a . "`. */
  lemma StripExamples(s: string)
    requires s == "a . ." || s == "a . "
    ensures Strip(s) == if |s| == 5 then s else "a ."
  {
    assert LStrip(s) == s;
    if |s| == 4 {
      assert RStrip(s) == RStrip("a .");
    }
  }

  /** The second half of cleaning keeps `"a . "` and `"a "` as they are. */
  lemma FinishedExamples(t: string)
    requires t == "a . " || t == "a "
    ensures Finished(t) == Some(t)
  {
    CollapsesKeepSpacedName(t);
    assert t[0] == 'a';
    FinishedKeeps(t);
  }

  /** A string the collapses keep, of 1 to 200 characters, starting with an
      ASCII letter, is its own second half of cleaning. */
  lemma FinishedKeeps(t: string)
    requires CollapseDashes(CollapseSpaces(t)) == t && 1 <= |t| <= 200 && IsAsciiLetter(t[0])
    ensures Finished(t) == Some(t)
  {
    assert t[0] !in LeadingJunk;
    assert LStripChars(t, LeadingJunk) == t;
  }

  /** `clean_filename` is not idempotent: a cleaned name can change when
      cleaned again. */
  lemma CleanNotIdempotent(u: UnicodeClasses)
    ensures exists s :: Cleaned(u, s).Some? && Cleaned(u, Cleaned(u, s).value) != Cleaned(u, s)
  {
    PreparedDotted(u, "a . .");
    PreparedSpaced(u, "a . ");
    FinishedExamples("a . ");
    FinishedExamples("a ");
    assert Cleaned(u, "a . .") == Some("a . ");
    assert Cleaned(u, "a . ") == Some("a ");
    assert Cleaned(u, Cleaned(u, "a . .").value) != Cleaned(u, "a . .");
  }

  // ---------------------------------------------------------------------------
  // is_valid_filename

  /** A character of the class `[_\-\s]`. */
  predicate IsSeparatorChar(c: char) {
    c == '_' || c == '-' || IsSpace(c)
  }

  /** `[_\-\s]{3,}` matches at `i`. */
  predicate SeparatorRunAt(s: string, i: int) {
    0 <= i && i + 3 <= |s| && IsSeparatorChar(s[i]) && IsSeparatorChar(s[i + 1]) && IsSeparatorChar(s[i + 2])
  }

  /** `re.search(r'[_\-\s]{3,}', nombre)`. */
  predicate HasSeparatorRun(s: string) {
    exists i :: 0 <= i < |s| && SeparatorRunAt(s, i)
  }

  /** `(.)\1{4,}` matches at `i`: five equal characters, not newlines (`.`
      does not match a newline). */
  predicate RepeatAt(s: string, i: int) {
    0 <= i && i + 5 <= |s| && s[i] != '\n' && forall k :: i < k < i + 5 ==> s[k] == s[i]
  }

  /** `re.search(r'(.)\1{4,}', nombre)`. */
  predicate HasRepeat(s: string) {
    exists i :: 0 <= i < |s| && RepeatAt(s, i)
  }

  /** `sum(1 for c in nombre if c.isprintable() or c in ' \t')`. */
  function PrintableChars(u: UnicodeClasses, s: string): (n: nat)
    ensures n <= |s|
  {
    if s == [] then 0
    else PrintableChars(u, s[..|s| - 1]) + (if IsPrintable(u, s[|s| - 1]) || s[|s| - 1] == '\t' then 1 else 0)
  }

  /** A character of the class `[\d\s_\-\.]`. */
  predicate IsNumericJunk(u: UnicodeClasses, c: char) {
    IsDigit(u, c) || IsSpace(c) || c == '_' || c == '-' || c == '.'
  }

  /** `re.match(r'^[\d\s_\-\.]+$', nombre)`: a newline is itself in the class,
      so `$` before a final newline changes nothing. */
  predicate OnlyNumericJunk(u: UnicodeClasses, s: string) {
    |s| >= 1 && forall i :: 0 <= i < |s| ==> IsNumericJunk(u, s[i])
  }

  /** `is_valid_filename`: the checks in source order; the printable share
      test `count / len < 0.8` is `5 * count < 4 * len` (a length is at most
      200, far from any rounding effect). The function accepts exactly the
      names of 3 to 200 characters with no separator run, an ASCII letter, a
      printable share of at least 4/5 and no five-fold repeat: the
      digits-only test never rejects. */
  function IsValidFilename(u: UnicodeClasses, s: string): (r: bool)
    ensures r <==> 3 <= |s| <= 200 && !HasSeparatorRun(s) && HasAsciiLetter(s)
                   && 5 * PrintableChars(u, s) >= 4 * |s| && !HasRepeat(s)
  {
    if |s| < 3 || |s| > 200 then false
    else if HasSeparatorRun(s) then false
    else if !HasAsciiLetter(s) then false
    else if 5 * PrintableChars(u, s) < 4 * |s| then false
    else if OnlyNumericJunk(u, s) then
      LetterIsNotNumericJunk(u, s);
      false
    else if HasRepeat(s) then false
    else true
  }

  /** The digits-only test is dead: a name with an ASCII letter has a
      character outside `[\d\s_\-\.]`. */
  lemma LetterIsNotNumericJunk(u: UnicodeClasses, s: string)
    requires HasAsciiLetter(s)
    ensures !OnlyNumericJunk(u, s)
  {
    var i :| 0 <= i < |s| && IsAsciiLetter(s[i]);
    assert !IsNumericJunk(u, s[i]);
  }

  // ---------------------------------------------------------------------------
  // extract_filename_from_content

  /** The seven name patterns of the extractor, applied in order with
      `re.findall(..., IGNORECASE | MULTILINE)` to the search text: the
      captured names, pattern by pattern, each pattern's in text order. */
  type NameMatcher = string -> seq<string>

  /** The text the patterns search: the whole text below 10000 characters,
      else its first 50 newline-separated lines joined back. */
  function SearchText(texto: string): (r: string)
    ensures |texto| < 10000 ==> r == texto
    ensures StartsWith(texto, r)
    ensures |texto| >= 10000 ==>
              multiset(r)['\n'] <= 49
              && (r == texto || (multiset(r)['\n'] == 49 && |r| < |texto| && texto[|r|] == '\n'))
  {
    if |texto| < 10000 then texto
    else
      var lines := Split(texto, '\n');
      var k := if |lines| < 50 then |lines| else 50;
      FirstLines(texto, lines, k);
      Join('\n', lines[..k])
  }

  /** The first `k` lines, joined back, are a prefix of the text with `k - 1`
      newlines, followed in the text by a newline unless they are all of it. */
  lemma FirstLines(texto: string, lines: seq<string>, k: nat)
    requires lines == Split(texto, '\n') && 1 <= k <= |lines|
    ensures StartsWith(texto, Join('\n', lines[..k]))
    ensures multiset(Join('\n', lines[..k]))['\n'] == k - 1
    ensures k == |lines| ==> Join('\n', lines[..k]) == texto
    ensures k < |lines| ==> |Join('\n', lines[..k])| < |texto| && texto[|Join('\n', lines[..k])|] == '\n'
  {
    var head := lines[..k];
    JoinSplit(texto, '\n');
    JoinTakePrefix('\n', lines, k);
    SplitPartsNoSep(texto, '\n');
    forall i | 0 <= i < |head| ensures '\n' !in head[i] {
      assert head[i] == lines[i];
    }
    JoinSeparatorCount('\n', head);
    if k < |lines| {
      JoinTakeNext('\n', lines, k);
    } else {
      assert head == lines;
    }
  }

  /** `ntpath.basename` of a name holding a separator: the part after the last
      `\` or `/`. */
  function AfterLastSeparator(s: string): (r: string)
    ensures EndsWith(s, r)
    ensures forall i :: 0 <= i < |r| ==> r[i] != '\\' && r[i] != '/'
    ensures |r| < |s| ==> s[|s| - |r| - 1] == '\\' || s[|s| - |r| - 1] == '/'
  {
    if s == [] then []
    else if s[|s| - 1] == '\\' || s[|s| - 1] == '/' then []
    else AfterLastSeparator(s[..|s| - 1]) + [s[|s| - 1]]
  }

  /** The quote and whitespace characters stripped from a raw match. */
  const QuoteJunk: string := "\"' \t\r\n"

  /** A raw match after `strip('"\' \t\r\n')` and, when it holds a `\`, the
      base name. */
  function RawName(m: string): string {
    var n := StripChars(m, QuoteJunk);
    if '\\' in n then AfterLastSeparator(n) else n
  }

  /** `nombres_candidatos`: the non-empty raw matches, stripped and reduced to
      their base name, that are valid names, in match order. */
  function Candidates(u: UnicodeClasses, matches: seq<string>): (r: seq<string>)
    ensures |r| <= |matches|
    ensures forall i :: 0 <= i < |r| ==> IsValidFilename(u, r[i])
  {
    if matches == [] then []
    else
      var m := matches[|matches| - 1];
      Candidates(u, matches[..|matches| - 1])
      + (if m != [] && IsValidFilename(u, RawName(m)) then [RawName(m)] else [])
  }

  /** `nombres_validos`: the cleaned candidates that are still valid, in order. */
  function ValidNames(u: UnicodeClasses, candidates: seq<string>): (r: seq<string>)
    ensures |r| <= |candidates|
    ensures forall i :: 0 <= i < |r| ==> IsValidFilename(u, r[i]) && WellFormedName(u, r[i])
  {
    if candidates == [] then []
    else
      var c := candidates[|candidates| - 1];
      CleanedIsWellFormed(u, c);
      var cleaned := Cleaned(u, c);
      ValidNames(u, candidates[..|candidates| - 1])
      + (if cleaned.Some? && IsValidFilename(u, cleaned.value) then [cleaned.value] else [])
  }

  /** How often `x` occurs in `xs` (`Counter(xs)[x]`). */
  function Count(xs: seq<string>, x: string): nat {
    multiset(xs)[x]
  }

  /** `Counter(xs).most_common(1)[0][0]`: an element of `xs` occurring at least
      as often as any other, and more often than every element whose first
      occurrence comes before its own (the counter keeps first-occurrence
      order and the maximum keeps the first of equals). */
  predicate IsPlurality(xs: seq<string>, w: string) {
    exists i :: 0 <= i < |xs| && xs[i] == w && w !in xs[..i]
      && (forall j :: 0 <= j < |xs| ==> Count(xs, xs[j]) <= Count(xs, w))
      && (forall j :: 0 <= j < i ==> Count(xs, xs[j]) < Count(xs, w))
  }

  /** `extract_filename_from_content` (its unused `datos_raw` argument
      dropped): collects the valid raw matches, keeps those still valid after
      cleaning, and returns the plurality name, or `None` when nothing
      survives. The result is a well-formed, valid name. */
  method ExtractFilenameFromContent(u: UnicodeClasses, matcher: NameMatcher, texto: string)
    returns (r: Option<string>)
    ensures var valid := ValidNames(u, Candidates(u, matcher(SearchText(texto))));
            (r.None? <==> valid == []) && (r.Some? ==> IsPlurality(valid, r.value))
    ensures r.Some? ==> IsValidFilename(u, r.value) && WellFormedName(u, r.value)
    ensures r == Extracted(u, matcher, texto)
  {
    var lineas := Split(texto, '\n');
    var busqueda := Join('\n', lineas[..if |lineas| < 50 then |lineas| else 50]);
    if |texto| < 10000 {
      busqueda := texto;
    }
    var candidatos := CollectCandidates(u, matcher(busqueda));
    var validos := KeepCleanedValid(u, candidatos);
    if validos == [] {
      return None;
    }
    var best := MostCommon(validos);
    PluralityUnique(validos, best, Plurality(validos).value);
    return Some(best);
  }

  /** The first loop of the extractor, building `nombres_candidatos`. */
  method CollectCandidates(u: UnicodeClasses, matches: seq<string>) returns (candidatos: seq<string>)
    ensures candidatos == Candidates(u, matches)
  {
    candidatos := [];
    for i := 0 to |matches|
      invariant candidatos == Candidates(u, matches[..i])
    {
      assert matches[..i + 1][..i] == matches[..i];
      var nombre := matches[i];
      if nombre != [] {
        nombre := StripChars(nombre, QuoteJunk);
        if '\\' in nombre {
          nombre := AfterLastSeparator(nombre);
        }
        if IsValidFilename(u, nombre) {
          candidatos := candidatos + [nombre];
        }
      }
    }
    assert matches[..|matches|] == matches;
  }

  /** The second loop of the extractor, building `nombres_validos`. */
  method KeepCleanedValid(u: UnicodeClasses, candidatos: seq<string>) returns (validos: seq<string>)
    ensures validos == ValidNames(u, candidatos)
  {
    validos := [];
    for i := 0 to |candidatos|
      invariant validos == ValidNames(u, candidatos[..i])
    {
      assert candidatos[..i + 1][..i] == candidatos[..i];
      var limpio := CleanFilename(u, candidatos[i]);
      if limpio.Some? && IsValidFilename(u, limpio.value) {
        validos := validos + [limpio.value];
      }
    }
    assert candidatos[..|candidatos|] == candidatos;
  }

  /** `Counter(xs).most_common(1)[0][0]`: the counter lists keys in order of
      first occurrence and the maximum keeps the first of equal counts, so a
      walk over `xs` that replaces the best only on a strictly larger count
      finds the same element. */
  method MostCommon(xs: seq<string>) returns (w: string)
    requires |xs| > 0
    ensures IsPlurality(xs, w)
  {
    var best, bestCount, bestAt := xs[0], Count(xs, xs[0]), 0;
    for i := 1 to |xs|
      invariant 0 <= bestAt < i && best == xs[bestAt] && bestCount == Count(xs, best)
      invariant forall j :: 0 <= j < i ==> Count(xs, xs[j]) <= bestCount
      invariant forall j :: 0 <= j < bestAt ==> Count(xs, xs[j]) < bestCount
    {
      var c := Count(xs, xs[i]);
      if c > bestCount {
        best, bestCount, bestAt := xs[i], c, i;
      }
    }
    assert best !in xs[..bestAt];
    return best;
  }

  /** The position, among the first `n` entries of `xs`, of the first entry
      with the highest count in `xs`: the winner `most_common(1)` picks. */
  function FirstMostCommon(xs: seq<string>, n: nat): (k: nat)
    requires 0 < n <= |xs|
    ensures k < n
    ensures forall j :: 0 <= j < n ==> Count(xs, xs[j]) <= Count(xs, xs[k])
    ensures forall j :: 0 <= j < k ==> Count(xs, xs[j]) < Count(xs, xs[k])
  {
    if n == 1 then 0
    else
      var k := FirstMostCommon(xs, n - 1);
      if Count(xs, xs[n - 1]) > Count(xs, xs[k]) then n - 1 else k
  }

  /** The winner of `Counter(xs).most_common(1)`, or `None` for no votes. */
  function Plurality(xs: seq<string>): (r: Option<string>)
    ensures r.None? <==> xs == []
    ensures r.Some? ==> r.value in xs && IsPlurality(xs, r.value)
  {
    if xs == [] then None
    else
      var k := FirstMostCommon(xs, |xs|);
      assert xs[k] !in xs[..k];
      Some(xs[k])
  }

  /** What `extract_filename_from_content` returns, as a value: the plurality
      of the valid cleaned names, or `None` when there is none. */
  function Extracted(u: UnicodeClasses, matcher: NameMatcher, texto: string): (r: Option<string>)
    ensures var valid := ValidNames(u, Candidates(u, matcher(SearchText(texto))));
            (r.None? <==> valid == []) && (r.Some? ==> r.value in valid && IsPlurality(valid, r.value))
  {
    Plurality(ValidNames(u, Candidates(u, matcher(SearchText(texto)))))
  }

  /** The plurality element is unique: the vote has one winner. */
  lemma PluralityUnique(xs: seq<string>, v: string, w: string)
    requires IsPlurality(xs, v) && IsPlurality(xs, w)
    ensures v == w
  {
    var i :| 0 <= i < |xs| && xs[i] == v && v !in xs[..i]
      && (forall j :: 0 <= j < |xs| ==> Count(xs, xs[j]) <= Count(xs, v))
      && (forall j :: 0 <= j < i ==> Count(xs, xs[j]) < Count(xs, v));
    var k :| 0 <= k < |xs| && xs[k] == w && w !in xs[..k]
      && (forall j :: 0 <= j < |xs| ==> Count(xs, xs[j]) <= Count(xs, w))
      && (forall j :: 0 <= j < k ==> Count(xs, xs[j]) < Count(xs, w));
  }
}
