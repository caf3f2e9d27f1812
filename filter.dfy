/** The file filter (services/filter_service.py): wildcard patterns, the name
    and type test `matches_search`, and the full filter chain `apply_filters`.
    Regular-expression matching is a parameter: a `FullMatch` oracle answers
    whether `re.match('^' + regex + '$', subject, re.IGNORECASE)` succeeds,
    and answers `false` for a pattern that does not compile (the source
    swallows that exception and falls through). */
module Filter {
  import opened Strings
  import Config
  import Detection

  type FullMatch = (string, string) -> bool

  // ---------------------------------------------------------------------------
  // re.escape and str.replace

  /** The characters `re.escape` prefixes with a backslash (Python 3.7 on). */
  const RegexSpecial: string := "()[]{}?*+-|^$\\.&~# \t\n\r\U{B}\U{C}"

  /** `re.escape` of one character. */
  function EscapeChar(c: char): (r: string)
    ensures |r| > 0 && r[|r| - 1] == c
    ensures c in RegexSpecial <==> r == ['\\', c]
    ensures c !in RegexSpecial <==> r == [c]
  {
    if c in RegexSpecial then ['\\', c] else [c]
  }

  /** The concatenation of `f(c)` over the characters `c` of `s`. */
  function Expand(s: string, f: char -> string): string {
    if s == [] then [] else f(s[0]) + Expand(s[1..], f)
  }

  function Escape(s: string): string {
    Expand(s, EscapeChar)
  }

  /** Python's `s.replace(pat, rep)`: every leftmost, non-overlapping
      occurrence of `pat`, scanning left to right, becomes `rep`. */
  function Replace(s: string, pat: string, rep: string): (r: string)
    requires |pat| > 0
    ensures |s| < |pat| ==> r == s
    decreases |s|
  {
    if |s| < |pat| then s
    else if s[..|pat|] == pat then rep + Replace(s[|pat|..], pat, rep)
    else [s[0]] + Replace(s[1..], pat, rep)
  }

  /** A one-character pattern that does not occur leaves the string alone. */
  lemma {:induction false} ReplaceAbsent(s: string, pat: string, rep: string)
    requires |pat| == 1 && pat[0] !in s
    ensures Replace(s, pat, rep) == s
  {
    if s != [] {
      assert s[..1] != pat;
      ReplaceAbsent(s[1..], pat, rep);
      assert [s[0]] + s[1..] == s;
    }
  }

  /** Replacing a pattern of one or two characters distributes over a
      concatenation whose left part cannot start a match that ends in the
      right part. */
  lemma {:induction false} ReplaceConcat(a: string, y: string, pat: string, rep: string)
    requires 1 <= |pat| <= 2
    requires |pat| == 1 || a == [] || a[|a| - 1] != pat[0]
    ensures Replace(a + y, pat, rep) == Replace(a, pat, rep) + Replace(y, pat, rep)
    decreases |a|, 1
  {
    if a == [] {
      assert a + y == y;
    } else if |a| < |pat| {
      assert |a| == 1 && |pat| == 2;
      if |a + y| >= 2 {
        assert (a + y)[..2][0] == a[0];
        assert (a + y)[1..] == y;
      } else {
        assert a + y == a;
      }
    } else if a[..|pat|] == pat {
      ReplaceConcatMatch(a, y, pat, rep);
    } else {
      ReplaceConcatMiss(a, y, pat, rep);
    }
  }

  /** `ReplaceConcat` when the left part starts with the pattern. */
  lemma {:induction false} ReplaceConcatMatch(a: string, y: string, pat: string, rep: string)
    requires 1 <= |pat| <= 2 && |pat| <= |a| && a[..|pat|] == pat
    requires |pat| == 1 || a[|a| - 1] != pat[0]
    ensures Replace(a + y, pat, rep) == Replace(a, pat, rep) + Replace(y, pat, rep)
    decreases |a|, 0
  {
    var rest := a[|pat|..];
    ReplaceAfterMatch(a, y, pat, rep);
    if |pat| == 2 && rest != [] {
      assert rest[|rest| - 1] == a[|a| - 1];
    }
    ReplaceConcat(rest, y, pat, rep);
    var r1, r2 := Replace(rest, pat, rep), Replace(y, pat, rep);
    assert rep + (r1 + r2) == (rep + r1) + r2;
  }

  /** A match at the head of `a` is also a match at the head of `a + y`. */
  lemma ReplaceAfterMatch(a: string, y: string, pat: string, rep: string)
    requires 1 <= |pat| <= |a| && a[..|pat|] == pat
    ensures Replace(a, pat, rep) == rep + Replace(a[|pat|..], pat, rep)
    ensures Replace(a + y, pat, rep) == rep + Replace(a[|pat|..] + y, pat, rep)
  {
    assert (a + y)[..|pat|] == pat;
    assert (a + y)[|pat|..] == a[|pat|..] + y;
  }

  /** `ReplaceConcat` when the left part does not start with the pattern. */
  lemma {:induction false} ReplaceConcatMiss(a: string, y: string, pat: string, rep: string)
    requires 1 <= |pat| <= 2 && |pat| <= |a| && a[..|pat|] != pat
    requires |pat| == 1 || a[|a| - 1] != pat[0]
    ensures Replace(a + y, pat, rep) == Replace(a, pat, rep) + Replace(y, pat, rep)
    decreases |a|, 0
  {
    assert (a + y)[..|pat|] == a[..|pat|];
    assert (a + y)[1..] == a[1..] + y;
    ReplaceConcat(a[1..], y, pat, rep);
  }

  /** Replacing in an expansion block by block: when every block `f(c)`
      becomes `g(c)` and no match crosses a block boundary, the whole
      expansion of `f` becomes the expansion of `g`. */
  lemma {:induction false} ReplaceExpand(s: string, f: char -> string, g: char -> string, pat: string, rep: string)
    requires 1 <= |pat| <= 2
    requires forall i :: 0 <= i < |s| ==> Replace(f(s[i]), pat, rep) == g(s[i])
    requires forall i :: 0 <= i < |s| ==> |pat| == 1 || (f(s[i]) != [] && f(s[i])[|f(s[i])| - 1] != pat[0])
    ensures Replace(Expand(s, f), pat, rep) == Expand(s, g)
  {
    if s != [] {
      assert s[0] == s[0];
      ReplaceConcat(f(s[0]), Expand(s[1..], f), pat, rep);
      forall i | 0 <= i < |s[1..]|
        ensures Replace(f(s[1..][i]), pat, rep) == g(s[1..][i])
        ensures |pat| == 1 || (f(s[1..][i]) != [] && f(s[1..][i])[|f(s[1..][i])| - 1] != pat[0])
      {
        assert s[1..][i] == s[i + 1];
      }
      ReplaceExpand(s[1..], f, g, pat, rep);
    }
  }

  // ---------------------------------------------------------------------------
  // convert_wildcard_to_regex

  /** `convert_wildcard_to_regex`: `None` for the empty pattern; otherwise the
      escaped pattern with the four replacements applied in the source order:
      `\*` to `.*`, `\%` to `.+`, then `*` to `.*` and `%` to `.+`. */
  function ConvertWildcardToRegex(pattern: string): (r: Option<string>)
    ensures r.None? <==> pattern == []
  {
    if pattern == [] then None
    else
      var escaped := Escape(pattern);
      var s1 := Replace(escaped, "\\*", ".*");
      var s2 := Replace(s1, "\\%", ".+");
      var s3 := Replace(s2, "*", ".*");
      Some(Replace(s3, "%", ".+"))
  }

  /** What one pattern character becomes in the final regular expression: the
      third replacement also rewrites the `*` that the first one produced, so
      `*` becomes `..*` (one or more characters), `%` becomes `.+` (one or
      more characters), and any other character is escaped. */
  function WildcardChar(c: char): (r: string)
    ensures c == '*' ==> r == "..*"
    ensures c == '%' ==> r == ".+"
    ensures c != '*' && c != '%' ==> r == EscapeChar(c)
  {
    if c == '*' then "..*" else if c == '%' then ".+" else EscapeChar(c)
  }

  /** The block after the first replacement. */
  function AfterFirst(c: char): string {
    if c == '*' then ".*" else EscapeChar(c)
  }

  /** The block after the third replacement. */
  function AfterThird(c: char): string {
    if c == '*' then "..*" else EscapeChar(c)
  }

  lemma FirstStep(c: char)
    requires c != '\\'
    ensures Replace(EscapeChar(c), "\\*", ".*") == AfterFirst(c)
  {
    if c == '*' {
      assert EscapeChar(c) == "\\*";
      assert EscapeChar(c)[2..] == [];
    } else {
      ReplaceShortMiss(EscapeChar(c), "\\*", ".*");
    }
  }

  lemma SecondStep(c: char)
    requires c != '\\'
    ensures Replace(AfterFirst(c), "\\%", ".+") == AfterFirst(c)
  {
    var b := AfterFirst(c);
    assert b[|b| - 1] != '%' || b == "%";
    ReplaceShortMiss(b, "\\%", ".+");
  }

  /** A string of at most two characters that is not the two-character
      pattern is left alone. */
  lemma ReplaceShortMiss(s: string, pat: string, rep: string)
    requires |pat| == 2 && |s| <= 2 && s != pat
    ensures Replace(s, pat, rep) == s
  {
    if |s| == 2 {
      assert s[..2] == s;
      assert [s[0]] + s[1..] == s;
    }
  }

  lemma ThirdStep(c: char)
    ensures Replace(AfterFirst(c), "*", ".*") == AfterThird(c)
  {
    if c == '*' {
      assert ".*"[..1][0] == '.';
      assert ".*"[1..] == "*";
      assert ".*"[1..][1..] == [];
    } else {
      ReplaceAbsent(AfterFirst(c), "*", ".*");
    }
  }

  lemma FourthStep(c: char)
    ensures Replace(AfterThird(c), "%", ".+") == WildcardChar(c)
  {
    if c == '%' {
      assert AfterThird(c) == "%";
      assert AfterThird(c)[1..] == [];
    } else {
      ReplaceAbsent(AfterThird(c), "%", ".+");
    }
  }

  /** For a pattern without backslashes the converted regular expression is
      exactly the expansion of `WildcardChar`: both wildcards stand for one or
      more characters, and every other character is matched literally. */
  lemma WildcardTranslation(pattern: string)
    requires pattern != [] && '\\' !in pattern
    ensures ConvertWildcardToRegex(pattern) == Some(Expand(pattern, WildcardChar))
  {
    forall i | 0 <= i < |pattern|
      ensures Replace(EscapeChar(pattern[i]), "\\*", ".*") == AfterFirst(pattern[i])
      ensures Replace(AfterFirst(pattern[i]), "\\%", ".+") == AfterFirst(pattern[i])
      ensures Replace(AfterFirst(pattern[i]), "*", ".*") == AfterThird(pattern[i])
      ensures Replace(AfterThird(pattern[i]), "%", ".+") == WildcardChar(pattern[i])
      ensures EscapeChar(pattern[i]) != [] && EscapeChar(pattern[i])[|EscapeChar(pattern[i])| - 1] != '\\'
      ensures AfterFirst(pattern[i]) != [] && AfterFirst(pattern[i])[|AfterFirst(pattern[i])| - 1] != '\\'
    {
      FirstStep(pattern[i]);
      SecondStep(pattern[i]);
      ThirdStep(pattern[i]);
      FourthStep(pattern[i]);
    }
    ReplaceExpand(pattern, EscapeChar, AfterFirst, "\\*", ".*");
    ReplaceExpand(pattern, AfterFirst, AfterFirst, "\\%", ".+");
    ReplaceExpand(pattern, AfterFirst, AfterThird, "*", ".*");
    ReplaceExpand(pattern, AfterThird, WildcardChar, "%", ".+");
  }

  // ---------------------------------------------------------------------------
  // os.path.splitext (Windows flavour)

  predicate IsPathSep(c: char) {
    c == '\\' || c == '/'
  }

  predicate IsDot(c: char) {
    c == '.'
  }

  /** The last index of `s` whose character satisfies `P`, or -1. */
  function RFind(s: string, P: char -> bool): (r: int)
    ensures -1 <= r < |s|
    ensures r >= 0 ==> P(s[r])
    ensures forall j :: r < j < |s| ==> !P(s[j])
  {
    if s == [] then -1
    else if P(s[|s| - 1]) then |s| - 1
    else RFind(s[..|s| - 1], P)
  }

  /** `ntpath.splitext`: the extension starts at the last dot when that dot
      follows the last path separator and some character other than a dot
      stands between them (leading dots of the last component never start
      an extension); otherwise the extension is empty. */
  function SplitExt(p: string): (r: (string, string))
    ensures r.0 + r.1 == p
    ensures r.1 != [] ==> r.1[0] == '.' && forall j :: 1 <= j < |r.1| ==> !IsDot(r.1[j]) && !IsPathSep(r.1[j])
  {
    var sep := RFind(p, IsPathSep);
    var dot := RFind(p, IsDot);
    if dot > sep && exists k :: sep < k < dot && !IsDot(p[k]) then CutAt(p, dot)
    else (p, [])
  }

  /** `p` cut before its dot at `dot`, after which no dot nor separator follows. */
  function CutAt(p: string, dot: int): (r: (string, string))
    requires 0 <= dot < |p| && IsDot(p[dot])
    requires forall j :: dot < j < |p| ==> !IsDot(p[j]) && !IsPathSep(p[j])
    ensures r.0 + r.1 == p
    ensures r.1 != [] && r.1[0] == '.' && forall j :: 1 <= j < |r.1| ==> !IsDot(r.1[j]) && !IsPathSep(r.1[j])
  {
    assert p[..dot] + p[dot..] == p;
    assert forall j :: 1 <= j < |p[dot..]| ==> p[dot..][j] == p[dot + j];
    (p[..dot], p[dot..])
  }

  /** `splitext(name)[1].lstrip('.')`: the extension without its dot. */
  function Extension(name: string): (e: string)
    ensures e != [] ==> EndsWith(name, "." + e) && '.' !in e
  {
    var split := SplitExt(name);
    var e := LStripChars(split.1, ".");
    ExtensionShape(name, split, e);
    e
  }

  /** The extension of any split of `name` into a stem and a dot-led,
      dot-free tail. */
  lemma ExtensionShape(name: string, split: (string, string), e: string)
    requires split.0 + split.1 == name
    requires split.1 != [] ==> split.1[0] == '.' && forall j :: 1 <= j < |split.1| ==> !IsDot(split.1[j])
    requires e == LStripChars(split.1, ".")
    ensures e != [] ==> EndsWith(name, "." + e) && '.' !in e
  {
    var ext := split.1;
    if ext != [] {
      DotExtension(ext);
      assert ext == [ext[0]] + ext[1..];
      assert name[|split.0|..] == ext;
    }
  }

  /** An extension, a dot followed by dot-free text, loses exactly its dot. */
  lemma DotExtension(ext: string)
    requires ext != [] && ext[0] == '.'
    requires forall j :: 1 <= j < |ext| ==> !IsDot(ext[j])
    ensures LStripChars(ext, ".") == ext[1..] && '.' !in ext[1..]
  {
    if |ext| > 1 {
      assert ext[1..][0] == ext[1];
    }
    assert forall j :: 0 <= j < |ext[1..]| ==> ext[1..][j] == ext[j + 1];
  }

  // ---------------------------------------------------------------------------
  // matches_search

  /** The search branch of `matches_search` on the lower-cased name `n` and
      lower-cased search `b`: with a wildcard, a full match of the converted
      pattern (against the whole name when the search has an extension,
      against both stems otherwise); without one, equality or substring when
      the search has an extension, else a stem or name substring or prefix. */
  predicate SearchHit(fullMatch: FullMatch, n: string, b: string) {
    var bStem := SplitExt(b).0;
    var bExt := SplitExt(b).1;
    var nStem := SplitExt(n).0;
    if '*' in b || '%' in b then
      if bExt != [] then
        ConvertWildcardToRegex(b).Some? && fullMatch(ConvertWildcardToRegex(b).value, n)
      else
        ConvertWildcardToRegex(bStem).Some? && fullMatch(ConvertWildcardToRegex(bStem).value, nStem)
    else if bExt != [] then
      b == n || Contains(n, b)
    else
      Contains(nStem, bStem) || Contains(n, bStem) || StartsWith(nStem, bStem)
  }

  /** `matches_search(nombre, busqueda, tipos)`; an empty `search` or `types`
      stands for both `None` and the empty value, which the source treats
      alike. False for an empty name; a search hit answers true at once;
      otherwise a non-empty type list keeps only names whose lower-cased
      extension it lists. */
  function MatchesSearch(fullMatch: FullMatch, name: string, search: string, types: seq<string>): (r: bool)
    ensures name == [] ==> !r
    ensures name != [] && types == [] ==> r
    ensures name != [] && Extension(Lower(name)) in types ==> r
    ensures name != [] && !r ==> search == [] || !SearchHit(fullMatch, Lower(name), Lower(search))
    ensures (name != [] && types != [] && Extension(Lower(name)) !in types
             && (search == [] || !SearchHit(fullMatch, Lower(name), Lower(search)))) ==> !r
  {
    if name == [] then false
    else
      var n := Lower(name);
      if search != [] && SearchHit(fullMatch, n, Lower(search)) then true
      else if types != [] && Extension(n) !in types then false
      else true
  }

  /** Without a search, the type list alone decides a non-empty name. */
  lemma TypeListDecides(fullMatch: FullMatch, name: string, types: seq<string>)
    requires name != [] && types != []
    ensures MatchesSearch(fullMatch, name, [], types) <==> Extension(Lower(name)) in types
  {
  }

  /** A search can only widen what the type list accepts. */
  lemma SearchOnlyWidens(fullMatch: FullMatch, name: string, search: string, types: seq<string>)
    ensures MatchesSearch(fullMatch, name, [], types) ==> MatchesSearch(fullMatch, name, search, types)
  {
  }

  // ---------------------------------------------------------------------------
  // apply_filters

  /** `tipo_detectado`: the detected type of the content, `None` for none. */
  function Detected(data: seq<byte>): (t: Option<string>)
    ensures data == [] ==> t == None
    ensures data != [] ==> t == Detection.DetectFileType(data)
  {
    if data != [] then Detection.DetectFileType(data) else None
  }

  /** `final_type`: the lower-cased extension of the name, else the detected
      type. */
  function FinalType(name: string, data: seq<byte>): (t: Option<string>)
    ensures Extension(name) != [] ==> t == Some(Lower(Extension(name)))
    ensures Extension(name) == [] ==> t == Detected(data)
  {
    var ext := Lower(Extension(name));
    if ext != [] then Some(ext) else Detected(data)
  }

  /** The verdict of the filter chain before its final search step. */
  predicate Admitted(name: string, data: seq<byte>, types: seq<string>, filterSystem: bool) {
    name != []
    && !(filterSystem && Config.IsSystemFile(name))
    && !(filterSystem && Config.IsSystemDirectory(name))
    && (types == [] || (FinalType(name, data).Some? && FinalType(name, data).value != []
                        && FinalType(name, data).value in types))
  }

  /** `apply_filters`: `(passes, detected type)`. Empty names and, when system
      filtering is on, system files and paths in system directories fail with
      no type; with a type list the final type must exist and be listed;
      last comes the search, run through `matches_search` without types. */
  function ApplyFilters(fullMatch: FullMatch, name: string, data: seq<byte>, types: seq<string>,
                        search: string, filterSystem: bool): (r: (bool, Option<string>))
    ensures r.0 <==> Admitted(name, data, types, filterSystem)
    ensures r.0 ==> r.1 == Detected(data)
    ensures name == [] ==> r == (false, None)
    ensures filterSystem && Config.IsSystemFile(name) ==> r == (false, None)
    ensures filterSystem && Config.IsSystemDirectory(name) ==> r == (false, None)
    ensures name != [] && !(filterSystem && (Config.IsSystemFile(name) || Config.IsSystemDirectory(name)))
            && types != [] ==>
              var t := FinalType(name, data);
              ((t.None? || t.value == []) ==> r == (false, None))
              && (t.Some? && t.value != [] && t.value !in types ==> r == (false, Detected(data)))
  {
    if name == [] then (false, None)
    else if filterSystem && Config.IsSystemFile(name) then (false, None)
    else if filterSystem && Config.IsSystemDirectory(name) then (false, None)
    else
      var detected := Detected(data);
      if types != [] && (FinalType(name, data).None? || FinalType(name, data).value == []) then (false, None)
      else if types != [] && FinalType(name, data).value !in types then (false, detected)
      else if search != [] && !MatchesSearch(fullMatch, name, search, []) then (false, detected)
      else (true, detected)
  }

  /** The search argument never changes the verdict nor the reported type:
      `matches_search` without types accepts every non-empty name. */
  lemma SearchNeverRejects(fullMatch: FullMatch, name: string, data: seq<byte>, types: seq<string>,
                           search: string, filterSystem: bool)
    ensures ApplyFilters(fullMatch, name, data, types, search, filterSystem)
         == ApplyFilters(fullMatch, name, data, types, [], filterSystem)
  {
  }
}
