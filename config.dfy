/** The scan constants, the file-signature table, and the two rules that decide
    whether a name belongs to the operating system (models/config.py). */
module Config {
  import opened Strings

  // ---------------------------------------------------------------------------
  // Scan constants

  const BlockSize: nat := 4096
  const MinTextLen: nat := 200
  const WindowSize: nat := 512
  const Overlap: nat := 256
  /** The encodings tried, in order, by the text decoder and the reconstruction pass. */
  const Encodings: seq<string> := ["utf-8", "latin-1", "windows-1252", "cp850", "ascii"]

  /** The values a `Config()` object holds: copies of the constants above. */
  datatype ScanConfig = ScanConfig(
    blockSize: nat, minTextLen: nat, windowSize: nat, overlap: nat, encodings: seq<string>)

  /** `Config()`: every field holds the module constant of the same name; the
      window step is half a window and a block holds eight windows. */
  function NewConfig(): (c: ScanConfig)
    ensures c.blockSize == 8 * c.windowSize && c.overlap * 2 == c.windowSize
    ensures c.minTextLen < c.windowSize
    ensures |c.encodings| == 5 && c.encodings[0] == "utf-8" && c.encodings[4] == "ascii"
    ensures c.blockSize == 4096 && c.minTextLen == 200 && c.windowSize == 512 && c.overlap == 256
    ensures c.encodings == ["utf-8", "latin-1", "windows-1252", "cp850", "ascii"]
  {
    ScanConfig(BlockSize, MinTextLen, WindowSize, Overlap, Encodings)
  }

  // ---------------------------------------------------------------------------
  // File signatures (magic numbers), in the table's declaration order

  /** One row of the signature table: a type label and its magic prefixes. The
      empty prefix marks a type recognised by its text content only. */
  datatype Signature = Signature(fileType: string, magics: seq<seq<byte>>)

  const OleMagic: seq<byte> := [0xD0, 0xCF, 0x11, 0xE0]
  const ZipMagic: seq<byte> := [0x50, 0x4B, 0x03, 0x04]        // "PK\x03\x04"
  const ZipEndMagic: seq<byte> := [0x50, 0x4B, 0x05, 0x06]     // "PK\x05\x06"
  const JpegMagic: seq<byte> := [0xFF, 0xD8, 0xFF]
  const HtmlMagics: seq<seq<byte>> := [
    [0x3C, 0x68, 0x74, 0x6D, 0x6C],                                        // "<html"
    [0x3C, 0x21, 0x44, 0x4F, 0x43, 0x54, 0x59, 0x50, 0x45, 0x20, 0x68, 0x74, 0x6D, 0x6C], // "<!DOCTYPE html"
    [0x3C, 0x48, 0x54, 0x4D, 0x4C]                                         // "<HTML"
  ]

  const SignatureTable: seq<Signature> := [
    Signature("txt", [[]]),
    Signature("pdf", [[0x25, 0x50, 0x44, 0x46]]),                           // "%PDF"
    Signature("doc", [OleMagic, ZipMagic]),
    Signature("docx", [ZipMagic]),
    Signature("xls", [OleMagic, ZipMagic]),
    Signature("xlsx", [ZipMagic]),
    Signature("ppt", [OleMagic]),
    Signature("pptx", [ZipMagic]),
    Signature("zip", [ZipMagic, ZipEndMagic]),
    Signature("rar", [[0x52, 0x61, 0x72, 0x21, 0x1A, 0x07],                 // "Rar!\x1a\x07"
                      [0x52, 0x61, 0x72, 0x21, 0x1A, 0x07, 0x00]]),
    Signature("jpg", [JpegMagic]),
    Signature("jpeg", [JpegMagic]),
    Signature("png", [[0x89, 0x50, 0x4E, 0x47, 0x0D, 0x0A, 0x1A, 0x0A]]),
    Signature("gif", [[0x47, 0x49, 0x46, 0x38, 0x37, 0x61],                 // "GIF87a"
                      [0x47, 0x49, 0x46, 0x38, 0x39, 0x61]]),               // "GIF89a"
    Signature("html", HtmlMagics),
    Signature("htm", HtmlMagics),
    Signature("xml", [[0x3C, 0x3F, 0x78, 0x6D, 0x6C], [0x3C, 0x78, 0x6D, 0x6C]]), // "<?xml", "<xml"
    Signature("json", [[0x7B], [0x5B]]),                                    // "{", "["
    Signature("csv", [[]]),
    Signature("log", [[]]),
    Signature("ini", [[0x5B]]),                                             // "["
    Signature("cfg", [[]]),
    Signature("conf", [[]])
  ]

  /** The labels of the table, in table order. */
  function Labels(table: seq<Signature>): (r: seq<string>)
    ensures |r| == |table| && forall i :: 0 <= i < |table| ==> r[i] == table[i].fileType
  {
    if table == [] then [] else [table[0].fileType] + Labels(table[1..])
  }

  /** `FileSignatures.get_all_types`: the 23 declared labels in table order,
      starting with `txt`, each listed once. */
  function GetAllTypes(): (r: seq<string>)
    ensures |r| == 23 && r[0] == "txt"
    ensures forall i :: 0 <= i < |r| ==> r[i] == SignatureTable[i].fileType
  {
    Labels(SignatureTable)
  }

  /** `FileSignatures.get_signatures`: the magic prefixes of a known label, the
      empty list for any other string. */
  function GetSignatures(fileType: string): (r: seq<seq<byte>>)
    ensures forall i :: (0 <= i < |SignatureTable| && SignatureTable[i].fileType == fileType &&
                         forall j :: 0 <= j < i ==> SignatureTable[j].fileType != fileType) ==>
              r == SignatureTable[i].magics
    ensures (forall i :: 0 <= i < |SignatureTable| ==> SignatureTable[i].fileType != fileType) ==> r == []
  {
    LookupMagics(SignatureTable, fileType)
  }

  /** No label appears twice in the table, so a label's row is its first row. */
  lemma LabelsDistinct()
    ensures forall i, j :: 0 <= i < j < |SignatureTable| ==>
              SignatureTable[i].fileType != SignatureTable[j].fileType
  {
    LabelsDistinctFrom(0, 8);
    LabelsDistinctFrom(8, 16);
    LabelsDistinctFrom(16, 23);
  }

  /** The rows from `lo` (inclusive) to `hi` (exclusive) carry labels that no
      later row repeats; checked a band of rows at a time. */
  lemma LabelsDistinctFrom(lo: int, hi: int)
    requires (lo, hi) == (0, 8) || (lo, hi) == (8, 16) || (lo, hi) == (16, 23)
    ensures forall i, j :: lo <= i < hi && i < j < |SignatureTable| ==>
              SignatureTable[i].fileType != SignatureTable[j].fileType
  {
  }

  /** The magics of the first row labelled `fileType`. */
  function LookupMagics(table: seq<Signature>, fileType: string): (r: seq<seq<byte>>)
    ensures (forall i :: 0 <= i < |table| ==> table[i].fileType != fileType) ==> r == []
    ensures forall i :: (0 <= i < |table| && table[i].fileType == fileType &&
                         forall j :: 0 <= j < i ==> table[j].fileType != fileType) ==> r == table[i].magics
  {
    if table == [] then []
    else if table[0].fileType == fileType then table[0].magics
    else
      var r := LookupMagics(table[1..], fileType);
      assert forall i :: 1 <= i < |table| ==> table[1..][i - 1] == table[i];
      r
  }

  // ---------------------------------------------------------------------------
  // System files

  const SystemFileNames: seq<string> := [
    "desktop.ini", "thumbs.db", "$mft", "$logfile", "$volume",
    "ntuser.dat", "ntuser.ini", "boot.ini", "system.ini", "win.ini",
    "pagefile.sys", "hiberfil.sys", "swapfile.sys", "ntldr", "bootmgr",
    "bootsect.bak", "bootfont.bin", "bootsect.dos", "io.sys", "msdos.sys",
    "config.sys", "autoexec.bat", "command.com", "ntdetect.com"
  ]

  const SystemExtensions: seq<string> := [".sys", ".dll", ".exe", ".drv", ".vxd", ".386"]

  /** The early-return search `for x in needles: if x.lower() in s: return True`;
      every listed name is already lower case, so `x.lower()` is `x`. */
  function ContainsAnyOf(s: string, needles: seq<string>): (r: bool)
    ensures r <==> exists k :: 0 <= k < |needles| && Contains(s, needles[k])
  {
    if needles == [] then false
    else if Contains(s, needles[0]) then true
    else
      var r := ContainsAnyOf(s, needles[1..]);
      assert forall k :: 1 <= k < |needles| ==> needles[1..][k - 1] == needles[k];
      r
  }

  /** The early-return search `for x in suffixes: if s.endswith(x): return True`. */
  function EndsWithAnyOf(s: string, suffixes: seq<string>): (r: bool)
    ensures r <==> exists k :: 0 <= k < |suffixes| && EndsWith(s, suffixes[k])
  {
    if suffixes == [] then false
    else if EndsWith(s, suffixes[0]) then true
    else
      var r := EndsWithAnyOf(s, suffixes[1..]);
      assert forall k :: 1 <= k < |suffixes| ==> suffixes[1..][k - 1] == suffixes[k];
      r
  }

  /** `SystemFiles.is_system_file`: false for the empty name; otherwise true
      exactly when the lower-cased name contains a listed system file name
      anywhere, starts with `$`, or ends with a system extension. */
  function IsSystemFile(filename: string): (r: bool)
    ensures filename == [] ==> !r
    ensures filename != [] ==>
      (r <==> (exists k :: 0 <= k < |SystemFileNames| && Contains(Lower(filename), SystemFileNames[k]))
              || StartsWith(Lower(filename), "$")
              || (exists k :: 0 <= k < |SystemExtensions| && EndsWith(Lower(filename), SystemExtensions[k])))
  {
    if filename == [] then false
    else
      var lower := Lower(filename);
      ContainsAnyOf(lower, SystemFileNames) || StartsWith(lower, "$") || EndsWithAnyOf(lower, SystemExtensions)
  }

  /** The match is a substring test, not a whole-name test: a user file whose
      name merely contains `win.ini` is treated as a system file. */
  lemma SubstringSystemFile()
    ensures IsSystemFile("my_win.ini_notes.txt")
  {
    var n := "my_win.ini_notes.txt";
    assert Lower(n) == n;
    assert SystemFileNames[9] == "win.ini";
    assert OccursAt(n, "win.ini", 3);
  }

  // ---------------------------------------------------------------------------
  // System directories

  const SystemDirectoryNames: seq<string> := [
    "program files", "program files (x86)", "programdata", "windows",
    "windows\\system32", "windows\\syswow64", "windows\\winsxs", "windows\\assembly",
    "windows\\installer", "windows\\temp", "windows\\tmp", "$recycle.bin",
    "system volume information", "recovery", "boot", "perflogs",
    "programdata\\microsoft", "programdata\\application data"
  ]

  /** The path as the rule sees it: lower-cased, with `/` turned into `\`. */
  function NormalizePath(path: string): (r: string)
    ensures |r| == |path|
    ensures forall i :: 0 <= i < |r| ==> r[i] != '/'
    ensures forall i :: 0 <= i < |r| ==> (r[i] == '\\' <==> path[i] == '\\' || path[i] == '/')
    ensures forall i :: 0 <= i < |r| ==> r[i] == (if path[i] == '/' then '\\' else LowerChar(path[i]))
  {
    MapChars(Lower(path), c => if c == '/' then '\\' else c)
  }

  /** `x` occurs at `j` and `$` matches right after it: at the very end of the
      string, or before a final newline. */
  predicate EndsAt(p: string, x: string, j: int) {
    OccursAt(p, x, j) && (j + |x| == |p| || (j + |x| + 1 == |p| && p[|p| - 1] == '\n'))
  }

  /** `x` followed by `$` matches somewhere in `p`. */
  predicate EndsWithDollar(p: string, x: string) {
    EndsWith(p, x) || EndsWith(p, x + "\n")
  }

  /** The five patterns tried for one directory `d`, in source order:
      `[a-z]:\d\`, `[a-z]:\d$`, `\d\`, `\d$`, `^d\`. */
  predicate MatchesDirectoryPattern(p: string, d: string) {
    (exists i :: 0 <= i < |p| && 'a' <= p[i] <= 'z' && OccursAt(p, ":\\" + d + "\\", i + 1))
    || (exists i :: 0 <= i < |p| && 'a' <= p[i] <= 'z' && EndsAt(p, ":\\" + d, i + 1))
    || Contains(p, "\\" + d + "\\")
    || (exists j :: 0 <= j <= |p| && EndsAt(p, "\\" + d, j))
    || StartsWith(p, d + "\\")
  }

  /** The early-return search over the directory list (the listed names are
      already lower case, so `sys_dir.lower()` is the name itself). */
  function MatchesAnyDirectory(p: string, dirs: seq<string>): (r: bool)
    ensures r <==> exists k :: 0 <= k < |dirs| && MatchesDirectoryPattern(p, dirs[k])
  {
    if dirs == [] then false
    else if MatchesDirectoryPattern(p, dirs[0]) then true
    else
      var r := MatchesAnyDirectory(p, dirs[1..]);
      assert forall k :: 1 <= k < |dirs| ==> dirs[1..][k - 1] == dirs[k];
      r
  }

  /** `SystemDirectories.is_system_directory`. */
  function IsSystemDirectory(filepath: string): (r: bool)
    ensures filepath == [] ==> !r
    ensures r <==> filepath != [] && (exists k :: 0 <= k < |SystemDirectoryNames|
                                        && MatchesDirectoryPattern(NormalizePath(filepath), SystemDirectoryNames[k]))
  {
    if filepath == [] then false
    else MatchesAnyDirectory(NormalizePath(filepath), SystemDirectoryNames)
  }

  /** `[a-z]:\d\` matching implies `\d\` matching one position later. */
  lemma DriveSeparatorPattern(p: string, d: string, i: int)
    requires 0 <= i < |p| && OccursAt(p, ":\\" + d + "\\", i + 1)
    ensures OccursAt(p, "\\" + d + "\\", i + 2)
  {
    var x := ":\\" + d + "\\";
    assert x[1..] == "\\" + d + "\\";
    assert p[i + 2..i + 1 + |x|] == p[i + 1..i + 1 + |x|][1..];
  }

  /** `[a-z]:\d$` matching implies `\d$` matching one position later. */
  lemma DriveEndPattern(p: string, d: string, i: int)
    requires 0 <= i < |p| && EndsAt(p, ":\\" + d, i + 1)
    ensures EndsAt(p, "\\" + d, i + 2)
  {
    var x := ":\\" + d;
    assert x[1..] == "\\" + d;
    assert p[i + 2..i + 1 + |x|] == p[i + 1..i + 1 + |x|][1..];
  }

  /** `x$` matches at some position exactly when `p` ends with `x`, or with
      `x` followed by one newline. */
  lemma EndsAtDollar(p: string, x: string)
    ensures (exists j :: 0 <= j <= |p| && EndsAt(p, x, j)) <==> EndsWithDollar(p, x)
  {
    if j :| 0 <= j <= |p| && EndsAt(p, x, j) {
      EndsAtGivesDollar(p, x, j);
    }
    if EndsWithDollar(p, x) {
      var j := DollarGivesEndsAt(p, x);
    }
  }

  /** A match of `x$` at `j` means `p` ends with `x`, or with `x` and a newline. */
  lemma EndsAtGivesDollar(p: string, x: string, j: int)
    requires 0 <= j <= |p| && EndsAt(p, x, j)
    ensures EndsWithDollar(p, x)
  {
    if j + |x| != |p| {
      assert p[j..] == x + "\n";
      assert EndsWith(p, x + "\n");
    } else {
      assert p[j..] == p[j..j + |x|];
      assert EndsWith(p, x);
    }
  }

  /** A string ending with `x` (and possibly one newline) matches `x$`. */
  lemma DollarGivesEndsAt(p: string, x: string) returns (j: int)
    requires EndsWithDollar(p, x)
    ensures 0 <= j <= |p| && EndsAt(p, x, j)
  {
    if EndsWith(p, x) {
      j := |p| - |x|;
      assert p[j..j + |x|] == p[j..];
      assert OccursAt(p, x, j);
    } else {
      j := |p| - |x| - 1;
      assert p[j..j + |x|] == p[j..][..|x|];
      assert OccursAt(p, x, j);
    }
  }

  /** The two drive-letter patterns add nothing: a directory matches exactly
      when it appears between two separators, after a final separator (before
      an optional final newline), or at the start followed by a separator. */
  lemma DirectoryPatternSimplified(p: string, d: string)
    ensures MatchesDirectoryPattern(p, d) <==>
      Contains(p, "\\" + d + "\\") || EndsWithDollar(p, "\\" + d) || StartsWith(p, d + "\\")
  {
    EndsAtDollar(p, "\\" + d);
    if i :| 0 <= i < |p| && 'a' <= p[i] <= 'z' && OccursAt(p, ":\\" + d + "\\", i + 1) {
      DriveSeparatorPattern(p, d, i);
    }
    if i :| 0 <= i < |p| && 'a' <= p[i] <= 'z' && EndsAt(p, ":\\" + d, i + 1) {
      DriveEndPattern(p, d, i);
    }
  }

  /** Every one of the five patterns needs a `\` in the normalised path. */
  lemma PatternNeedsSeparator(p: string, d: string)
    requires MatchesDirectoryPattern(p, d)
    ensures exists i :: 0 <= i < |p| && p[i] == '\\'
  {
    DirectoryPatternSimplified(p, d);
    if Contains(p, "\\" + d + "\\") {
      var i :| 0 <= i <= |p| && OccursAt(p, "\\" + d + "\\", i);
      assert p[i] == ("\\" + d + "\\")[0];
    } else if EndsWith(p, "\\" + d) {
      assert p[|p| - |d| - 1] == ("\\" + d)[0];
    } else if EndsWith(p, "\\" + d + "\n") {
      assert p[|p| - |d| - 2] == ("\\" + d + "\n")[0];
    } else {
      assert p[|d|] == (d + "\\")[|d|];
    }
  }

  /** A bare file name, with neither `\` nor `/`, is never in a system directory. */
  lemma BareNameNotSystemDirectory(filepath: string)
    requires forall i :: 0 <= i < |filepath| ==> filepath[i] != '\\' && filepath[i] != '/'
    ensures !IsSystemDirectory(filepath)
  {
    var p := NormalizePath(filepath);
    forall k | 0 <= k < |SystemDirectoryNames|
      ensures !MatchesDirectoryPattern(p, SystemDirectoryNames[k])
    {
      if MatchesDirectoryPattern(p, SystemDirectoryNames[k]) {
        PatternNeedsSeparator(p, SystemDirectoryNames[k]);
      }
    }
  }

  /** Normalising lower-cases every letter of the path. */
  lemma NormalizeWindowsExample()
    ensures NormalizePath("C:\\Windows\\a.txt") == "c:\\windows\\a.txt"
  {
    var path := "C:\\Windows\\a.txt";
    var p := NormalizePath(path);
    forall k | 0 <= k < |p| ensures p[k] == "c:\\windows\\a.txt"[k] {
      assert LowerChar(path[k]) == "c:\\windows\\a.txt"[k];
    }
  }

  /** A file under `Windows`, written in any case, is in a system directory. */
  lemma WindowsIsSystemDirectory()
    ensures IsSystemDirectory("C:\\Windows\\a.txt")
  {
    NormalizeWindowsExample();
    var p := "c:\\windows\\a.txt";
    var x := "\\" + SystemDirectoryNames[3] + "\\";
    assert x == "\\windows\\";
    assert p[2..2 + |x|] == x;
    assert OccursAt(p, x, 2);
    assert MatchesDirectoryPattern(p, SystemDirectoryNames[3]);
  }

  /** In a path with a single separator, at `b`, a directory can only match as
      the whole part after it (possibly before a final newline) or the whole
      part before it. */
  lemma SingleSeparatorMatch(p: string, d: string, b: int)
    requires 0 <= b < |p| && forall i :: 0 <= i < |p| ==> (p[i] == '\\' <==> i == b)
    requires MatchesDirectoryPattern(p, d)
    ensures d == p[b + 1..] || d + "\n" == p[b + 1..] || d == p[..b]
  {
    DirectoryPatternSimplified(p, d);
    NoDoubleSeparator(p, "\\" + d + "\\", b);
    if EndsWith(p, "\\" + d) {
      SeparatorEnd(p, "\\" + d, b);
      assert ("\\" + d)[1..] == d;
    } else if EndsWith(p, "\\" + d + "\n") {
      SeparatorEnd(p, "\\" + d + "\n", b);
      assert ("\\" + d + "\n")[1..] == d + "\n";
    } else {
      SeparatorStart(p, d, b);
    }
  }

  /** A path with one separator contains no piece that both starts and ends
      with one. */
  lemma NoDoubleSeparator(p: string, x: string, b: int)
    requires 0 <= b < |p| && forall i :: 0 <= i < |p| ==> (p[i] == '\\' <==> i == b)
    requires |x| >= 2 && x[0] == '\\' && x[|x| - 1] == '\\'
    ensures !Contains(p, x)
  {
    forall i | 0 <= i <= |p| && OccursAt(p, x, i) ensures false {
      OccursAtIndex(p, x, i, 0);
      OccursAtIndex(p, x, i, |x| - 1);
    }
  }

  /** When a path with one separator ends with a separator and `t`, the part
      after its separator is `t`. */
  lemma SeparatorEnd(p: string, x: string, b: int)
    requires 0 <= b < |p| && forall i :: 0 <= i < |p| ==> (p[i] == '\\' <==> i == b)
    requires |x| >= 1 && x[0] == '\\' && EndsWith(p, x)
    ensures p[b + 1..] == x[1..]
  {
    var j := |p| - |x|;
    assert p[j] == p[j..][0] == x[0];
    assert p[j..][1..] == p[j + 1..];
  }

  /** When a path with one separator starts with `d` and a separator, the part
      before its separator is `d`. */
  lemma SeparatorStart(p: string, d: string, b: int)
    requires 0 <= b < |p| && forall i :: 0 <= i < |p| ==> (p[i] == '\\' <==> i == b)
    requires StartsWith(p, d + "\\")
    ensures d == p[..b]
  {
    assert p[|d|] == (d + "\\")[|d|];
    assert p[..b] == (d + "\\")[..|d|];
  }

  /** Normalising a drive-root path lower-cases the drive letter only. */
  lemma NormalizeDriveRootExample()
    ensures NormalizePath("D:\\myprogram_notes.txt") == "d:\\myprogram_notes.txt"
  {
    var path := "D:\\myprogram_notes.txt";
    var p := NormalizePath(path);
    forall k | 0 <= k < |p| ensures p[k] == "d:\\myprogram_notes.txt"[k] {
      assert LowerChar(path[k]) == "d:\\myprogram_notes.txt"[k];
    }
  }

  /** Neither segment of `d:\myprogram_notes.txt` is a listed directory. */
  lemma DriveRootSegmentsUnlisted()
    ensures forall k :: 0 <= k < |SystemDirectoryNames| ==>
              SystemDirectoryNames[k] != "myprogram_notes.txt" && SystemDirectoryNames[k] != "d:"
              && SystemDirectoryNames[k] + "\n" != "myprogram_notes.txt"
  {
  }

  /** A file in the root of a drive whose name merely contains `program` is not
      in a system directory: the match needs a real path segment. */
  lemma ProgramSubstringNotSystemDirectory()
    ensures !IsSystemDirectory("D:\\myprogram_notes.txt")
  {
    NormalizeDriveRootExample();
    DriveRootSegmentsUnlisted();
    var p := "d:\\myprogram_notes.txt";
    assert forall i :: 0 <= i < |p| ==> (p[i] == '\\' <==> i == 2);
    assert p[..2] == "d:";
    assert p[3..] == "myprogram_notes.txt";
    forall k | 0 <= k < |SystemDirectoryNames|
      ensures !MatchesDirectoryPattern(p, SystemDirectoryNames[k])
    {
      if MatchesDirectoryPattern(p, SystemDirectoryNames[k]) {
        SingleSeparatorMatch(p, SystemDirectoryNames[k], 2);
      }
    }
  }
}
