/** File type detection by magic number (services/detection_service.py): the
    signature table is walked in declaration order, and the first row one of
    whose prefixes starts the data names the type. Rows whose prefix is empty
    stand for text types and fire when the head of the data looks like text. */
module Detection {
  import opened Strings
  import Config
  import EncodingUtils

  /** The labels whose empty prefix means "recognised as text". */
  const TextTypes: seq<string> := ["txt", "csv", "log", "ini", "cfg", "conf"]

  /** The span the text test looks at, `data[:1024]`. */
  function Head(data: seq<byte>): (h: seq<byte>)
    ensures |h| <= 1024 && StartsWith(data, h)
    ensures |data| <= 1024 ==> h == data
  {
    if |data| <= 1024 then data else data[..1024]
  }

  /** `is_text(data[:1024], threshold=0.8)`. */
  predicate HeadIsText(data: seq<byte>) {
    EncodingUtils.LooksLikeText(Head(data), 0.8)
  }

  /** One step of the inner loop: a non-empty prefix that starts the data, or
      the empty prefix of a text type when the head is text. */
  predicate MagicFires(fileType: string, magic: seq<byte>, data: seq<byte>) {
    (|magic| > 0 && StartsWith(data, magic))
    || (|magic| == 0 && fileType in TextTypes && HeadIsText(data))
  }

  /** A row fires when one of its prefixes does; the row's label is then returned. */
  predicate RowFires(row: Config.Signature, data: seq<byte>) {
    exists m :: 0 <= m < |row.magics| && MagicFires(row.fileType, row.magics[m], data)
  }

  /** The inner `for firma in firmas` loop: does any prefix of the row fire? */
  function ScanMagics(fileType: string, magics: seq<seq<byte>>, data: seq<byte>): (r: bool)
    ensures r <==> exists m :: 0 <= m < |magics| && MagicFires(fileType, magics[m], data)
  {
    if magics == [] then false
    else if MagicFires(fileType, magics[0], data) then true
    else
      var r := ScanMagics(fileType, magics[1..], data);
      assert forall m :: 1 <= m < |magics| ==> magics[1..][m - 1] == magics[m];
      r
  }

  /** The outer `for tipo, firmas in SIGNATURES.items()` loop: the position of
      the first row that fires, or `|table|` when none does. */
  function FirstFiringRow(table: seq<Config.Signature>, data: seq<byte>): (k: nat)
    ensures k <= |table|
    ensures k < |table| ==> RowFires(table[k], data)
    ensures forall j :: 0 <= j < k ==> !RowFires(table[j], data)
  {
    if table == [] then 0
    else if ScanMagics(table[0].fileType, table[0].magics, data) then 0
    else
      var k := FirstFiringRow(table[1..], data);
      assert forall j :: 1 <= j < |table| ==> table[1..][j - 1] == table[j];
      k + 1
  }

  /** `detect_file_type`: `None` for fewer than four bytes; otherwise the label
      of the first firing row; otherwise `txt` when the head is text; otherwise
      `None`. */
  function DetectFileType(data: seq<byte>): (r: Option<string>)
    ensures |data| < 4 ==> r == None
    ensures |data| >= 4 && HeadIsText(data) ==> r == Some("txt")
    ensures r.Some? && r.value != "txt" ==>
              exists i :: 0 <= i < |Config.SignatureTable| && r.value == Config.SignatureTable[i].fileType
                          && RowFires(Config.SignatureTable[i], data)
  {
    if |data| < 4 then None
    else
      var k := FirstFiringRow(Config.SignatureTable, data);
      if k < |Config.SignatureTable| then
        TextRowFires(data);
        Some(Config.SignatureTable[k].fileType)
      else if HeadIsText(data) then Some("txt")
      else None
  }

  // ---------------------------------------------------------------------------
  // Properties

  /** The `txt` row comes first and fires on text, so text is always `txt`. */
  lemma TextRowFires(data: seq<byte>)
    ensures HeadIsText(data) ==> RowFires(Config.SignatureTable[0], data)
    ensures HeadIsText(data) ==> FirstFiringRow(Config.SignatureTable, data) == 0
  {
    if HeadIsText(data) {
      assert "txt" in TextTypes;
      assert Config.SignatureTable[0].magics[0] == [];
      assert MagicFires("txt", [], data);
      assert RowFires(Config.SignatureTable[0], data);
    }
  }

  /** The trailing "no signature but text" fallback is never reached: text data
      is already claimed by the `txt` row. */
  lemma FallbackUnreachable(data: seq<byte>)
    requires FirstFiringRow(Config.SignatureTable, data) == |Config.SignatureTable|
    ensures !HeadIsText(data)
  {
    TextRowFires(data);
  }

  /** On data whose head is not text, a row fires exactly when one of its
      non-empty prefixes starts the data. */
  lemma NonTextRowFires(row: Config.Signature, data: seq<byte>)
    requires !HeadIsText(data)
    ensures RowFires(row, data) <==>
              exists m :: 0 <= m < |row.magics| && |row.magics[m]| > 0 && StartsWith(data, row.magics[m])
  {
  }

  /** Binary data with no known prefix is not recognised. */
  lemma UnknownBinaryIsNone(data: seq<byte>)
    requires !HeadIsText(data)
    requires forall i, m :: 0 <= i < |Config.SignatureTable| && 0 <= m < |Config.SignatureTable[i].magics| &&
               |Config.SignatureTable[i].magics[m]| > 0
               ==> !StartsWith(data, Config.SignatureTable[i].magics[m])
    ensures DetectFileType(data) == None
  {
  }

  /** Row `j` of `t` is shadowed by the earlier row `c`: the prefixes of row
      `j` are a run of row `c`'s prefixes starting at position `lo`, and an
      empty prefix of row `j` can fire in row `c` too. */
  predicate ShadowedBy(t: seq<Config.Signature>, j: int, c: int, lo: int) {
    0 <= c < j < |t| && 0 <= lo <= |t[c].magics|
    && t[j].magics <= t[c].magics[lo..]
    && (t[c].fileType in TextTypes || forall m :: 0 <= m < |t[j].magics| ==> |t[j].magics[m]| > 0)
  }

  /** A shadowed row never fires first: whenever it fires, its shadowing row
      fires too, and that row comes earlier. */
  lemma ShadowedNeverFirst(t: seq<Config.Signature>, data: seq<byte>, j: int, c: int, lo: int)
    requires ShadowedBy(t, j, c, lo)
    ensures FirstFiringRow(t, data) != j
  {
  }

  /** The labels `detect_file_type` can return: twelve of the 23 rows are
      shadowed by an earlier row with the same prefixes (`docx`, `xls`,
      `xlsx`, `ppt`, `pptx` by `doc`; `jpeg` by `jpg`; `htm` by `html`; `ini`
      by `json`; `csv`, `log`, `cfg`, `conf` by `txt`). */
  const DetectableTypes: seq<string> :=
    ["txt", "pdf", "doc", "zip", "rar", "jpg", "png", "gif", "html", "xml", "json"]

  /** `docx`, `xlsx` and `pptx` are shadowed by `doc`. */
  lemma OpenXmlRowsShadowed()
    ensures ShadowedBy(Config.SignatureTable, 3, 2, 1) && ShadowedBy(Config.SignatureTable, 5, 2, 1)
    ensures ShadowedBy(Config.SignatureTable, 7, 2, 1)
  {
  }

  /** `xls` and `ppt` are shadowed by `doc`. */
  lemma OleRowsShadowed()
    ensures ShadowedBy(Config.SignatureTable, 4, 2, 0) && ShadowedBy(Config.SignatureTable, 6, 2, 0)
  {
  }

  /** `jpeg` is shadowed by `jpg`, `htm` by `html` and `ini` by `json`. */
  lemma AliasRowsShadowed()
    ensures ShadowedBy(Config.SignatureTable, 11, 10, 0) && ShadowedBy(Config.SignatureTable, 15, 14, 0)
    ensures ShadowedBy(Config.SignatureTable, 20, 17, 1)
  {
  }

  /** `csv`, `log`, `cfg` and `conf` are shadowed by `txt`. */
  lemma TextRowsShadowed()
    ensures ShadowedBy(Config.SignatureTable, 18, 0, 0) && ShadowedBy(Config.SignatureTable, 19, 0, 0)
    ensures ShadowedBy(Config.SignatureTable, 21, 0, 0) && ShadowedBy(Config.SignatureTable, 22, 0, 0)
  {
  }

  /** The first firing row is never a shadowed one. */
  lemma FirstFiringRowUnshadowed(data: seq<byte>)
    ensures FirstFiringRow(Config.SignatureTable, data) !in {3, 4, 5, 6, 7, 11, 15, 18, 19, 20, 21, 22}
  {
    var t := Config.SignatureTable;
    OpenXmlRowsShadowed();
    OleRowsShadowed();
    AliasRowsShadowed();
    TextRowsShadowed();
    ShadowedNeverFirst(t, data, 3, 2, 1);
    ShadowedNeverFirst(t, data, 4, 2, 0);
    ShadowedNeverFirst(t, data, 5, 2, 1);
    ShadowedNeverFirst(t, data, 6, 2, 0);
    ShadowedNeverFirst(t, data, 7, 2, 1);
    ShadowedNeverFirst(t, data, 11, 10, 0);
    ShadowedNeverFirst(t, data, 15, 14, 0);
    ShadowedNeverFirst(t, data, 20, 17, 1);
    ShadowedNeverFirst(t, data, 18, 0, 0);
    ShadowedNeverFirst(t, data, 19, 0, 0);
    ShadowedNeverFirst(t, data, 21, 0, 0);
    ShadowedNeverFirst(t, data, 22, 0, 0);
  }

  /** Every label `detect_file_type` returns is one of `DetectableTypes`. */
  lemma DetectedTypeIsDetectable(data: seq<byte>)
    ensures DetectFileType(data).Some? ==> DetectFileType(data).value in DetectableTypes
  {
    FirstFiringRowUnshadowed(data);
    UnshadowedLabels();
  }

  /** The labels of the rows that are not shadowed. */
  lemma UnshadowedLabels()
    ensures forall k :: 0 <= k < |Config.SignatureTable| && k !in {3, 4, 5, 6, 7, 11, 15, 18, 19, 20, 21, 22}
              ==> Config.SignatureTable[k].fileType in DetectableTypes
  {
  }

  /** On data whose head is not text, the first row with a non-empty prefix
      starting the data is the first firing row. */
  lemma FirstFiringRowByMagic(t: seq<Config.Signature>, data: seq<byte>, i: int, m: int)
    requires !HeadIsText(data)
    requires 0 <= i < |t| && 0 <= m < |t[i].magics|
    requires |t[i].magics[m]| > 0 && StartsWith(data, t[i].magics[m])
    requires forall j, n :: 0 <= j < i && 0 <= n < |t[j].magics| && |t[j].magics[n]| > 0
               ==> !StartsWith(data, t[j].magics[n])
    ensures FirstFiringRow(t, data) == i
  {
    assert MagicFires(t[i].fileType, t[i].magics[m], data);
  }

  /** Binary data that is not text and starts with a prefix of row `i`, when no
      earlier row has a non-empty prefix starting it, is labelled with row
      `i`'s label. */
  lemma DetectByMagic(data: seq<byte>, i: int, m: int)
    requires |data| >= 4 && !HeadIsText(data)
    requires 0 <= i < |Config.SignatureTable| && 0 <= m < |Config.SignatureTable[i].magics|
    requires |Config.SignatureTable[i].magics[m]| > 0 && StartsWith(data, Config.SignatureTable[i].magics[m])
    requires forall j, n :: 0 <= j < i && 0 <= n < |Config.SignatureTable[j].magics| &&
               |Config.SignatureTable[j].magics[n]| > 0
               ==> !StartsWith(data, Config.SignatureTable[j].magics[n])
    ensures DetectFileType(data) == Some(Config.SignatureTable[i].fileType)
  {
    FirstFiringRowByMagic(Config.SignatureTable, data, i, m);
  }

  /** A bare ZIP local header (four bytes, too short to be text) is labelled
      `doc`, the first row that lists that prefix. */
  lemma ZipHeaderIsDoc()
    ensures DetectFileType(Config.ZipMagic) == Some("doc")
  {
    var d := Config.ZipMagic;
    var t := Config.SignatureTable;
    assert t[0].magics == [[]] && t[1].magics == [[0x25, 0x50, 0x44, 0x46]];
    assert t[2].magics[1] == d;
    assert !HeadIsText(d);
    FirstFiringRowByMagic(t, d, 2, 1);
  }
}
