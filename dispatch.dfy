/**
  The format dispatcher of `handleFile`'s `onload` callback: a
  first-match-wins cascade over the file's bytes, its name and its
  declared MIME type that selects exactly one handler.  The magic numbers
  are compared as bytes (the source decodes them with `TextDecoder` and
  compares the text with ASCII literals, which is the same test).
*/
module Dispatch {
  import opened Bytes
  import opened Strs

  /** The handler the cascade selects; Unknown is "base fields only". */
  datatype FormatKind =
    | DicomImage          // parseDicom
    | WindowsExecutable   // parseExe
    | OfficeZipDocument   // parseOfficeMetadata
    | GenericZipArchive   // parseZip
    | SqliteDatabase      // parseSqlite
    | SourceCodeFile      // parseCodeFile
    | RasterImage         // parseImageExif
    | PlainText           // parseText
    | AudioOrVideo        // parseMediaMetadata
    | Unknown             // displayMetadata(baseMeta)

  /**
    The outcome of the `onload` body.  Building the 4-byte view at offset
    128 throws a RangeError for buffers shorter than 132 bytes, before any
    handler runs.
  */
  datatype Outcome = RangeError | Handler(kind: FormatKind)

  /** "DICM", the DICOM PS3.10 prefix after the 128-byte preamble (section 7.1). */
  const DICM: seq<byte> := [0x44, 0x49, 0x43, 0x4D]
  const DICM_OFFSET: nat := 128
  /** "MZ", the MS-DOS header magic. */
  const MZ: seq<byte> := [0x4D, 0x5A]
  /** "PK\x03\x04", the ZIP local file header signature (APPNOTE section 4.3.7). */
  const ZIP_MAGIC: seq<byte> := [0x50, 0x4B, 0x03, 0x04]

  const OFFICE_EXTS: set<string> := {"docx", "xlsx", "pptx", "odt", "ods", "odp"}
  const SQLITE_EXTS: set<string> := {"sqlite", "db"}
  const CODE_EXTS: set<string> :=
    {"js", "ts", "py", "java", "c", "cpp", "h", "cs", "html", "css", "sh", "bash",
     "php", "rb", "go", "rs", "swift", "kt", "lua", "r"}
  const TEXT_EXTS: set<string> := {"txt", "csv", "md", "log"}

  /** The buffer holds the bytes m at offset o. */
  predicate MagicAt(b: seq<byte>, o: nat, m: seq<byte>) {
    o + |m| <= |b| && b[o..o + |m|] == m
  }

  /** The cascade of script.js, in its order. */
  function Classify(b: seq<byte>, name: string, mime: string): (r: Outcome)
    ensures r == RangeError <==> |b| < DICM_OFFSET + 4
  {
    if |b| < DICM_OFFSET + 4 then RangeError
    else
      var isZipMagic := MagicAt(b, 0, ZIP_MAGIC);
      var isOfficeZip := isZipMagic && HasExtension(name, OFFICE_EXTS);
      if MagicAt(b, DICM_OFFSET, DICM) then Handler(DicomImage)
      else if MagicAt(b, 0, MZ) then Handler(WindowsExecutable)
      else if isOfficeZip then Handler(OfficeZipDocument)
      else if isZipMagic then Handler(GenericZipArchive)
      else if HasExtension(name, SQLITE_EXTS) then Handler(SqliteDatabase)
      else if HasExtension(name, CODE_EXTS) then Handler(SourceCodeFile)
      else if StartsWith(mime, "image/") then Handler(RasterImage)
      else if StartsWith(mime, "text/") || HasExtension(name, TEXT_EXTS) then Handler(PlainText)
      else if StartsWith(mime, "video/") || StartsWith(mime, "audio/") then Handler(AudioOrVideo)
      else Handler(Unknown)
  }

  // ----- The same precedence as an explicit ordered rule table -----

  datatype Rule =
    | Magic(offset: nat, magic: seq<byte>)
    | MagicAndExt(offset: nat, magic: seq<byte>, exts: set<string>)
    | Ext(exts: set<string>)
    | MimePrefix(prefixes: seq<string>)
    | MimePrefixOrExt(prefixes: seq<string>, exts: set<string>)
    | Otherwise

  predicate MimeStartsWithAny(mime: string, prefixes: seq<string>) {
    prefixes != [] && (StartsWith(mime, prefixes[0]) || MimeStartsWithAny(mime, prefixes[1..]))
  }

  predicate Holds(rule: Rule, b: seq<byte>, name: string, mime: string) {
    match rule
    case Magic(o, m) => MagicAt(b, o, m)
    case MagicAndExt(o, m, exts) => MagicAt(b, o, m) && HasExtension(name, exts)
    case Ext(exts) => HasExtension(name, exts)
    case MimePrefix(ps) => MimeStartsWithAny(mime, ps)
    case MimePrefixOrExt(ps, exts) => MimeStartsWithAny(mime, ps) || HasExtension(name, exts)
    case Otherwise => true
  }

  const TABLE: seq<(Rule, FormatKind)> := [
    (Magic(DICM_OFFSET, DICM), DicomImage),
    (Magic(0, MZ), WindowsExecutable),
    (MagicAndExt(0, ZIP_MAGIC, OFFICE_EXTS), OfficeZipDocument),
    (Magic(0, ZIP_MAGIC), GenericZipArchive),
    (Ext(SQLITE_EXTS), SqliteDatabase),
    (Ext(CODE_EXTS), SourceCodeFile),
    (MimePrefix(["image/"]), RasterImage),
    (MimePrefixOrExt(["text/"], TEXT_EXTS), PlainText),
    (MimePrefix(["video/", "audio/"]), AudioOrVideo),
    (Otherwise, Unknown)
  ]

  /** The position of the first rule that holds, or |rules| when none does. */
  function FirstMatch(rules: seq<(Rule, FormatKind)>, b: seq<byte>, name: string, mime: string): (i: nat)
    ensures i <= |rules|
    ensures i < |rules| ==> Holds(rules[i].0, b, name, mime)
    ensures forall j :: 0 <= j < i ==> !Holds(rules[j].0, b, name, mime)
  {
    if rules == [] then 0
    else if Holds(rules[0].0, b, name, mime) then 0
    else
      var i := FirstMatch(rules[1..], b, name, mime);
      assert forall j :: 1 <= j < 1 + i ==> rules[j] == rules[1..][j - 1];
      1 + i
  }

  /** FirstMatch is the first rule that holds: any rule holding with none above it is the one. */
  lemma FirstMatchIs(rules: seq<(Rule, FormatKind)>, b: seq<byte>, name: string, mime: string, i: nat)
    requires i < |rules| && Holds(rules[i].0, b, name, mime)
    requires forall j :: 0 <= j < i ==> !Holds(rules[j].0, b, name, mime)
    ensures FirstMatch(rules, b, name, mime) == i
  {
  }

  /** The position of each kind in TABLE. */
  function TableIndex(k: FormatKind): (i: nat)
    ensures i < |TABLE| && TABLE[i].1 == k
  {
    match k
    case DicomImage => 0
    case WindowsExecutable => 1
    case OfficeZipDocument => 2
    case GenericZipArchive => 3
    case SqliteDatabase => 4
    case SourceCodeFile => 5
    case RasterImage => 6
    case PlainText => 7
    case AudioOrVideo => 8
    case Unknown => 9
  }

  /** What each rule of TABLE tests. */
  lemma TableRules(b: seq<byte>, name: string, mime: string)
    ensures Holds(TABLE[0].0, b, name, mime) == MagicAt(b, DICM_OFFSET, DICM)
    ensures Holds(TABLE[1].0, b, name, mime) == MagicAt(b, 0, MZ)
    ensures Holds(TABLE[2].0, b, name, mime) == (MagicAt(b, 0, ZIP_MAGIC) && HasExtension(name, OFFICE_EXTS))
    ensures Holds(TABLE[3].0, b, name, mime) == MagicAt(b, 0, ZIP_MAGIC)
    ensures Holds(TABLE[4].0, b, name, mime) == HasExtension(name, SQLITE_EXTS)
    ensures Holds(TABLE[5].0, b, name, mime) == HasExtension(name, CODE_EXTS)
    ensures Holds(TABLE[6].0, b, name, mime) == StartsWith(mime, "image/")
    ensures Holds(TABLE[7].0, b, name, mime) == (StartsWith(mime, "text/") || HasExtension(name, TEXT_EXTS))
    ensures Holds(TABLE[8].0, b, name, mime) == (StartsWith(mime, "video/") || StartsWith(mime, "audio/"))
    ensures Holds(TABLE[9].0, b, name, mime)
  {
    assert MimeStartsWithAny(mime, ["image/"]) == StartsWith(mime, "image/");
    assert MimeStartsWithAny(mime, ["text/"]) == StartsWith(mime, "text/");
    assert ["video/", "audio/"][1..] == ["audio/"] && ["audio/"][1..] == [];
    assert MimeStartsWithAny(mime, ["audio/"]) == StartsWith(mime, "audio/");
  }

  /** Rule k of TABLE holds and none above it does. */
  predicate FirstHolding(b: seq<byte>, name: string, mime: string, k: nat)
    requires k < |TABLE|
  {
    Holds(TABLE[k].0, b, name, mime) && forall j :: 0 <= j < k ==> !Holds(TABLE[j].0, b, name, mime)
  }

  /** The cascade is the table read top to bottom, and the table always picks a rule. */
  lemma ClassifyIsTable(b: seq<byte>, name: string, mime: string)
    requires |b| >= DICM_OFFSET + 4
    ensures FirstMatch(TABLE, b, name, mime) < |TABLE|
    ensures Classify(b, name, mime) == Handler(TABLE[FirstMatch(TABLE, b, name, mime)].1)
  {
    var r := Classify(b, name, mime);
    var k := TableIndex(r.kind);
    TableRules(b, name, mime);
    assert FirstHolding(b, name, mime, k) by {
      forall j | 0 <= j < k ensures !Holds(TABLE[j].0, b, name, mime) {
        if j == 0 {} else if j == 1 {} else if j == 2 {} else if j == 3 {} else if j == 4 {}
        else if j == 5 {} else if j == 6 {} else if j == 7 {} else {}
      }
    }
    FirstMatchIs(TABLE, b, name, mime, k);
  }

  /** The kinds in TABLE are in the order of their positions. */
  lemma TableIndexAt(i: nat)
    requires i < |TABLE|
    ensures TableIndex(TABLE[i].1) == i
  {
    if i == 0 {} else if i == 1 {} else if i == 2 {} else if i == 3 {} else if i == 4 {}
    else if i == 5 {} else if i == 6 {} else if i == 7 {} else if i == 8 {} else {}
  }

  /**
    Precedence: the file gets the kind of a rule exactly when that rule
    holds and no rule above it does.
  */
  lemma Precedence(b: seq<byte>, name: string, mime: string, i: nat)
    requires |b| >= DICM_OFFSET + 4 && i < |TABLE|
    ensures Classify(b, name, mime) == Handler(TABLE[i].1)
        <==> Holds(TABLE[i].0, b, name, mime) && forall j :: 0 <= j < i ==> !Holds(TABLE[j].0, b, name, mime)
  {
    ClassifyIsTable(b, name, mime);
    var k := FirstMatch(TABLE, b, name, mime);
    TableIndexAt(i);
    TableIndexAt(k);
    if Holds(TABLE[i].0, b, name, mime) && forall j :: 0 <= j < i ==> !Holds(TABLE[j].0, b, name, mime) {
      FirstMatchIs(TABLE, b, name, mime, i);
    }
  }

  /** "DICM" at offset 128 selects the DICOM handler whatever the name and MIME type. */
  lemma DicomFirst(b: seq<byte>, name: string, mime: string)
    requires |b| >= DICM_OFFSET + 4
    ensures Classify(b, name, mime) == Handler(DicomImage) <==> MagicAt(b, DICM_OFFSET, DICM)
  {
  }

  /** Otherwise "MZ" selects the executable handler, before any ZIP, extension or MIME rule. */
  lemma ExecutableSecond(b: seq<byte>, name: string, mime: string)
    requires |b| >= DICM_OFFSET + 4
    ensures Classify(b, name, mime) == Handler(WindowsExecutable)
        <==> !MagicAt(b, DICM_OFFSET, DICM) && MagicAt(b, 0, MZ)
  {
  }

  /** A ZIP with an Office extension is an Office document, never a generic ZIP. */
  lemma OfficeBeatsZip(b: seq<byte>, name: string, mime: string)
    requires |b| >= DICM_OFFSET + 4 && !MagicAt(b, DICM_OFFSET, DICM) && MagicAt(b, 0, ZIP_MAGIC)
    ensures Classify(b, name, mime) == Handler(if HasExtension(name, OFFICE_EXTS) then OfficeZipDocument else GenericZipArchive)
  {
    assert b[0] == 0x50;
  }

  /** `report.docx` is an Office document. */
  lemma OfficeExample(b: seq<byte>, mime: string)
    requires |b| >= DICM_OFFSET + 4 && !MagicAt(b, DICM_OFFSET, DICM) && MagicAt(b, 0, ZIP_MAGIC)
    ensures Classify(b, "report.docx", mime) == Handler(OfficeZipDocument)
  {
    ExtensionOfDotted("report", "docx");
    LowerAsciiOfLower("docx");
    assert "report" + ("." + "docx") == "report.docx";
    OfficeBeatsZip(b, "report.docx", mime);
  }

  /** `archive.zip` with the same bytes is a generic ZIP. */
  lemma ZipExample(b: seq<byte>, mime: string)
    requires |b| >= DICM_OFFSET + 4 && !MagicAt(b, DICM_OFFSET, DICM) && MagicAt(b, 0, ZIP_MAGIC)
    ensures Classify(b, "archive.zip", mime) == Handler(GenericZipArchive)
  {
    ExtensionOfDotted("archive", "zip");
    LowerAsciiOfLower("zip");
    var name := "archive" + ("." + "zip");
    assert ExtensionOf(name) == "zip";
    assert "zip" !in OFFICE_EXTS;
    assert !HasExtension(name, OFFICE_EXTS);
    OfficeBeatsZip(b, name, mime);
    assert name == "archive.zip";
  }

  /** A name with a code extension is a code file even when the MIME type says text. */
  lemma HtmlIsCode(b: seq<byte>)
    requires |b| >= DICM_OFFSET + 4
    requires !MagicAt(b, DICM_OFFSET, DICM) && !MagicAt(b, 0, MZ) && !MagicAt(b, 0, ZIP_MAGIC)
    ensures Classify(b, "x.html", "text/html") == Handler(SourceCodeFile)
  {
    var name := "x" + ("." + "html");
    ExtensionOfDotted("x", "html");
    LowerAsciiOfLower("html");
    assert ExtensionOf(name) == "html";
    assert "html" !in SQLITE_EXTS && "html" in CODE_EXTS;
    assert !HasExtension(name, SQLITE_EXTS) && HasExtension(name, CODE_EXTS);
    assert name == "x.html";
  }
}
