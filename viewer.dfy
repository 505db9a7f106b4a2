/**
  `handleFile` and the handlers it runs: the record of base fields built
  for every file, the record object the handlers write into in place,
  and what ends up on the page.  The host's decoding of the file as
  text, its `Date` and `toFixed` formatting and the message of a
  `RangeError` are parameters.
*/
module Viewer {
  import opened Results
  import opened Bytes
  import opened Strs
  import opened Record
  import opened Dispatch
  import PeHeader
  import Exif
  import TextMetrics
  import CodeStats

  /** What the browser's `File` object tells about the dropped file. */
  datatype FileInfo = FileInfo(name: string, mime: string, size: nat, lastModified: int)

  /**
    The host-dependent formatting: `new Date(ms).toString()`,
    `((c / n) * 100).toFixed(1)` for a comment ratio, and the message of
    the RangeError a `DataView` read past the end throws.
  */
  datatype Host = Host(dateText: int -> string, ratioText: (nat, nat) -> string, rangeErrorMessage: string)

  const BASE_KEYS: seq<string> := ["File Name", "Type (MIME)", "Size (bytes)", "Last Modified"]

  /** `baseMeta`: name, MIME type ("Unknown" for an empty one), size and last-modified date, in that order. */
  function BaseEntries(f: FileInfo, host: Host): (e: Entries)
    ensures |e| == 4 && UniqueKeys(e)
    ensures forall i :: 0 <= i < 4 ==> e[i].0 == BASE_KEYS[i]
    ensures e[0].1 == Str(f.name) && e[2].1 == Num(f.size)
    ensures e[1].1 == Str(if f.mime == "" then "Unknown" else f.mime)
    ensures e[3].1 == Str(host.dateText(f.lastModified))
  {
    [("File Name", Str(f.name)),
     ("Type (MIME)", Str(if f.mime == "" then "Unknown" else f.mime)),
     ("Size (bytes)", Num(f.size)),
     ("Last Modified", Str(host.dateText(f.lastModified)))]
  }

  /** The metadata object the handlers share and write fields into. */
  class MetadataRecord {
    var entries: Entries

    ghost predicate Valid()
      reads this
    {
      UniqueKeys(entries)
    }

    /** An object literal with distinct keys. */
    constructor (init: Entries)
      requires UniqueKeys(init)
      ensures Valid() && entries == init
    {
      entries := init;
    }

    /** `meta[k] = v`. */
    method Set(k: string, v: Value)
      requires Valid()
      modifies this
      ensures Valid()
      ensures entries == Put(old(entries), k, v)
    {
      entries := Put(entries, k, v);
    }

    /** The assignments `meta[k1] = v1; meta[k2] = v2; ...`, in order. */
    method SetAll(kvs: Entries)
      requires Valid()
      modifies this
      ensures Valid()
      ensures entries == PutAll(old(entries), kvs)
    {
      var i := 0;
      while i < |kvs|
        invariant 0 <= i <= |kvs|
        invariant Valid()
        invariant entries == PutAll(old(entries), kvs[..i])
      {
        assert kvs[..i + 1][..i] == kvs[..i];
        Set(kvs[i].0, kvs[i].1);
        i := i + 1;
      }
      assert kvs[..i] == kvs;
    }
  }

  // ----- the handlers this model covers -----

  /** `parseExe`: reads the header, then writes the PE fields or the "EXE Error". */
  method ParseExe(b: seq<byte>, meta: MetadataRecord, host: Host)
    requires meta.Valid()
    modifies meta
    ensures meta.Valid()
    ensures meta.entries == PutAll(old(meta.entries), PeHeader.ExeFields(PeHeader.ParsePe(b), host.dateText, host.rangeErrorMessage))
  {
    var r := PeHeader.ParsePe(b);
    meta.SetAll(PeHeader.ExeFields(r, host.dateText, host.rangeErrorMessage));
  }

  /** `parseImageExif`: the scan, then the segment length or the "EXIF Error". */
  method ParseImageExif(b: seq<byte>, meta: MetadataRecord, host: Host)
    requires meta.Valid()
    modifies meta
    ensures meta.Valid()
    ensures meta.entries == PutAll(old(meta.entries), Exif.ExifFields(Exif.ExifScan(b), host.rangeErrorMessage))
  {
    var r := Exif.ScanSegments(b);
    meta.SetAll(Exif.ExifFields(r, host.rangeErrorMessage));
  }

  /** `parseText` on the file's text. */
  method ParseText(text: string, meta: MetadataRecord)
    requires meta.Valid()
    modifies meta
    ensures meta.Valid()
    ensures meta.entries == PutAll(old(meta.entries), TextMetrics.TextFields(text))
  {
    meta.SetAll(TextMetrics.TextFields(text));
  }

  /**
    `parseStructuredText` on the file's text, with the outcomes of the
    host's JSON and XML parsers.  No branch of `handleFile` calls it.
  */
  method ParseStructuredText(name: string, text: string, json: Result<seq<string>, string>,
                             xml: Result<string, string>, meta: MetadataRecord)
    requires meta.Valid()
    modifies meta
    ensures meta.Valid()
    ensures meta.entries == PutAll(old(meta.entries), TextMetrics.StructuredFields(name, text, json, xml))
  {
    meta.SetAll(TextMetrics.StructuredFields(name, text, json, xml));
  }

  /** `parseCodeFile`: the line loop, then the statistics fields. */
  method ParseCodeFile(name: string, text: string, meta: MetadataRecord, host: Host)
    requires meta.Valid()
    modifies meta
    ensures meta.Valid()
    ensures meta.entries == PutAll(old(meta.entries),
      CodeStats.CodeFields(name, text, CodeStats.Tally(TextMetrics.SplitLines(text)), host.ratioText))
  {
    var lines := TextMetrics.SplitLines(text);
    var stats := CodeStats.TallyLines(lines);
    meta.SetAll(CodeStats.CodeFields(name, text, stats, host.ratioText));
  }

  // ----- handleFile -----

  /**
    What becomes of the record: the `onload` body throws before any
    handler; a handler this model covers shows its fields; a
    library-backed handler or the media probe is handed the base record,
    and what it adds is not modelled.
  */
  datatype Display = Thrown | Shown(entries: Entries) | HandedOff(kind: FormatKind, entries: Entries)

  /** The handlers that call a third-party library or the media element. */
  predicate IsLibraryKind(k: FormatKind) {
    k.DicomImage? || k.OfficeZipDocument? || k.GenericZipArchive? || k.SqliteDatabase? || k.AudioOrVideo?
  }

  /** The fields a modelled handler adds after the base fields. */
  function HandlerFields(k: FormatKind, f: FileInfo, b: seq<byte>, text: string, host: Host): Entries {
    match k
    case WindowsExecutable => PeHeader.ExeFields(PeHeader.ParsePe(b), host.dateText, host.rangeErrorMessage)
    case RasterImage => Exif.ExifFields(Exif.ExifScan(b), host.rangeErrorMessage)
    case PlainText => TextMetrics.TextFields(text)
    case SourceCodeFile =>
      CodeStats.CodeFields(f.name, text, CodeStats.Tally(TextMetrics.SplitLines(text)), host.ratioText)
    case _ => []
  }

  /**
    The display for a file with contents b, read as text: nothing for a
    buffer too short for the DICOM probe; otherwise the base fields
    first, in their order, then the handler's fields.
  */
  function DisplayOf(f: FileInfo, b: seq<byte>, text: string, host: Host): (d: Display)
    ensures d.Thrown? <==> |b| < DICM_OFFSET + 4
    ensures !d.Thrown? ==> |d.entries| >= 4 && d.entries[..4] == BaseEntries(f, host)
    ensures d.HandedOff? ==> d.entries == BaseEntries(f, host)
    ensures !d.Thrown? ==> (d.HandedOff? <==> IsLibraryKind(Classify(b, f.name, f.mime).kind))
    ensures d.HandedOff? ==> d.kind == Classify(b, f.name, f.mime).kind
    ensures d.Shown? ==> d.entries[4..] == HandlerFields(Classify(b, f.name, f.mime).kind, f, b, text, host)
  {
    match Classify(b, f.name, f.mime)
    case RangeError => Thrown
    case Handler(k) =>
      if IsLibraryKind(k) then HandedOff(k, BaseEntries(f, host))
      else
        var e := BaseEntries(f, host) + HandlerFields(k, f, b, text, host);
        assert e[..4] == BaseEntries(f, host);
        assert e[4..] == HandlerFields(k, f, b, text, host);
        Shown(e)
  }

  /** Concatenating records with distinct keys, none shared, keeps keys distinct. */
  lemma UniqueConcat(a: Entries, c: Entries)
    requires UniqueKeys(a) && UniqueKeys(c)
    requires forall i, j :: 0 <= i < |a| && 0 <= j < |c| ==> a[i].0 != c[j].0
    ensures UniqueKeys(a + c)
  {
    forall i, j | 0 <= i < j < |a + c| ensures (a + c)[i].0 != (a + c)[j].0 {
      if j < |a| {
      } else if i >= |a| {
        assert (a + c)[i] == c[i - |a|] && (a + c)[j] == c[j - |a|];
      } else {
        assert (a + c)[i] == a[i] && (a + c)[j] == c[j - |a|];
      }
    }
  }

  /** Distinct keys, none of them a base key. */
  predicate FreshFields(fields: Entries) {
    UniqueKeys(fields) && forall j :: 0 <= j < |fields| ==> fields[j].0 !in BASE_KEYS
  }

  lemma ExeFieldsFresh(r: Result<PeHeader.PeInfo, PeHeader.ExeError>, host: Host)
    ensures FreshFields(PeHeader.ExeFields(r, host.dateText, host.rangeErrorMessage))
  {
  }

  lemma ExifFieldsFresh(r: Exif.ScanResult, host: Host)
    ensures FreshFields(Exif.ExifFields(r, host.rangeErrorMessage))
  {
  }

  lemma TextFieldsFresh(text: string)
    ensures FreshFields(TextMetrics.TextFields(text))
  {
  }

  lemma CodeFieldsFresh(name: string, text: string, stats: CodeStats.LineStats, host: Host)
    ensures FreshFields(CodeStats.CodeFields(name, text, stats, host.ratioText))
  {
    var kvs := CodeStats.CodeFields(name, text, stats, host.ratioText);
    forall j | 0 <= j < |kvs| ensures kvs[j].0 !in BASE_KEYS {
      if j == 0 {} else if j == 1 {} else if j == 2 {} else if j == 3 {}
      else if j == 4 {} else if j == 5 {} else if j == 6 {} else {}
    }
  }

  /** The handler fields never reuse a base key or repeat a key. */
  lemma HandlerFieldsFresh(k: FormatKind, f: FileInfo, b: seq<byte>, text: string, host: Host)
    ensures UniqueKeys(BaseEntries(f, host) + HandlerFields(k, f, b, text, host))
  {
    var base := BaseEntries(f, host);
    var fields := HandlerFields(k, f, b, text, host);
    match k {
      case WindowsExecutable => ExeFieldsFresh(PeHeader.ParsePe(b), host);
      case RasterImage => ExifFieldsFresh(Exif.ExifScan(b), host);
      case PlainText => TextFieldsFresh(text);
      case SourceCodeFile => CodeFieldsFresh(f.name, text, CodeStats.Tally(TextMetrics.SplitLines(text)), host);
      case _ =>
    }
    forall i, j | 0 <= i < |base| && 0 <= j < |fields| ensures base[i].0 != fields[j].0 {
      assert base[i].0 == BASE_KEYS[i];
    }
    UniqueConcat(base, fields);
  }

  /** The `onload` body: the cascade, then the selected handler writing into the base record. */
  method HandleFile(f: FileInfo, b: seq<byte>, text: string, host: Host) returns (outcome: Outcome, d: Display)
    ensures outcome == Classify(b, f.name, f.mime)
    ensures d == DisplayOf(f, b, text, host)
  {
    var base := BaseEntries(f, host);
    var meta := new MetadataRecord(base);
    outcome := Classify(b, f.name, f.mime);
    if outcome.RangeError? {
      d := Thrown;
      return;
    }
    var k := outcome.kind;
    if IsLibraryKind(k) {
      d := HandedOff(k, meta.entries);
      return;
    }
    if k == WindowsExecutable {
      ParseExe(b, meta, host);
    } else if k == RasterImage {
      ParseImageExif(b, meta, host);
    } else if k == PlainText {
      ParseText(text, meta);
    } else if k == SourceCodeFile {
      ParseCodeFile(f.name, text, meta, host);
    }
    HandlerFieldsFresh(k, f, b, text, host);
    PutAllFresh(base, HandlerFields(k, f, b, text, host));
    assert meta.entries == base + HandlerFields(k, f, b, text, host);
    d := Shown(meta.entries);
  }

  /**
    The page shows the base fields as its first four lines, whichever
    handler runs, and the CSV export starts with the same four rows.
  */
  lemma BaseLinesFirst(f: FileInfo, b: seq<byte>, text: string, host: Host)
    requires |b| >= DICM_OFFSET + 4
    ensures var e := DisplayOf(f, b, text, host).entries;
      |e| >= 4 && TextLines(e)[..4] == TextLines(BaseEntries(f, host))
      && CsvLines(e)[..4] == CsvLines(BaseEntries(f, host))
  {
    var e := DisplayOf(f, b, text, host).entries;
    RenderPrefix(BaseEntries(f, host), e);
  }
}
