# MetadataViewer core, modelled in Dafny

MetadataViewer is a browser page. It takes a dropped file and shows a
list of `key: value` metadata fields, which can also be exported as CSV.
This project models the core of `script.js`:

- **`handleFile`.** It builds the base record (name, MIME type, size,
  last-modified date). It then runs a first-match-wins cascade over the
  file's magic bytes, its name and its MIME type, which selects exactly
  one handler.
- **The handlers that need no third-party library:**
  - `parseExe` reads the PE/COFF header fields.
  - `parseImageExif` scans for the JPEG APP1 marker.
  - `parseText` computes the line count and the first lines.
  - `parseCodeFile` finds the language, counts comment, function and
    class lines, and picks up the shebang and a preview.
  - `parseStructuredText` is modelled too, with its JSON, XML, CSV, INI
    and Markdown branches, although no branch of `handleFile` calls it.
- **The record.** The handlers share one JavaScript object and assign
  fields into it. The page shows it as text, and the export writes it
  as CSV.

Modules, one file each:

| file | module | what it models |
|---|---|---|
| `results.dfy` | `Results` | `Option` and `Result` |
| `bytes.dfy` | `Bytes` | the `DataView` reads: big- and little-endian 16/32-bit values, with `None` for a read past the end |
| `strings.dfy` | `Strs` | `startsWith`/`endsWith`, the `/\.(…)$/i` extension tests and `split('.').pop().toLowerCase()`, `join`, `split`, `trim`, and `toString(10)`/`toString(16)` |
| `record.dfy` | `Record` | the insertion-ordered object with overwrite in place; the text and CSV renderings |
| `dispatch.dfy` | `Dispatch` | the cascade; the same cascade as an ordered rule table |
| `pe.dfy` | `PeHeader` | `parseExe` |
| `exif.dfy` | `Exif` | `parseImageExif` |
| `text.dfy` | `TextMetrics` | `parseText` and `parseStructuredText` |
| `code.dfy` | `CodeStats` | `parseCodeFile`, its `forEach` loop as a method |
| `viewer.dfy` | `Viewer` | `baseMeta`; the shared record as a class; the handlers as methods; `handleFile` |

For a buffer shorter than 132 bytes, `new Uint8Array(buffer, 128, 4)`
throws a `RangeError` inside the `onload` callback (`script.js:44`),
before any handler is chosen, so nothing is displayed.
`Dispatch.Classify` returns `RangeError` and `Viewer.DisplayOf` returns
`Thrown` for these buffers.

The magic numbers are compared as bytes. The source decodes them with
`TextDecoder` and compares the result with ASCII literals, and these two
tests agree. A stripped byte-order mark always leaves fewer characters
than the literal has, so it can never produce a match.

The name tests `/\.(…)$/i` use ASCII case folding (`Strs.LowerAscii`).
Without the `u` flag, case-insensitive matching never maps a non-ASCII
character onto an ASCII letter. `Strs.HasExtensionRegex` proves that the
regular-expression suffix test agrees with the "text after the last dot"
definition that `parseCodeFile` uses.

## Model

| member | source | states |
|---|---|---|
| Dispatch.Classify | script.js:42-74 | the `onload` body ends in a RangeError exactly when the buffer is shorter than 132 bytes |
| Dispatch.ClassifyIsTable | script.js:54-74 | the cascade equals reading the ordered rule table top to bottom, and some rule always applies |
| Dispatch.Precedence | script.js:54-74 | a file gets rule i's handler exactly when rule i holds and no earlier rule does |
| Dispatch.DicomFirst | script.js:44-55 | DICOM is selected exactly when "DICM" is at offset 128, whatever the name and MIME type |
| Dispatch.ExecutableSecond | script.js:43-57 | the PE handler is selected exactly when "MZ" leads and there is no DICM tag |
| Dispatch.OfficeBeatsZip | script.js:46-61 | a ZIP goes to the Office handler when its name has an Office extension, otherwise to the generic ZIP handler |
| Dispatch.OfficeExample | script.js:46-59 | `report.docx` with ZIP magic is an Office document |
| Dispatch.ZipExample | script.js:46-61 | `archive.zip` with the same bytes is a generic ZIP |
| Dispatch.HtmlIsCode | script.js:52-66 | `x.html` declared `text/html` goes to the code handler, not the text handler |
| Strs.HasExtensionRegex | script.js:48-52 | the alternation `/\.(…)$/i` holds exactly when the name has a dot and its lower-cased last piece is one of the extensions |
| Strs.ExtensionRegex | script.js:51 | the one-extension case of that equivalence, in both directions |
| Strs.ExtensionOfDotted | script.js:251 | the extension of `base.ext` is `ext` lower-cased |
| Strs.JoinSplit | script.js:156-158 | joining the pieces of `split(c)` with c gives the string back |
| Strs.SplitJoin | script.js:156-158 | splitting a join of separator-free pieces gives the pieces back |
| Strs.FromToRadix | script.js:354-355 | the digits written by `toString(radix)` read back as the number |
| Strs.TrimSpec | script.js:283 | `trim` keeps the middle of the line between two runs of white space, and neither end of the result is white space |
| Strs.TrimNoSpaces | script.js:283 | a line without white space at either end is its own trimming |
| Bytes.GetU32 | script.js:344-351 | `getUint32` gives a value exactly when the four bytes lie inside the buffer; the value is below 2^32 and read in the requested byte order |
| Bytes.GetU16 | script.js:349 | the same for `getUint16`, below 2^16 |
| Bytes.ReadEncodedU32LE | script.js:344 | a little-endian 32-bit read of four encoded bytes gives the encoded value, wherever they sit |
| Bytes.EncodeReadU32LE | script.js:344 | encoding the value of a little-endian 32-bit read gives back the bytes read |
| Bytes.ReadEncodedU16BE | script.js:371-373 | the same round trip for the big-endian 16-bit read |
| Bytes.EncodeReadU16BE | script.js:371-373 | the reverse round trip for the big-endian 16-bit read |
| PeHeader.ParsePe | script.js:342-351 | success exactly when e_lfanew and all header reads are in range and the big-endian signature is 0x50450000, with the machine, timestamp and entry point read at +4, +8 and +40; "not PE" exactly when the signature can be read and differs |
| PeHeader.ArchName | script.js:353-354 | 0x14c is "x86", 0x8664 is "x64", any other machine is "Unknown (hex)" and the hex reads back as the machine |
| PeHeader.EntryPointText | script.js:355 | "0x" then lower-case hex digits, with no leading zero, that read back as the entry point |
| PeHeader.ExeFields | script.js:353-362 | on failure only "EXE Error", with "Not a valid PE file" or the RangeError message; on success exactly three fields, in the order architecture, entry point, date of timestamp × 1000 ms; keys distinct |
| PeHeader.X86Example | script.js:344-354 | a header with e_lfanew 80, "PE\0\0" at 80 and machine 0x014C parses as x86 |
| PeHeader.BadSignatureExample | script.js:345-361 | a wrong signature byte gives exactly the field "EXE Error: Not a valid PE file" |
| Exif.ScanSegments | script.js:369-378 | the `while` loop with its `break` computes the scan from offset 2 (ExifScan) |
| Exif.FirstMarkerDecides | script.js:370-375 | the first 0xFFE1 at an even offset from 2 decides the result: the length after it, or a RangeError when that length crosses the end |
| Exif.NoMarkerDecides | script.js:370-378 | with no marker, the scan finds nothing on an even length and throws a RangeError on an odd length of 3 or more |
| Exif.App1Example | script.js:369-374 | `FF D8 FF E1 00 0A` has segment length 10 |
| Exif.ExifFields | script.js:372-381 | one "EXIF Segment Length" field, or nothing, or one "EXIF Error" field |
| TextMetrics.SplitLines | script.js:145 | one more line than there are line feeds, and no line contains one |
| TextMetrics.JoinSplitLines | script.js:145 | the lines joined with any separator are the text with each line break (CRLF or LF) written as that separator: only the breaks are lost |
| TextMetrics.SplitLinesWithoutCr | script.js:331 | without carriage returns the lines are the pieces of `split("\n")` |
| TextMetrics.LeadingLinesPrefix | script.js:333 | the first n lines, breaks between them included, are a prefix of the text |
| TextMetrics.LeadingLinesAll | script.js:333 | a text with fewer than n line feeds is its own first n lines |
| TextMetrics.LeadingLinesCount | script.js:333 | when the text has at least n line feeds, its first n lines hold n - 1 of them |
| TextMetrics.LeadingLinesBreak | script.js:333 | when the text has at least n line feeds, a line break ("\r\n", or a "\n" not preceded by a carriage return) follows its first n lines |
| TextMetrics.JoinTakeLines | script.js:333 | `lines.slice(0, n).join(sep)` is the text's first n lines with each break between them written as sep |
| TextMetrics.TextFields | script.js:331-333 | "Line Count" is the number of line feeds plus one; "First Lines" is the text up to its fifth line break, each break written as " / " |
| TextMetrics.FirstLinesOfShortText | script.js:331-333 | a text of at most five lines appears whole in "First Lines", each line break written as " / " |
| TextMetrics.CsvFields | script.js:156-159 | "CSV Columns" is the number of commas in the first line plus one; "CSV Headers" is the first line with each "," written as ", "; "Row Count" is the line count minus one |
| TextMetrics.CsvHeadersText | script.js:156-158 | "CSV Headers" is the first line with each "," replaced by ", " |
| TextMetrics.CsvThreeByTwo | script.js:155-159 | a header `a,b,c` and two rows give 3 columns, headers `a, b, c` and 2 rows |
| TextMetrics.SectionNameIff | script.js:161 | `^\[(.+?)\]` on a line captures exactly the non-empty name between "[" and the first "]" that leaves it non-empty |
| TextMetrics.SectionNames | script.js:161 | at most one name per line, and every name is non-empty and holds no line terminator |
| TextMetrics.SectionsOfAppend | script.js:161 | the names of consecutive runs of lines come in the order of the runs |
| TextMetrics.SectionsOfMember | script.js:161 | a name is listed exactly when some line's `^\[(.+?)\]` captures it |
| TextMetrics.SectionNamesConcat | script.js:161 | the names of a text are those before a line terminator followed by those after it |
| TextMetrics.SectionNamesOfLine | script.js:161 | a text without line terminators yields at most its one line's name |
| TextMetrics.HeadingCountIsCardinality | script.js:164-165 | the heading count is the number of lines that start with "#" |
| TextMetrics.StructuredFields | script.js:141-169 | "Line Count" first; a `.json` name gives the root keys or the parse error; a `.csv` name gives the CSV fields; "Parse Error" appears only when the parser the name selects fails |
| CodeStats.LanguageKeys | script.js:252-273 | the language map's keys are exactly the extensions the dispatcher sends to `parseCodeFile` |
| CodeStats.LanguageOfKnown | script.js:251-274 | a language other than "Unknown" exactly when the last extension is a code extension, and then it is that extension's entry |
| CodeStats.DispatchedHasLanguage | script.js:251-274 | every file the dispatcher routes here has a known language |
| CodeStats.SearchFromIff | script.js:290-293 | `regex.test` succeeds exactly when the pattern matches at some index |
| CodeStats.CountWhereIsCardinality | script.js:282-296 | each counter equals the number of lines whose trimmed text passes its test |
| CodeStats.ShebangIsComment | script.js:284-289 | a shebang line also counts as a comment line |
| CodeStats.VisitLine | script.js:282-296 | one callback call takes the counters for the first i lines to those for the first i + 1 |
| CodeStats.TallyLines | script.js:277-296 | the `forEach` loop, started from zeroed counters, computes the counts and the shebang of all lines |
| Strs.TrimWindow | script.js:283 | a stretch of the line that starts and ends with a non-space character survives `trim` whole, with the neighbours `trim` keeps |
| Strs.InfixTrimmed | script.js:283 | a word with non-space ends between two strings is still in the trimmed line, beside the characters of those strings that `trim` keeps |
| CodeStats.WordBetweenBoundaries | script.js:290-293 | `\bw\b` matches the trimmed line when w stands between non-word characters, whatever white space surrounds the line |
| CodeStats.ClassBetweenBoundaries | script.js:293 | a line with "class" between non-word characters counts as a class line |
| CodeStats.NoWordAfterWordChar | script.js:293 | "class" directly after a word character, as in "subclass", is not matched there |
| CodeStats.ArrowIsFunction | script.js:290 | any line containing "=>" counts as a function line |
| CodeStats.CodeFields | script.js:298-305 | in order: the language, the total lines (line feeds plus one), the function, class and comment counts, "Comment Ratio" with "%", "Shebang" only when one was found, and "Preview", the text up to its tenth line break; keys distinct |
| CodeStats.PreviewIsPrefix | script.js:305 | the preview is a prefix of the text with its breaks written as "\n": all of it when the text has at most ten lines, otherwise exactly the first ten, which hold nine line feeds and are followed by a break |
| Record.Put | script.js:298-305 | `obj[k] = v` on a key already present replaces the value in place; a new key is appended; other keys keep their values; distinct keys stay distinct |
| Record.PutAllKeepsPrefix | script.js:298-305 | writes to new keys keep the earlier fields in their places and with their values |
| Record.PutAllFresh | script.js:298-305 | writes with distinct, new keys append in the order they are made |
| Record.RenderTextLines | script.js:426-427 | when no key or value contains a line feed, splitting the page text at line breaks gives one `key: value` line per field, in record order |
| Record.RenderCsvLines | script.js:442 | when no key or value contains a line feed, splitting the CSV export at line breaks gives one `"key","value"` line per field, in record order |
| Record.RenderPrefix | script.js:426 | a record that starts with p renders p's lines first |
| Record.CsvIsAmbiguous | script.js:442 | with quotes left unescaped, two different records export the same CSV |
| Viewer.BaseEntries | script.js:29-34 | the four base fields in order, with the MIME type "Unknown" when empty and the host's date text of the last-modified time |
| Viewer.MetadataRecord.Set | script.js:298-305 | one assignment into the shared record, which keeps its keys distinct |
| Viewer.MetadataRecord.SetAll | script.js:298-305 | a run of assignments, made in order |
| Viewer.ParseExe | script.js:341-363 | the record gets the PE fields or the "EXE Error" |
| Viewer.ParseImageExif | script.js:366-383 | the record gets the scan's field |
| Viewer.ParseText | script.js:327-337 | the record gets the two text fields |
| Viewer.ParseStructuredText | script.js:141-173 | the record gets the structured-text fields |
| Viewer.ParseCodeFile | script.js:245-309 | the record gets the code fields, with the counters taken from the loop |
| Viewer.DisplayOf | script.js:28-78 | nothing is shown exactly when the buffer is shorter than 132 bytes; otherwise the four base fields come first; the record goes to a library handler exactly when the cascade selects one, and then holds only those fields; otherwise the selected handler's fields follow them |
| Viewer.HandlerFieldsFresh | script.js:29-34 | no handler field reuses a base key, and all keys are distinct |
| Viewer.HandleFile | script.js:28-78 | the cascade's outcome, and the display that DisplayOf specifies |
| Viewer.BaseLinesFirst | script.js:424-428 | the page and the CSV export begin with the four base lines, whichever handler ran |

## Left out

- `parseDicom`, `parseOfficeMetadata`, `parseZip` and `parseSqlite` call dicom-parser, JSZip and sql.js. `parseMediaMetadata` uses the page's media element. The model selects these handlers and passes them the base record (`HandedOff`), but does not model the fields they add.
- File reading (`FileReader`), the event listeners, the clipboard and the downloads are browser I/O and are not modelled. The bytes, the decoded text and the `File` properties are parameters.
- UTF-8 decoding by `readAsText` is not modelled. The text is a separate parameter, unrelated to the bytes.
- `new Date(ms).toString()`, the `toFixed(1)` comment ratio and the RangeError message depend on the host. They are parameters (`Viewer.Host`).
- `JSON.parse` and `DOMParser` are host parsers. Their outcomes are `Result` parameters of `TextMetrics.StructuredFields`.
- Viewer.DisplayOf: JavaScript lists integer-like object keys before all other keys. No key written here is integer-like, so the record is modelled in plain insertion order.
- Strs.ExtensionOf: `toLowerCase` also lowers non-ASCII letters, while the model lowers ASCII letters only. The two agree whenever the lowered name is one of the listed ASCII extensions, except for the Kelvin sign U+212A, which JavaScript lowers to "k". A name such as "x.\u{212A}t" is not routed to `parseCodeFile`, because the `/i` test does not fold it.
- TextMetrics.StructuredFields: its contract pins down only the JSON and CSV branches. The INI/CFG and Markdown branches are covered by their own lemmas (SectionNameIff, the SectionNames lemmas, HeadingCountIsCardinality), and the XML branch only by the "Parse Error" clause.
- The concrete CSV text `a,b,c\n1,2,3\n4,5,6` is covered only by the general three-column, two-row lemma TextMetrics.CsvThreeByTwo.
- CodeStats.LanguageOfKnown: `languageMap[ext]` looks the extension up in a plain object, so names such as "constructor" or "__proto__" would find members inherited from `Object.prototype`. The model's map has only the listed keys. The dispatcher never sends such a name to `parseCodeFile` (CodeStats.DispatchedHasLanguage), so the difference cannot show.
- Record.RenderTextLines: it assumes that no key or value contains a line feed. A code file of two or more lines breaks this, because its "Preview" joins lines with "\n" (`script.js:305`). Its page text then has more lines than the record has fields, and the model does not describe how those extra lines split.
- Record.RenderCsvLines: the same assumption, and the same multi-line "Preview" breaks it in the CSV export.
