/**
  `parseExe`: the Microsoft PE/COFF header fields the viewer shows.  The
  MS-DOS stub holds at 0x3C the little-endian offset (`e_lfanew`) of the
  PE signature "PE\0\0", read big-endian as 0x50450000; the COFF file
  header follows, with Machine (u16 at +4) and TimeDateStamp (u32 at +8);
  the entry point is read as the u32 at +40, which is
  AddressOfEntryPoint of the optional header.  Every read goes through
  `DataView`, so a read past the end of the buffer is a RangeError.
*/
module PeHeader {
  import opened Results
  import opened Bytes
  import opened Strs
  import opened Record

  const LFANEW_OFFSET: nat := 0x3C
  const PE_SIGNATURE: nat := 0x5045_0000
  const MACHINE_I386: nat := 0x14c
  const MACHINE_AMD64: nat := 0x8664

  datatype PeInfo = PeInfo(machine: nat, timestamp: nat, entryPoint: nat)

  /** The two ways `parseExe` fails: a read out of range, or a wrong signature. */
  datatype ExeError = OutOfRange | NotPe

  /** The header reads of `parseExe`, in its order, stopping at the first failure. */
  function ParsePe(b: seq<byte>): (r: Result<PeInfo, ExeError>)
    ensures r.Ok? <==>
      LFANEW_OFFSET + 4 <= |b| && ReadU32LE(b, LFANEW_OFFSET) + 44 <= |b|
      && ReadU32BE(b, ReadU32LE(b, LFANEW_OFFSET)) == PE_SIGNATURE
    ensures r.Ok? ==>
      var p := ReadU32LE(b, LFANEW_OFFSET);
      r.value == PeInfo(ReadU16LE(b, p + 4), ReadU32LE(b, p + 8), ReadU32LE(b, p + 40))
    ensures r == Err(NotPe) <==>
      LFANEW_OFFSET + 4 <= |b| && ReadU32LE(b, LFANEW_OFFSET) + 4 <= |b|
      && ReadU32BE(b, ReadU32LE(b, LFANEW_OFFSET)) != PE_SIGNATURE
  {
    match GetU32(b, LFANEW_OFFSET, true)
    case None => Err(OutOfRange)
    case Some(peOffset) =>
      match GetU32(b, peOffset, false)
      case None => Err(OutOfRange)
      case Some(sig) =>
        if sig != PE_SIGNATURE then Err(NotPe)
        else
          match (GetU16(b, peOffset + 4, true), GetU32(b, peOffset + 8, true), GetU32(b, peOffset + 40, true))
          case (Some(machine), Some(timestamp), Some(entryPoint)) => Ok(PeInfo(machine, timestamp, entryPoint))
          case _ => Err(OutOfRange)
  }

  /** The "EXE Architecture" text for a COFF Machine value. */
  function ArchName(machine: nat): (s: string)
    ensures machine == MACHINE_I386 ==> s == "x86"
    ensures machine == MACHINE_AMD64 ==> s == "x64"
    ensures machine != MACHINE_I386 && machine != MACHINE_AMD64 ==>
      s == "Unknown (" + Hex(machine) + ")" && FromRadix(s[9..|s| - 1], 16) == machine
  {
    if machine == MACHINE_I386 then "x86"
    else if machine == MACHINE_AMD64 then "x64"
    else
      var h := Hex(machine);
      var s := "Unknown (" + h + ")";
      assert s[9..|s| - 1] == h;
      FromToRadix(machine, 16);
      s
  }

  /** The "PE Entry Point" text: "0x" and lower-case hex digits, which read back as the value. */
  function EntryPointText(entryPoint: nat): (s: string)
    ensures |s| >= 3 && s[..2] == "0x"
    ensures forall i :: 2 <= i < |s| ==> IsDigitOf(s[i], 16)
    ensures FromRadix(s[2..], 16) == entryPoint
    ensures |s| > 3 ==> s[2] != '0'
  {
    var s := "0x" + Hex(entryPoint);
    assert s[2..] == Hex(entryPoint);
    FromToRadix(entryPoint, 16);
    s
  }

  /**
    The fields `parseExe` adds.  `dateText` is the host's
    `new Date(ms).toString()`; `rangeErrorMessage` is the message of the
    RangeError the host's DataView throws.
  */
  function ExeFields(r: Result<PeInfo, ExeError>, dateText: int -> string, rangeErrorMessage: string): (kvs: Entries)
    ensures UniqueKeys(kvs)
    ensures r.Err? <==> HasKey(kvs, "EXE Error")
    ensures r.Err? ==> |kvs| == 1
    ensures r == Err(NotPe) ==> Lookup(kvs, "EXE Error") == Some(Str("Not a valid PE file"))
    ensures r == Err(OutOfRange) ==> Lookup(kvs, "EXE Error") == Some(Str(rangeErrorMessage))
    ensures r.Ok? ==> (
      && |kvs| == 3
      && kvs[0].0 == "EXE Architecture" && kvs[1].0 == "PE Entry Point" && kvs[2].0 == "PE Timestamp"
      && Lookup(kvs, "EXE Architecture") == Some(Str(ArchName(r.value.machine)))
      && Lookup(kvs, "PE Entry Point") == Some(Str(EntryPointText(r.value.entryPoint)))
      && Lookup(kvs, "PE Timestamp") == Some(Str(dateText(r.value.timestamp * 1000))))
  {
    match r
    case Ok(info) =>
      var kvs := [("EXE Architecture", Str(ArchName(info.machine))),
                  ("PE Entry Point", Str(EntryPointText(info.entryPoint))),
                  ("PE Timestamp", Str(dateText(info.timestamp * 1000)))];
      LookupAt(kvs, 0);
      LookupAt(kvs, 1);
      LookupAt(kvs, 2);
      kvs
    case Err(e) =>
      var kvs := [("EXE Error", Str(if e == NotPe then "Not a valid PE file" else rangeErrorMessage))];
      assert kvs[0].0 == "EXE Error";
      LookupAt(kvs, 0);
      kvs
  }

  /**
    A header laid out as in the PE format (e_lfanew = 80, "PE\0\0" at 80,
    Machine 0x014C at 84) parses as x86 with the timestamp at 88.
  */
  lemma X86Example(b: seq<byte>)
    requires |b| >= 124
    requires b[0x3C..0x40] == [80, 0, 0, 0]
    requires b[80..84] == [0x50, 0x45, 0, 0]
    requires b[84..86] == [0x4C, 0x01]
    ensures ParsePe(b).Ok?
    ensures ArchName(ParsePe(b).value.machine) == "x86"
    ensures ParsePe(b).value.timestamp == ReadU32LE(b, 88)
  {
    assert b[0x3C] == 80 && b[0x3D] == 0 && b[0x3E] == 0 && b[0x3F] == 0;
    assert ReadU32LE(b, LFANEW_OFFSET) == 80;
    assert b[80] == 0x50 && b[81] == 0x45 && b[82] == 0 && b[83] == 0;
    assert b[84] == 0x4C && b[85] == 0x01;
  }

  /** The same header with a different byte at 80 fails with "Not a valid PE file". */
  lemma BadSignatureExample(b: seq<byte>)
    requires |b| >= 124
    requires b[0x3C..0x40] == [80, 0, 0, 0]
    requires b[80] != 0x50
    ensures ParsePe(b) == Err(NotPe)
    ensures ExeFields(ParsePe(b), (ms: int) => "", "") == [("EXE Error", Str("Not a valid PE file"))]
  {
    assert b[0x3C] == 80 && b[0x3D] == 0 && b[0x3E] == 0 && b[0x3F] == 0;
    assert ReadU32LE(b, LFANEW_OFFSET) == 80;
    assert ReadU32BE(b, 80) / 0x100_0000 == b[80] as nat;
  }
}
