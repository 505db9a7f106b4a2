/**
  `parseImageExif`: a linear scan for the JPEG APP1 marker 0xFFE1 (the
  segment that carries Exif data, ITU-T T.81 Table B.1), reading
  big-endian 16-bit values at the offsets 2, 4, 6, ... and reporting the
  16-bit length that follows the first marker found.  The scan does not
  skip segment payloads and does not check the start-of-image marker.  A
  read that crosses the end of the buffer throws a RangeError, which the
  handler turns into an "EXIF Error" field.
*/
module Exif {
  import opened Results
  import opened Bytes
  import opened Record

  const APP1: nat := 0xFFE1
  const SCAN_START: nat := 2

  /** What the loop ends with: a segment length, no marker, or a RangeError. */
  datatype ScanResult = Found(length: nat) | NotFound | Truncated

  /** The marker value 0xFFE1 can be read at offset o. */
  predicate MarkerAt(b: seq<byte>, o: nat) {
    o + 2 <= |b| && ReadU16BE(b, o) == APP1
  }

  /** The scan from offset o, as the loop runs it. */
  function ScanFrom(b: seq<byte>, o: nat): ScanResult
    decreases |b| - o
  {
    if o >= |b| then NotFound
    else if o + 2 > |b| then Truncated
    else if ReadU16BE(b, o) == APP1 then
      if o + 4 > |b| then Truncated else Found(ReadU16BE(b, o + 2))
    else ScanFrom(b, o + 2)
  }

  /** The outcome of the scan, from offset 2: the specification of ScanSegments. */
  function ExifScan(b: seq<byte>): ScanResult {
    ScanFrom(b, SCAN_START)
  }

  /** The `while` loop of `parseImageExif`, with its early `break`. */
  method ScanSegments(b: seq<byte>) returns (r: ScanResult)
    ensures r == ExifScan(b)
  {
    var offset := SCAN_START;
    r := NotFound;
    while offset < |b|
      invariant ScanFrom(b, offset) == ScanFrom(b, SCAN_START)
      decreases |b| - offset
    {
      var marker := GetU16(b, offset, false);
      if marker.None? {
        r := Truncated;
        return;
      }
      if marker.value == APP1 {
        var exifLength := GetU16(b, offset + 2, false);
        if exifLength.None? {
          r := Truncated;
        } else {
          r := Found(exifLength.value);
        }
        return;
      }
      offset := offset + 2;
    }
  }

  /** No offset s, s + 2, ..., below o carries the marker. */
  predicate NoMarkerBetween(b: seq<byte>, s: nat, o: nat) {
    forall p :: s <= p < o && (p - s) % 2 == 0 ==> !MarkerAt(b, p)
  }

  /** A scan from s that meets its first marker at o. */
  lemma {:induction false} ScanReachesMarker(b: seq<byte>, s: nat, o: nat)
    requires s <= o && (o - s) % 2 == 0
    requires MarkerAt(b, o) && NoMarkerBetween(b, s, o)
    ensures ScanFrom(b, s) == if o + 4 <= |b| then Found(ReadU16BE(b, o + 2)) else Truncated
    decreases o - s
  {
    if s < o {
      assert !MarkerAt(b, s);
      assert s + 2 <= |b|;
      assert NoMarkerBetween(b, s + 2, o) by {
        forall p | s + 2 <= p < o && (p - (s + 2)) % 2 == 0 ensures !MarkerAt(b, p) {
          assert (p - s) % 2 == 0;
        }
      }
      ScanReachesMarker(b, s + 2, o);
    }
  }

  /** A scan from s that meets no marker ends in a RangeError exactly when the length is odd. */
  lemma {:induction false} ScanWithoutMarker(b: seq<byte>, s: nat)
    requires NoMarkerBetween(b, s, |b|)
    ensures ScanFrom(b, s) == if s < |b| && (|b| - s) % 2 == 1 then Truncated else NotFound
    decreases |b| - s
  {
    if s + 2 <= |b| {
      assert !MarkerAt(b, s);
      assert NoMarkerBetween(b, s + 2, |b|) by {
        forall p | s + 2 <= p < |b| && (p - (s + 2)) % 2 == 0 ensures !MarkerAt(b, p) {
          assert (p - s) % 2 == 0;
        }
      }
      ScanWithoutMarker(b, s + 2);
    }
  }

  /**
    The first marker at an even offset o >= 2 decides the scan: its
    length field when that is in the buffer, a RangeError otherwise.
  */
  lemma FirstMarkerDecides(b: seq<byte>, o: nat)
    requires SCAN_START <= o && o % 2 == 0 && MarkerAt(b, o) && NoMarkerBetween(b, SCAN_START, o)
    ensures ExifScan(b) == if o + 4 <= |b| then Found(ReadU16BE(b, o + 2)) else Truncated
  {
    ScanReachesMarker(b, SCAN_START, o);
  }

  /**
    With no marker at any even offset from 2, the scan finds nothing on
    an even-length buffer (or one shorter than 3 bytes) and ends in a
    RangeError on an odd-length one.
  */
  lemma NoMarkerDecides(b: seq<byte>)
    requires NoMarkerBetween(b, SCAN_START, |b|)
    ensures ExifScan(b) == if |b| >= 3 && |b| % 2 == 1 then Truncated else NotFound
  {
    ScanWithoutMarker(b, SCAN_START);
  }

  /** `FF D8 FF E1 00 0A ...`: start of image, then APP1 with length 10. */
  lemma App1Example(b: seq<byte>)
    requires |b| >= 6 && b[..6] == [0xFF, 0xD8, 0xFF, 0xE1, 0x00, 0x0A]
    ensures ExifScan(b) == Found(10)
  {
    assert b[2] == 0xFF && b[3] == 0xE1 && b[4] == 0 && b[5] == 0x0A;
  }

  /** The field `parseImageExif` adds: the length, nothing, or the RangeError message. */
  function ExifFields(r: ScanResult, rangeErrorMessage: string): (kvs: Entries)
    ensures |kvs| <= 1 && (kvs == [] <==> r.NotFound?)
    ensures r.Found? ==> kvs == [("EXIF Segment Length", Num(r.length))]
    ensures r.Truncated? ==> kvs == [("EXIF Error", Str(rangeErrorMessage))]
  {
    match r
    case Found(n) => [("EXIF Segment Length", Num(n))]
    case NotFound => []
    case Truncated => [("EXIF Error", Str(rangeErrorMessage))]
  }
}
