/**
  The metadata record: a JavaScript object used as an ordered map from
  field name to display value.  Its entries iterate in insertion order;
  assigning to a key that is already present replaces the value and
  keeps the key where it was.  Also the two renderings of a record, the
  `key: value` text shown on the page and the `"key","value"` CSV export.
*/
module Record {
  import opened Results
  import opened Strs

  /** A field value: a string or a (non-negative integer) number. */
  datatype Value = Str(s: string) | Num(n: nat)

  type Entries = seq<(string, Value)>

  /** Template-literal interpolation `${v}`. */
  function Render(v: Value): string {
    match v
    case Str(s) => s
    case Num(n) => Decimal(n)
  }

  predicate HasKey(e: Entries, k: string) {
    exists i :: 0 <= i < |e| && e[i].0 == k
  }

  predicate UniqueKeys(e: Entries) {
    forall i, j :: 0 <= i < j < |e| ==> e[i].0 != e[j].0
  }

  /** Position of the first entry with key k. */
  function IndexOf(e: Entries, k: string): (r: Option<nat>)
    ensures r.None? <==> !HasKey(e, k)
    ensures r.Some? ==> r.value < |e| && e[r.value].0 == k
    ensures r.Some? ==> forall j :: 0 <= j < r.value ==> e[j].0 != k
  {
    if e == [] then None
    else if e[0].0 == k then Some(0)
    else
      match IndexOf(e[1..], k)
      case None =>
        assert forall i :: 1 <= i < |e| ==> e[i] == e[1..][i - 1];
        None
      case Some(i) => Some(i + 1)
  }

  /** Reading a field: the value stored under k, if any. */
  function Lookup(e: Entries, k: string): Option<Value> {
    match IndexOf(e, k)
    case None => None
    case Some(i) => Some(e[i].1)
  }

  /**
    `obj[k] = v`: a new key goes to the end; an existing key keeps its
    position and takes the new value; every other entry is unchanged.
  */
  function Put(e: Entries, k: string, v: Value): (r: Entries)
    ensures |r| == if HasKey(e, k) then |e| else |e| + 1
    ensures forall i :: 0 <= i < |e| ==> r[i].0 == e[i].0
    ensures forall i :: 0 <= i < |e| && e[i].0 != k ==> r[i] == e[i]
    ensures !HasKey(e, k) ==> r[|e|] == (k, v)
    ensures Lookup(r, k) == Some(v)
    ensures forall k' :: k' != k ==> Lookup(r, k') == Lookup(e, k')
    ensures UniqueKeys(e) ==> UniqueKeys(r)
  {
    match IndexOf(e, k)
    case Some(i) =>
      var r := e[i := (k, v)];
      assert IndexOf(r, k) == Some(i) by { IndexOfSameKeys(e, r, k); }
      forall k' | k' != k ensures Lookup(r, k') == Lookup(e, k') {
        IndexOfSameKeys(e, r, k');
      }
      r
    case None =>
      var r := e + [(k, v)];
      assert IndexOf(r, k) == Some(|e|) by { IndexOfAppend(e, (k, v), k); }
      forall k' | k' != k ensures Lookup(r, k') == Lookup(e, k') {
        IndexOfAppend(e, (k, v), k');
      }
      r
  }

  /** Two records with the same keys in the same order find every key at the same place. */
  lemma IndexOfSameKeys(e: Entries, r: Entries, k: string)
    requires |e| == |r| && forall i :: 0 <= i < |e| ==> r[i].0 == e[i].0
    ensures IndexOf(r, k) == IndexOf(e, k)
  {
    match IndexOf(e, k)
    case None =>
    case Some(i) =>
      assert r[i].0 == k;
  }

  /** IndexOf finds the first entry with the key, wherever that is. */
  lemma IndexOfFirst(e: Entries, k: string, i: nat)
    requires i < |e| && e[i].0 == k && forall j :: 0 <= j < i ==> e[j].0 != k
    ensures IndexOf(e, k) == Some(i)
  {
  }

  /** In a record with unique keys, each entry is what its key looks up. */
  lemma LookupAt(e: Entries, i: nat)
    requires UniqueKeys(e) && i < |e|
    ensures Lookup(e, e[i].0) == Some(e[i].1)
  {
    IndexOfFirst(e, e[i].0, i);
  }

  /** Appending an entry does not move the keys already there. */
  lemma IndexOfAppend(e: Entries, kv: (string, Value), k: string)
    ensures IndexOf(e + [kv], k) == if HasKey(e, k) then IndexOf(e, k) else if kv.0 == k then Some(|e|) else None
  {
    var r := e + [kv];
    match IndexOf(e, k)
    case Some(i) =>
      IndexOfFirst(r, k, i);
    case None =>
      if kv.0 == k {
        IndexOfFirst(r, k, |e|);
      } else {
        assert !HasKey(r, k);
      }
  }

  /** A sequence of assignments, made in order. */
  function PutAll(e: Entries, kvs: Entries): (r: Entries)
    ensures |r| >= |e|
    ensures forall i :: 0 <= i < |e| ==> r[i].0 == e[i].0
  {
    if kvs == [] then e
    else
      var last := kvs[|kvs| - 1];
      Put(PutAll(e, kvs[..|kvs| - 1]), last.0, last.1)
  }

  predicate KeysAvoid(kvs: Entries, keys: set<string>) {
    forall i :: 0 <= i < |kvs| ==> kvs[i].0 !in keys
  }

  function KeySet(e: Entries): set<string> {
    set i | 0 <= i < |e| :: e[i].0
  }

  /**
    Writes whose keys are new to e leave e as the record's prefix: the
    fields already there keep their positions and their values.
  */
  lemma {:induction false} PutAllKeepsPrefix(e: Entries, kvs: Entries)
    requires KeysAvoid(kvs, KeySet(e))
    ensures PutAll(e, kvs)[..|e|] == e
  {
    if kvs != [] {
      var init := kvs[..|kvs| - 1];
      var last := kvs[|kvs| - 1];
      assert KeysAvoid(init, KeySet(e)) by {
        forall i | 0 <= i < |init| ensures init[i].0 !in KeySet(e) { assert init[i] == kvs[i]; }
      }
      PutAllKeepsPrefix(e, init);
      var mid := PutAll(e, init);
      forall i | 0 <= i < |e| ensures mid[i].0 != last.0 {
        assert mid[i].0 == e[i].0 && e[i].0 in KeySet(e);
      }
    }
  }

  /** Writes with distinct keys, none already present, append in order. */
  lemma {:induction false} PutAllFresh(e: Entries, kvs: Entries)
    requires UniqueKeys(e + kvs)
    ensures PutAll(e, kvs) == e + kvs
  {
    if kvs != [] {
      var init := kvs[..|kvs| - 1];
      var last := kvs[|kvs| - 1];
      assert e + kvs == (e + init) + [last];
      assert UniqueKeys(e + init) by {
        forall i, j | 0 <= i < j < |e + init| ensures (e + init)[i].0 != (e + init)[j].0 {
          assert (e + init)[i] == (e + kvs)[i] && (e + init)[j] == (e + kvs)[j];
        }
      }
      PutAllFresh(e, init);
      assert !HasKey(e + init, last.0) by {
        forall i | 0 <= i < |e + init| ensures (e + init)[i].0 != last.0 {
          assert (e + kvs)[i] == (e + init)[i] && (e + kvs)[|e + kvs| - 1] == last;
        }
      }
    }
  }

  // ----- Rendering -----

  function TextLine(kv: (string, Value)): string {
    kv.0 + ": " + Render(kv.1)
  }

  function CsvLine(kv: (string, Value)): string {
    "\"" + kv.0 + "\",\"" + Render(kv.1) + "\""
  }

  function TextLines(e: Entries): (lines: seq<string>)
    ensures |lines| == |e|
  {
    seq(|e|, i requires 0 <= i < |e| => TextLine(e[i]))
  }

  function CsvLines(e: Entries): (lines: seq<string>)
    ensures |lines| == |e|
  {
    seq(|e|, i requires 0 <= i < |e| => CsvLine(e[i]))
  }

  /** What `displayMetadata` writes to the page: one `key: value` line per entry. */
  function RenderText(e: Entries): string {
    Join(TextLines(e), "\n")
  }

  /** The CSV export: one `"key","value"` line per entry, quotes not escaped. */
  function RenderCsv(e: Entries): string {
    Join(CsvLines(e), "\n")
  }

  predicate NoNewline(s: string) { NoneIn(s, {'\n'}) }

  predicate SingleLineEntries(e: Entries) {
    forall i :: 0 <= i < |e| ==> NoNewline(e[i].0) && NoNewline(Render(e[i].1))
  }

  /** Concatenations of newline-free strings are newline-free. */
  lemma NoNewlineConcat(a: string, b: string)
    requires NoNewline(a) && NoNewline(b)
    ensures NoNewline(a + b)
  {
    assert forall i :: 0 <= i < |a + b| ==> (a + b)[i] == if i < |a| then a[i] else b[i - |a|];
  }

  /**
    The rendered text lists the entries in record order: splitting it at
    line breaks gives back exactly one `key: value` line per entry.
  */
  lemma RenderTextLines(e: Entries)
    requires |e| > 0 && SingleLineEntries(e)
    ensures SplitAny(RenderText(e), {'\n'}) == TextLines(e)
  {
    var lines := TextLines(e);
    forall i | 0 <= i < |lines| ensures NoneIn(lines[i], {'\n'}) {
      NoNewlineConcat(e[i].0, ": ");
      NoNewlineConcat(e[i].0 + ": ", Render(e[i].1));
    }
    SplitJoin(lines, '\n');
  }

  /** The same for the CSV export. */
  lemma RenderCsvLines(e: Entries)
    requires |e| > 0 && SingleLineEntries(e)
    ensures SplitAny(RenderCsv(e), {'\n'}) == CsvLines(e)
  {
    var lines := CsvLines(e);
    forall i | 0 <= i < |lines| ensures NoneIn(lines[i], {'\n'}) {
      NoNewlineConcat("\"", e[i].0);
      NoNewlineConcat("\"" + e[i].0, "\",\"");
      NoNewlineConcat("\"" + e[i].0 + "\",\"", Render(e[i].1));
      NoNewlineConcat("\"" + e[i].0 + "\",\"" + Render(e[i].1), "\"");
    }
    SplitJoin(lines, '\n');
  }

  /** A record that starts with the entries of p renders p's lines first, in p's order. */
  lemma RenderPrefix(p: Entries, e: Entries)
    requires |p| <= |e| && e[..|p|] == p
    ensures TextLines(e)[..|p|] == TextLines(p) && CsvLines(e)[..|p|] == CsvLines(p)
  {
    assert forall i :: 0 <= i < |p| ==> e[i] == p[i];
  }

  /**
    Because quotes are not escaped, the CSV export can render two
    different records identically.
  */
  lemma CsvIsAmbiguous()
    ensures RenderCsv([("a\",\"b", Str("c"))]) == RenderCsv([("a", Str("b\",\"c"))])
  {
  }
}
