/**
 * The tracker's local storage: one entry per (barangay, sitio) key holding the
 * JSON list of that locality's records. Aggregation reads the entries of the
 * enumerated localities in order; the import, clear and download buttons
 * act on the session's own key only.
 *
 * An entry is `Some(list)` when its text parses to a JSON array of records and
 * `None` when it is present but does not (the `catch` branch); a key that is
 * not in the map has no entry.
 */
module Store {
  import opened Wrappers
  import opened Csv
  import opened Records
  import opened Import

  type Items = map<string, Option<seq<Record>>>

  // ---------------------------------------------------------------- what the aggregation reads

  /** The records one entry contributes: none when it is missing or does not parse. */
  function Stored(items: Items, key: string): seq<Record> {
    if key in items && items[key].Some? then items[key].value else []
  }

  /** The records of the entries `keys`, concatenated in the order of `keys`. */
  function Gather(items: Items, keys: seq<string>): seq<Record> {
    if keys == [] then []
    else Gather(items, keys[..|keys| - 1]) + Stored(items, keys[|keys| - 1])
  }

  /** The keys of one barangay's sitios, in `SITIOS` order. */
  function SitioKeys(b: string): (keys: seq<string>)
    ensures |keys| == |SITIOS|
  {
    seq(|SITIOS|, j requires 0 <= j < |SITIOS| => StorageKeyFor(b, SITIOS[j]))
  }

  /** What `getBarangayData(b)` returns. */
  function BarangayRecords(items: Items, b: string): seq<Record> {
    Gather(items, SitioKeys(b))
  }

  /** The records of the barangays `bs`, one barangay after the other. */
  function Across(items: Items, bs: seq<string>): seq<Record> {
    if bs == [] then []
    else Across(items, bs[..|bs| - 1]) + BarangayRecords(items, bs[|bs| - 1])
  }

  /** What `getAllData()` returns. */
  function AllRecords(items: Items): seq<Record> {
    Across(items, BARANGAYS)
  }

  /** The keys the nested loops of `getAllData` visit, in visiting order. */
  function KeysFor(bs: seq<string>): (keys: seq<string>)
    ensures |keys| == |SITIOS| * |bs|
  {
    if bs == [] then [] else KeysFor(bs[..|bs| - 1]) + SitioKeys(bs[|bs| - 1])
  }

  // ---------------------------------------------------------------- properties of the aggregation

  /** Gathering two runs of keys is gathering each in turn. */
  lemma {:induction false} GatherAppend(items: Items, k1: seq<string>, k2: seq<string>)
    ensures Gather(items, k1 + k2) == Gather(items, k1) + Gather(items, k2)
    decreases |k2|
  {
    if k2 != [] {
      var init := k2[..|k2| - 1];
      assert (k1 + k2)[..|k1 + k2| - 1] == k1 + init;
      assert (k1 + k2)[|k1 + k2| - 1] == k2[|k2| - 1];
      GatherAppend(items, k1, init);
      ConcatAssoc(Gather(items, k1), Gather(items, init), Stored(items, k2[|k2| - 1]));
    } else {
      assert k1 + k2 == k1;
    }
  }

  /** The barangay-by-barangay concatenation is the gather of every visited key, in order. */
  lemma {:induction false} AcrossIsGather(items: Items, bs: seq<string>)
    ensures Across(items, bs) == Gather(items, KeysFor(bs))
    decreases |bs|
  {
    if bs != [] {
      var init := bs[..|bs| - 1];
      AcrossIsGather(items, init);
      GatherAppend(items, KeysFor(init), SitioKeys(bs[|bs| - 1]));
    }
  }

  /** The visited keys are every barangay of `bs` with every sitio, the sitios varying fastest. */
  lemma {:induction false} KeysForAt(bs: seq<string>, i: nat, j: nat)
    requires i < |bs| && j < |SITIOS|
    ensures KeysFor(bs)[|SITIOS| * i + j] == StorageKeyFor(bs[i], SITIOS[j])
    decreases |bs|
  {
    var init := bs[..|bs| - 1];
    if i < |bs| - 1 {
      KeysForAt(init, i, j);
      assert KeysFor(bs)[|SITIOS| * i + j] == KeysFor(init)[|SITIOS| * i + j];
    } else {
      assert |KeysFor(init)| == |SITIOS| * i;
      assert KeysFor(bs)[|SITIOS| * i + j] == SitioKeys(bs[i])[j];
    }
  }

  /** A record is gathered exactly when some listed entry holds it. */
  lemma {:induction false} GatherMembership(items: Items, keys: seq<string>, x: Record)
    ensures x in Gather(items, keys) <==> exists k :: k in keys && x in Stored(items, k)
    decreases |keys|
  {
    if keys != [] {
      var init, last := keys[..|keys| - 1], keys[|keys| - 1];
      GatherMembership(items, init, x);
      assert keys == init + [last];
      if x in Stored(items, last) {
        assert last in keys;
      } else if exists k :: k in keys && x in Stored(items, k) {
        var k :| k in keys && x in Stored(items, k);
        assert k in init;
      }
    }
  }

  /** Only the listed entries are read: two stores that agree on them gather the same records. */
  lemma {:induction false} GatherReadsOnlyKeys(items: Items, other: Items, keys: seq<string>)
    requires forall j :: 0 <= j < |keys| ==> Stored(items, keys[j]) == Stored(other, keys[j])
    ensures Gather(items, keys) == Gather(other, keys)
    decreases |keys|
  {
    if keys != [] {
      GatherReadsOnlyKeys(items, other, keys[..|keys| - 1]);
    }
  }

  /** Missing and unparsable entries contribute nothing, so dropping them changes nothing. */
  lemma {:induction false} GatherSkipsEmpty(items: Items, keys: seq<string>, key: string)
    requires Stored(items, key) == []
    ensures Gather(items, keys + [key]) == Gather(items, keys)
  {
    assert (keys + [key])[..|keys|] == keys;
  }

  // ---------------------------------------------------------------- the session's own entry

  /** What the import button does to the store: a rejection, or the session's entry replaced by the imported list. */
  function ImportInto(items: Items, rows: seq<seq<string>>, barangay: string, sitio: string): Result<Items, ImportError> {
    match ImportRecords(rows, barangay, sitio)
    case Err(e) => Err(e)
    case Ok(list) => Ok(items[StorageKeyFor(barangay, sitio) := Some(list)])
  }

  /** What the clear button does to the store. */
  function ClearFrom(items: Items, barangay: string, sitio: string): Items {
    items - {StorageKeyFor(barangay, sitio)}
  }

  /** The text the CSV download produces, or `None` when the entry does not parse and the download fails. */
  function ExportText(items: Items, barangay: string, sitio: string): Option<string> {
    var key := StorageKeyFor(barangay, sitio);
    if key !in items then Some(ToCSV(ExportRows([])))
    else
      match items[key]
      case None => None
      case Some(data) => Some(ToCSV(ExportRows(data)))
  }

  /** An accepted import stores its list under the session's key and leaves every other entry as it was. */
  lemma ImportTouchesOnlySessionKey(items: Items, rows: seq<seq<string>>, barangay: string, sitio: string)
    requires ImportInto(items, rows, barangay, sitio).Ok?
    ensures var after, key := ImportInto(items, rows, barangay, sitio).value, StorageKeyFor(barangay, sitio);
      Stored(after, key) == ImportRecords(rows, barangay, sitio).value
      && forall k :: k != key ==> (k in after <==> k in items) && (k in after ==> after[k] == items[k])
  {
  }

  /** Entries of enumerated localities other than the session's are not touched by an import. */
  lemma ImportKeepsOtherLocalities(items: Items, rows: seq<seq<string>>, barangay: string, sitio: string, b: string, s: string)
    requires barangay in BARANGAYS && sitio in SITIOS && b in BARANGAYS && s in SITIOS
    requires (b, s) != (barangay, sitio)
    requires ImportInto(items, rows, barangay, sitio).Ok?
    ensures Stored(ImportInto(items, rows, barangay, sitio).value, StorageKeyFor(b, s)) == Stored(items, StorageKeyFor(b, s))
  {
    EnumeratedKeysDistinct(b, s, barangay, sitio);
  }

  /** `getBarangayData` of any other enumerated barangay reads the same records after an import. */
  lemma ImportKeepsOtherBarangays(items: Items, rows: seq<seq<string>>, barangay: string, sitio: string, b: string)
    requires barangay in BARANGAYS && sitio in SITIOS && b in BARANGAYS && b != barangay
    requires ImportInto(items, rows, barangay, sitio).Ok?
    ensures BarangayRecords(ImportInto(items, rows, barangay, sitio).value, b) == BarangayRecords(items, b)
  {
    var after := ImportInto(items, rows, barangay, sitio).value;
    var keys := SitioKeys(b);
    forall j | 0 <= j < |keys|
      ensures Stored(after, keys[j]) == Stored(items, keys[j])
    {
      ImportKeepsOtherLocalities(items, rows, barangay, sitio, b, SITIOS[j]);
    }
    GatherReadsOnlyKeys(after, items, keys);
  }

  /** Clearing removes the session's entry only. */
  lemma ClearTouchesOnlySessionKey(items: Items, barangay: string, sitio: string)
    ensures var after, key := ClearFrom(items, barangay, sitio), StorageKeyFor(barangay, sitio);
      key !in after && Stored(after, key) == []
      && forall k :: k != key ==> (k in after <==> k in items) && (k in after ==> after[k] == items[k])
  {
  }

  /** `getBarangayData` of any other enumerated barangay reads the same records after a clear. */
  lemma ClearKeepsOtherBarangays(items: Items, barangay: string, sitio: string, b: string)
    requires barangay in BARANGAYS && sitio in SITIOS && b in BARANGAYS && b != barangay
    ensures BarangayRecords(ClearFrom(items, barangay, sitio), b) == BarangayRecords(items, b)
  {
    var after := ClearFrom(items, barangay, sitio);
    var keys := SitioKeys(b);
    forall j | 0 <= j < |keys|
      ensures Stored(after, keys[j]) == Stored(items, keys[j])
    {
      EnumeratedKeysDistinct(b, SITIOS[j], barangay, sitio);
    }
    GatherReadsOnlyKeys(after, items, keys);
  }

  /** Importing the session's own download, when its records are exportable, leaves the store as it was. */
  lemma ReimportOwnExport(items: Items, barangay: string, sitio: string)
    requires StorageKeyFor(barangay, sitio) in items
    requires items[StorageKeyFor(barangay, sitio)].Some?
    requires var data := items[StorageKeyFor(barangay, sitio)].value;
      forall i :: 0 <= i < |data| ==> Exportable(data[i])
    ensures ExportText(items, barangay, sitio).Some?
    ensures ImportInto(items, Parse(ExportText(items, barangay, sitio).value), barangay, sitio) == Ok(items)
  {
    var key := StorageKeyFor(barangay, sitio);
    var data := items[key].value;
    var text := ToCSV(ExportRows(data));
    assert ExportText(items, barangay, sitio) == Some(text);
    ExportImportRoundTrip(data, barangay, sitio);
    assert ImportRecords(Parse(text), barangay, sitio) == Ok(data);
    assert items[key := Some(data)] == items;
  }

  /** The download of a locality with no entry is the header alone, and importing it stores an empty list. */
  lemma ReimportEmptyExport(items: Items, barangay: string, sitio: string)
    requires StorageKeyFor(barangay, sitio) !in items
    ensures ExportText(items, barangay, sitio) == Some(ToCSV(ExportRows([])))
    ensures ImportInto(items, Parse(ExportText(items, barangay, sitio).value), barangay, sitio)
      == Ok(items[StorageKeyFor(barangay, sitio) := Some([])])
  {
    ExportImportRoundTrip([], barangay, sitio);
  }

  // ---------------------------------------------------------------- the loops

  /** `list.forEach(x => out.push(x))`. */
  method PushAll(out: seq<Record>, list: seq<Record>) returns (r: seq<Record>)
    ensures r == out + list
  {
    r := out;
    var i := 0;
    while i < |list|
      invariant 0 <= i <= |list|
      invariant r == out + list[..i]
    {
      assert list[..i + 1] == list[..i] + [list[i]];
      r := r + [list[i]];
      i := i + 1;
    }
    assert list[..i] == list;
  }

  /** `data.forEach(r => rows.push([...]))` after the header row. */
  method BuildExportRows(data: seq<Record>) returns (rows: seq<seq<Value>>)
    ensures rows == ExportRows(data)
  {
    rows := [seq(|HEADER|, j requires 0 <= j < |HEADER| => Str(HEADER[j]))];
    var i := 0;
    while i < |data|
      invariant 0 <= i <= |data|
      invariant rows == ExportRows(data[..i])
    {
      assert ExportRows(data[..i + 1]) == ExportRows(data[..i]) + [RecordRow(data[i])];
      rows := rows + [RecordRow(data[i])];
      i := i + 1;
    }
    assert data[..i] == data;
  }

  /** One more key extends the gather by that key's records. */
  lemma GatherStep(items: Items, keys: seq<string>, j: nat)
    requires j < |keys|
    ensures Gather(items, keys[..j + 1]) == Gather(items, keys[..j]) + Stored(items, keys[j])
  {
    assert keys[..j + 1][..j] == keys[..j];
  }

  /** One more barangay extends the concatenation by that barangay's records. */
  lemma AcrossStep(items: Items, bs: seq<string>, i: nat)
    requires i < |bs|
    ensures Across(items, bs[..i + 1]) == Across(items, bs[..i]) + BarangayRecords(items, bs[i])
  {
    assert bs[..i + 1][..i] == bs[..i];
  }

  /** `localStorage` as the tracker uses it: the map from keys to entries. */
  class LocalStore {
    var items: Items

    constructor(initial: Items)
      ensures items == initial
    {
      items := initial;
    }

    /** The entry under `key`, as the aggregation loops read it: `Some` list when it exists and parses. */
    method Read(key: string) returns (entry: Option<seq<Record>>)
      ensures entry.Some? <==> key in items && items[key].Some?
      ensures entry.Some? ==> entry.value == Stored(items, key)
    {
      if key in items && items[key].Some? {
        entry := items[key];
      } else {
        entry := None;
      }
    }

    /** `getBarangayData(barangay)`: the records of its sitios, in `SITIOS` order. */
    method GetBarangayData(barangay: string) returns (out: seq<Record>)
      ensures out == BarangayRecords(items, barangay)
    {
      out := [];
      ghost var keys := SitioKeys(barangay);
      for j := 0 to |SITIOS|
        invariant out == Gather(items, keys[..j])
      {
        var key := StorageKeyFor(barangay, SITIOS[j]);
        GatherStep(items, keys, j);
        var entry := Read(key);
        if entry.None? {
          continue;
        }
        out := PushAll(out, entry.value);
      }
      assert keys[..|SITIOS|] == keys;
    }

    /** `getAllData()`: the records of every enumerated locality, barangay by barangay; its inner loop is the one of `GetBarangayData`. */
    method GetAllData() returns (all: seq<Record>)
      ensures all == AllRecords(items)
    {
      all := [];
      for i := 0 to |BARANGAYS|
        invariant all == Across(items, BARANGAYS[..i])
      {
        var out := GetBarangayData(BARANGAYS[i]);
        all := PushAll(all, out);
        AcrossStep(items, BARANGAYS, i);
      }
      assert BARANGAYS[..|BARANGAYS|] == BARANGAYS;
    }

    /** The import button on the text of the chosen file: a rejection leaves the store unchanged. */
    method ImportCsv(text: string, barangay: string, sitio: string) returns (r: Result<seq<Record>, ImportError>)
      modifies this
      ensures r == ImportRecords(Parse(text), barangay, sitio)
      ensures r.Err? ==> items == old(items)
      ensures r.Ok? ==> items == old(items)[StorageKeyFor(barangay, sitio) := Some(r.value)]
      ensures ImportInto(old(items), Parse(text), barangay, sitio) == (if r.Ok? then Ok(items) else Err(r.error))
    {
      var rows := ParseCSV(text);
      r := ImportRows(rows, barangay, sitio);
      if r.Ok? {
        items := items[StorageKeyFor(barangay, sitio) := Some(r.value)];
      }
    }

    /** The clear button, once confirmed. */
    method ClearRecords(barangay: string, sitio: string)
      modifies this
      ensures items == ClearFrom(old(items), barangay, sitio)
    {
      items := items - {StorageKeyFor(barangay, sitio)};
    }

    /** The CSV download: the text handed to `download`, or `None` when `JSON.parse` throws. */
    method DownloadCsv(barangay: string, sitio: string) returns (text: Option<string>)
      ensures text == ExportText(items, barangay, sitio)
    {
      var key := StorageKeyFor(barangay, sitio);
      var data: seq<Record> := [];
      if key in items {
        if items[key].None? {
          return None;
        }
        data := items[key].value;
      }
      var rows := BuildExportRows(data);
      text := Some(ToCSV(rows));
    }
  }
}
