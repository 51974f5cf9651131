/**
 * A CSV row as the ingester holds it: a Ruby Hash from field key to cell,
 * which remembers insertion order. A cell is a string or nil.
 */
module OrderedHash {
  import opened Wrappers

  datatype Entry = Entry(key: string, value: Option<string>)

  /** Entries in insertion order. Rows built by `BuildRow` have distinct keys. */
  type Row = seq<Entry>

  function Keys(row: Row): (ks: seq<string>)
    ensures |ks| == |row|
    ensures forall i :: 0 <= i < |row| ==> ks[i] == row[i].key
  {
    seq(|row|, i requires 0 <= i < |row| => row[i].key)
  }

  predicate UniqueKeys(row: Row)
  {
    forall i, j :: 0 <= i < j < |row| ==> row[i].key != row[j].key
  }

  /** The position of the first entry under `k` at or after `start`, or -1 when there is none. */
  function IndexFrom(row: Row, k: string, start: nat): (i: int)
    ensures -1 <= i < |row|
    ensures i >= 0 ==> start <= i && row[i].key == k
    ensures forall j :: start <= j < |row| && (i == -1 || j < i) ==> row[j].key != k
    decreases |row| - start
  {
    if start >= |row| then -1
    else if row[start].key == k then start
    else IndexFrom(row, k, start + 1)
  }

  /** The position of the first entry under `k`, or -1 when there is none. */
  function IndexOf(row: Row, k: string): (i: int)
    ensures -1 <= i < |row|
    ensures i >= 0 ==> row[i].key == k
    ensures forall j :: 0 <= j < |row| && (i == -1 || j < i) ==> row[j].key != k
  {
    IndexFrom(row, k, 0)
  }

  /** Where a key is found depends only on the keys, not on the cells. */
  lemma IndexOfSameKeys(a: Row, b: Row, k: string)
    requires Keys(a) == Keys(b)
    ensures IndexOf(a, k) == IndexOf(b, k)
  {
    var i, j := IndexOf(a, k), IndexOf(b, k);
    assert forall n :: 0 <= n < |a| ==> a[n].key == Keys(a)[n] == Keys(b)[n] == b[n].key;
    if i >= 0 && j >= 0 {
      assert !(i < j) && !(j < i);
    }
  }

  /** Ruby `h[k]`: the cell under `k`, or nil when `k` is absent. */
  function Lookup(row: Row, k: string): Option<string>
  {
    var i := IndexOf(row, k);
    if i >= 0 then row[i].value else None
  }

  /** Only a key the hash has can hold a non-nil cell. */
  lemma LookupPresent(row: Row, k: string)
    ensures Lookup(row, k).Some? ==> k in Keys(row)
  {
    var i := IndexOf(row, k);
    if i >= 0 {
      assert Keys(row)[i] == k;
    }
  }

  /** Ruby `h[k] = v`: replaces the cell in place when `k` is present, else appends. */
  function Put(row: Row, k: string, v: Option<string>): (r: Row)
    ensures Lookup(r, k) == v
  {
    var i := IndexOf(row, k);
    if i >= 0 then
      var r := row[i := Entry(k, v)];
      assert Keys(r) == Keys(row);
      IndexOfSameKeys(r, row, k);
      r
    else
      var r := row + [Entry(k, v)];
      IndexOfAppend(row, Entry(k, v), k);
      r
  }

  /** `h[k] = v` keeps the position of a key already present and appends a new one at the end. */
  lemma PutKeys(row: Row, k: string, v: Option<string>)
    ensures Keys(Put(row, k, v)) == if k in Keys(row) then Keys(row) else Keys(row) + [k]
  {
    var i := IndexOf(row, k);
    if i >= 0 {
      assert Keys(row)[i] == k;
    } else {
      assert forall j :: 0 <= j < |row| ==> Keys(row)[j] != k;
    }
  }

  /** `h[k] = v` keeps the keys distinct. */
  lemma PutUnique(row: Row, k: string, v: Option<string>)
    requires UniqueKeys(row)
    ensures UniqueKeys(Put(row, k, v))
  {
    if IndexOf(row, k) < 0 {
      var r := Put(row, k, v);
      assert r == row + [Entry(k, v)];
      assert forall i :: 0 <= i < |row| ==> r[i] == row[i];
    }
  }

  /** `h[k] = v` leaves every other key's cell as it was. */
  lemma PutOther(row: Row, k: string, v: Option<string>, k': string)
    requires k' != k
    ensures Lookup(Put(row, k, v), k') == Lookup(row, k')
  {
    var i := IndexOf(row, k);
    if i >= 0 {
      IndexOfSameKeys(Put(row, k, v), row, k');
    } else {
      IndexOfAppend(row, Entry(k, v), k');
    }
  }

  /** Appending an entry finds it only when no earlier entry has its key. */
  lemma IndexOfAppend(row: Row, e: Entry, k: string)
    ensures IndexOf(row + [e], k) ==
      if IndexOf(row, k) >= 0 then IndexOf(row, k) else if e.key == k then |row| else -1
  {
    var r := row + [e];
    assert r[|row|] == e;
    assert forall n :: 0 <= n < |row| ==> r[n] == row[n];
  }

  /**
   * `Hash[*fields.zip(record).flatten]`: each header key paired with the cell
   * at its position (nil past the end of the record), inserted left to right,
   * so a repeated key keeps its first position and its last cell.
   */
  function BuildRow(fields: seq<string>, record: seq<Option<string>>): Row
  {
    BuildPrefix(fields, record, |fields|)
  }

  /** The cell paired with the field at position `i`: nil past the end of the record. */
  function Cell(record: seq<Option<string>>, i: nat): Option<string>
  {
    if i < |record| then record[i] else None
  }

  /** The hash after the first `m` pairs have been inserted. */
  function BuildPrefix(fields: seq<string>, record: seq<Option<string>>, m: nat): Row
    requires m <= |fields|
  {
    if m == 0 then [] else Put(BuildPrefix(fields, record, m - 1), fields[m - 1], Cell(record, m - 1))
  }

  lemma {:induction false} BuildPrefixUnique(fields: seq<string>, record: seq<Option<string>>, m: nat)
    requires m <= |fields|
    ensures UniqueKeys(BuildPrefix(fields, record, m))
  {
    if m > 0 {
      BuildPrefixUnique(fields, record, m - 1);
      PutUnique(BuildPrefix(fields, record, m - 1), fields[m - 1], Cell(record, m - 1));
    }
  }

  /** A zipped row never holds a key twice, whatever the header repeats. */
  lemma BuildRowUnique(fields: seq<string>, record: seq<Option<string>>)
    ensures UniqueKeys(BuildRow(fields, record))
  {
    BuildPrefixUnique(fields, record, |fields|);
  }

  lemma {:induction false} BuildPrefixKeySet(fields: seq<string>, record: seq<Option<string>>, m: nat)
    requires m <= |fields|
    ensures forall k :: k in Keys(BuildPrefix(fields, record, m)) <==> k in fields[..m]
    ensures |BuildPrefix(fields, record, m)| <= m
  {
    if m > 0 {
      var before := BuildPrefix(fields, record, m - 1);
      var f := fields[m - 1];
      BuildPrefixKeySet(fields, record, m - 1);
      assert fields[..m] == fields[..m - 1] + [f];
      var ks := Keys(Put(before, f, Cell(record, m - 1)));
      PutKeys(before, f, Cell(record, m - 1));
      forall k ensures k in ks <==> k in fields[..m] {
        assert k in fields[..m] <==> k in fields[..m - 1] || k == f;
      }
    }
  }

  /** The row's keys are the header's fields, each once, so never more entries than fields. */
  lemma BuildRowKeySet(fields: seq<string>, record: seq<Option<string>>)
    ensures forall k :: k in Keys(BuildRow(fields, record)) <==> k in fields
    ensures |BuildRow(fields, record)| <= |fields|
  {
    BuildPrefixKeySet(fields, record, |fields|);
    assert fields[..|fields|] == fields;
  }

  lemma {:induction false} BuildPrefixLookup(fields: seq<string>, record: seq<Option<string>>, m: nat, i: nat)
    requires i < m <= |fields|
    requires forall j :: i < j < m ==> fields[j] != fields[i]
    ensures Lookup(BuildPrefix(fields, record, m), fields[i]) == Cell(record, i)
  {
    var before := BuildPrefix(fields, record, m - 1);
    assert BuildPrefix(fields, record, m) == Put(before, fields[m - 1], Cell(record, m - 1));
    if i < m - 1 {
      BuildPrefixLookup(fields, record, m - 1, i);
      PutOther(before, fields[m - 1], Cell(record, m - 1), fields[i]);
    }
  }

  /** A later position of the same key wins, and a key never repeated gets its own cell. */
  lemma BuildRowLookup(fields: seq<string>, record: seq<Option<string>>, i: nat)
    requires i < |fields|
    requires forall j :: i < j < |fields| ==> fields[j] != fields[i]
    ensures Lookup(BuildRow(fields, record), fields[i]) == if i < |record| then record[i] else None
  {
    BuildPrefixLookup(fields, record, |fields|, i);
  }

  lemma {:induction false} BuildPrefixKeys(fields: seq<string>, record: seq<Option<string>>, m: nat)
    requires m <= |fields|
    requires forall i, j :: 0 <= i < j < m ==> fields[i] != fields[j]
    ensures |BuildPrefix(fields, record, m)| == m
    ensures forall j :: 0 <= j < m ==> BuildPrefix(fields, record, m)[j].key == fields[j]
  {
    if m > 0 {
      var before := BuildPrefix(fields, record, m - 1);
      var f := fields[m - 1];
      BuildPrefixKeys(fields, record, m - 1);
      assert forall j :: 0 <= j < m - 1 ==> before[j].key != f;
      assert IndexOf(before, f) == -1;
      assert BuildPrefix(fields, record, m) == before + [Entry(f, Cell(record, m - 1))];
    }
  }

  /** A one-column file zips each record into a single entry. */
  lemma BuildRowSingle(k: string, v: Option<string>)
    ensures BuildRow([k], [v]) == [Entry(k, v)]
  {
    assert BuildPrefix([k], [v], 0) == [];
    assert IndexOf([], k) == -1;
  }

  /** A header without duplicates yields one entry per header cell, in header order. */
  lemma BuildRowKeys(fields: seq<string>, record: seq<Option<string>>)
    requires forall i, j :: 0 <= i < j < |fields| ==> fields[i] != fields[j]
    ensures Keys(BuildRow(fields, record)) == fields
  {
    BuildPrefixKeys(fields, record, |fields|);
    var ks := Keys(BuildRow(fields, record));
    assert forall j :: 0 <= j < |fields| ==> ks[j] == fields[j];
  }
}
