/**
 The change journal and its meaning, for any type of key. The in-memory Store and the durable
 ObjectStore both publish changes of this shape; a log of mutations is the reference definition
 from which records, journal and revision are all derived.
 */
module Journal {
  import opened Common

  /** A successful mutation. The n-th mutation of a Store (from 1) has revision n. */
  datatype Mutation<K> = PutValue(key: K, value: Value) | DeleteKey(key: K) | ClearAll

  /** A journal entry: what subscribers are told. It carries the type of a value but not the value. */
  datatype Change<K> =
    | Put(revision: nat, key: K, valueType: ValueType)
    | Delete(revision: nat, key: K)
    | Clear(revision: nat)

  datatype Record = Record(value: Value, revision: nat)

  /** What a subscriber can know about a live key. */
  datatype Stamp = Stamp(valueType: ValueType, revision: nat)

  type View<!K> = map<K, Stamp>

  function ChangeOf<K>(m: Mutation<K>, revision: nat): Change<K> {
    match m
    case PutValue(k, v) => Put(revision, k, v.valueType)
    case DeleteKey(k) => Delete(revision, k)
    case ClearAll => Clear(revision)
  }

  /** The complete, never-evicted journal of a log. */
  function ChangesOf<K>(log: seq<Mutation<K>>): (changes: seq<Change<K>>)
    ensures |changes| == |log|
    ensures forall i :: 0 <= i < |log| ==> changes[i].revision == i + 1
  {
    seq(|log|, i requires 0 <= i < |log| => ChangeOf(log[i], i + 1))
  }

  function RecordsAfter<K(==)>(records: map<K, Record>, m: Mutation<K>, revision: nat): map<K, Record> {
    match m
    case PutValue(k, v) => records[k := Record(v, revision)]
    case DeleteKey(k) => records - {k}
    case ClearAll => map[]
  }

  /** The records a log leaves behind. */
  function RecordsOf<K(==)>(log: seq<Mutation<K>>): map<K, Record> {
    if log == [] then map[]
    else RecordsAfter(RecordsOf(log[..|log| - 1]), log[|log| - 1], |log|)
  }

  function ViewOf<K(==)>(records: map<K, Record>): View<K> {
    map k | k in records :: Stamp(records[k].value.valueType, records[k].revision)
  }

  /** A subscriber applies one change to its own view. */
  function Observe<K(==)>(view: View<K>, change: Change<K>): View<K> {
    match change
    case Put(r, k, t) => view[k := Stamp(t, r)]
    case Delete(_, k) => view - {k}
    case Clear(_) => map[]
  }

  function Fold<K(==)>(view: View<K>, changes: seq<Change<K>>): View<K> {
    if changes == [] then view
    else Observe(Fold(view, changes[..|changes| - 1]), changes[|changes| - 1])
  }

  lemma {:induction false} FoldAppend<K>(view: View<K>, a: seq<Change<K>>, b: seq<Change<K>>)
    ensures Fold(view, a + b) == Fold(Fold(view, a), b)
  {
    if b == [] {
      assert a + b == a;
    } else {
      var b' := b[..|b| - 1];
      assert (a + b)[..|a + b| - 1] == a + b';
      FoldAppend(view, a, b');
    }
  }

  lemma ChangesAppend<K>(log: seq<Mutation<K>>, m: Mutation<K>)
    ensures ChangesOf(log + [m]) == ChangesOf(log) + [ChangeOf(m, |log| + 1)]
  {
  }

  /** Journal entries never change once written: a longer log has the shorter one's journal as a prefix. */
  lemma ChangesPrefix<K>(log: seq<Mutation<K>>, longer: seq<Mutation<K>>)
    requires log <= longer
    ensures ChangesOf(longer)[..|log|] == ChangesOf(log)
  {
    assert forall i :: 0 <= i < |log| ==> longer[i] == log[i];
  }

  lemma SliceStays<K>(log: seq<Mutation<K>>, longer: seq<Mutation<K>>, from: nat, to: nat)
    requires log <= longer && from <= to <= |log|
    ensures ChangesOf(log)[from..to] == ChangesOf(longer)[from..to]
  {
    ChangesPrefix(log, longer);
    assert ChangesOf(longer)[..|log|][from..to] == ChangesOf(longer)[from..to];
  }

  lemma RecordsAppend<K>(log: seq<Mutation<K>>, m: Mutation<K>)
    ensures RecordsOf(log + [m]) == RecordsAfter(RecordsOf(log), m, |log| + 1)
  {
    assert (log + [m])[..|log|] == log;
  }

  /**
   The journal agrees with the map: replaying it from nothing gives the key -> (type, revision) view of the records.
   */
  lemma {:induction false} JournalAgreesWithRecords<K>(log: seq<Mutation<K>>)
    ensures Fold(map[], ChangesOf(log)) == ViewOf(RecordsOf(log))
  {
    if log != [] {
      var front, last := log[..|log| - 1], log[|log| - 1];
      assert log == front + [last];
      JournalAgreesWithRecords(front);
      ChangesAppend(front, last);
      var changes := ChangesOf(log);
      assert changes[..|changes| - 1] == ChangesOf(front);
    }
  }

  predicate Touches<K(==)>(m: Mutation<K>, k: K) {
    m.ClearAll? || m.key == k
  }

  /** No live record is newer than the log, and its revision is that of the latest mutation of its key. */
  lemma {:induction false} RecordIsLatestPut<K>(log: seq<Mutation<K>>, k: K)
    requires k in RecordsOf(log)
    ensures var r := RecordsOf(log)[k];
            && 1 <= r.revision <= |log|
            && log[r.revision - 1] == PutValue(k, r.value)
            && forall i :: r.revision <= i < |log| ==> !Touches(log[i], k)
  {
    var front, last := log[..|log| - 1], log[|log| - 1];
    if !Touches(last, k) {
      RecordIsLatestPut(front, k);
    }
  }

  /** And a key whose latest mutation is a put is live: no mutation of another key takes it away. */
  lemma {:induction false} LatestPutIsRecord<K>(log: seq<Mutation<K>>, k: K, revision: nat)
    requires 1 <= revision <= |log| && log[revision - 1].PutValue? && log[revision - 1].key == k
    requires forall i :: revision <= i < |log| ==> !log[i].ClearAll? && log[i].key != k
    ensures k in RecordsOf(log) && RecordsOf(log)[k] == Record(log[revision - 1].value, revision)
  {
    if revision < |log| {
      LatestPutIsRecord(log[..|log| - 1], k, revision);
    }
  }

  /** A subscription with a key filter keeps that key's changes and every CLEAR. */
  function FilterKey<K(==)>(changes: seq<Change<K>>, k: K): seq<Change<K>> {
    if changes == [] then []
    else
      var last := changes[|changes| - 1];
      FilterKey(changes[..|changes| - 1], k) + if last.Clear? || last.key == k then [last] else []
  }

  function Restrict<K(==)>(view: View<K>, k: K): View<K> {
    if k in view then map[k := view[k]] else map[]
  }

  /** Filtering first and folding afterwards loses nothing about the filtered key. */
  lemma {:induction false} FilteredFold<K>(view: View<K>, changes: seq<Change<K>>, k: K)
    ensures Fold(Restrict(view, k), FilterKey(changes, k)) == Restrict(Fold(view, changes), k)
  {
    if changes != [] {
      var front, last := changes[..|changes| - 1], changes[|changes| - 1];
      FilteredFold(view, front, k);
      if last.Clear? || last.key == k {
        FoldAppend(Restrict(view, k), FilterKey(front, k), [last]);
        FoldSingle(Fold(Restrict(view, k), FilterKey(front, k)), last);
      } else {
        assert FilterKey(changes, k) == FilterKey(front, k);
      }
    }
  }

  lemma FoldSingle<K>(view: View<K>, change: Change<K>)
    ensures Fold(view, [change]) == Observe(view, change)
  {
    assert [change][..0] == [];
  }
}
