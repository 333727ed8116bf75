/** Storing SwitchBot observations: duplicates are dropped, contradicting measurements of
    one device, time and kind are both kept and counted as conflicts.  The canonical key
    is a free constructor over the identity it digests (SHA-256 and canonical JSON are
    assumed injective). */
module SwitchBotStorage {
  import opened Common

  /** A measurement as JSON sees it; a float zero may carry a sign. */
  datatype Value = Absent | Integer(i: int) | Float(x: real, negative: bool) | Text(s: string)

  datatype Slot = Slot(deviceId: string, observedAt: string, kind: string)

  /** `measurements` are the other fields of the identity, in their fixed order; `rest`
      stands for the columns outside it. */
  datatype Observation = Observation(slot: Slot, measurements: seq<Value>, source: string, rest: string)

  datatype Key = Sha256(slot: Slot, measurements: seq<Value>)

  datatype Row = Row(key: Key, observation: Observation)

  datatype ConflictRow = ConflictRow(slot: Slot, existing: Observation, incoming: Observation)

  datatype Status = Inserted | Duplicate | Conflict

  datatype Store = Store(rows: seq<Row>, conflicts: seq<ConflictRow>)

  const EMPTY := Store([], [])

  function Normalize(v: Value): Value {
    if v.Float? && v.x == 0.0 then Float(0.0, false) else v
  }

  function CanonicalKey(o: Observation): Key {
    Sha256(o.slot, seq(|o.measurements|, i requires 0 <= i < |o.measurements| => Normalize(o.measurements[i])))
  }

  /** Equal numbers: the same value, or both a float zero. */
  predicate SameMeasurement(a: Value, b: Value) {
    a == b || (a.Float? && b.Float? && a.x == b.x == 0.0)
  }

  /** The key tells observations apart exactly by what they say, the sign of zero aside. */
  lemma SameKeyExactly(a: Observation, b: Observation)
    ensures CanonicalKey(a) == CanonicalKey(b) <==>
      && a.slot == b.slot && |a.measurements| == |b.measurements|
      && forall i :: 0 <= i < |a.measurements| ==> SameMeasurement(a.measurements[i], b.measurements[i])
  {
    var ka, kb := CanonicalKey(a).measurements, CanonicalKey(b).measurements;
    if CanonicalKey(a) == CanonicalKey(b) {
      forall i | 0 <= i < |a.measurements| ensures SameMeasurement(a.measurements[i], b.measurements[i]) {
        assert ka[i] == kb[i];
      }
    }
  }

  /** Without a negative zero, the key is over the measurements as they are. */
  lemma KeyOfPlain(o: Observation)
    requires forall i :: 0 <= i < |o.measurements| ==> o.measurements[i] != Float(0.0, true)
    ensures CanonicalKey(o) == Sha256(o.slot, o.measurements)
  {
  }

  // ----- inserting -----

  predicate HasKey(rows: seq<Row>, key: Key) {
    exists i :: 0 <= i < |rows| && rows[i].key == key
  }

  /** `SELECT ... LIMIT 1` of the observation's device, time and kind. */
  function FindSlot(rows: seq<Row>, slot: Slot): Option<Observation> {
    if rows == [] then None
    else if rows[0].observation.slot == slot then Some(rows[0].observation)
    else FindSlot(rows[1..], slot)
  }

  function Inserting(store: Store, o: Observation): (Store, Status) {
    var key := CanonicalKey(o);
    if HasKey(store.rows, key) then (store, Duplicate)
    else
      var rows := store.rows + [Row(key, o)];
      match FindSlot(store.rows, o.slot)
      case Some(existing) => (Store(rows, store.conflicts + [ConflictRow(o.slot, existing, o)]), Conflict)
      case None => (Store(rows, store.conflicts), Inserted)
  }

  class Database {
    var rows: seq<Row>
    var conflicts: seq<ConflictRow>

    constructor ()
      ensures Store(rows, conflicts) == EMPTY
    {
      rows, conflicts := [], [];
    }

    method InsertObservation(o: Observation) returns (status: Status)
      modifies this
      ensures (Store(rows, conflicts), status) == Inserting(old(Store(rows, conflicts)), o)
    {
      var key := CanonicalKey(o);
      if HasKey(rows, key) { return Duplicate; }
      var existing := FindSlot(rows, o.slot);
      if existing.Some? { conflicts := conflicts + [ConflictRow(o.slot, existing.value, o)]; }
      rows := rows + [Row(key, o)];
      status := if existing.Some? then Conflict else Inserted;
    }
  }

  function InsertAll(os: seq<Observation>): Store {
    if os == [] then EMPTY else Inserting(InsertAll(os[..|os| - 1]), os[|os| - 1]).0
  }

  // ----- accounting -----

  ghost function Keys(os: seq<Observation>): set<Key> { set o | o in os :: CanonicalKey(o) }

  ghost function Slots(os: seq<Observation>): set<Slot> { set o | o in os :: o.slot }

  ghost function StoredKeys(s: Store): set<Key> { set i | 0 <= i < |s.rows| :: s.rows[i].key }

  ghost predicate UniqueKeys(s: Store) {
    forall i, j :: 0 <= i < j < |s.rows| ==> s.rows[i].key != s.rows[j].key
  }

  lemma {:induction false} FindSlotDecides(rows: seq<Row>, slot: Slot)
    ensures FindSlot(rows, slot).Some? <==> exists i :: 0 <= i < |rows| && rows[i].observation.slot == slot
  {
    if rows != [] && rows[0].observation.slot != slot {
      FindSlotDecides(rows[1..], slot);
      if i :| 0 <= i < |rows| && rows[i].observation.slot == slot {
        assert rows[1..][i - 1].observation.slot == slot;
      }
    }
  }

  ghost predicate OwnKeys(rows: seq<Row>) {
    forall i :: 0 <= i < |rows| ==> rows[i].key == CanonicalKey(rows[i].observation)
  }

  /** The stored rows are those of the inserted observations, one per key. */
  ghost predicate Reflects(s: Store, os: seq<Observation>) {
    && UniqueKeys(s) && StoredKeys(s) == Keys(os)
    && OwnKeys(s.rows)
    && |s.rows| == |Keys(os)| && |s.rows| == |Slots(os)| + |s.conflicts|
  }

  lemma KeysGrow(os: seq<Observation>, o: Observation)
    ensures Keys(os + [o]) == Keys(os) + {CanonicalKey(o)}
    ensures Slots(os + [o]) == Slots(os) + {o.slot}
  {
    assert forall x :: x in os + [o] <==> x in os || x == o;
  }

  lemma StoredKeysGrow(rows: seq<Row>, row: Row, before: seq<ConflictRow>, after: seq<ConflictRow>)
    ensures StoredKeys(Store(rows + [row], after)) == StoredKeys(Store(rows, before)) + {row.key}
  {
    var grown := rows + [row];
    assert forall i :: 0 <= i < |rows| ==> grown[i] == rows[i];
    assert grown[|rows|] == row;
  }

  lemma NewKeyIsUnique(s: Store, row: Row, conflicts: seq<ConflictRow>)
    requires UniqueKeys(s) && !HasKey(s.rows, row.key)
    requires OwnKeys(s.rows) && row.key == CanonicalKey(row.observation)
    ensures UniqueKeys(Store(s.rows + [row], conflicts)) && OwnKeys(s.rows + [row])
    ensures row.key !in StoredKeys(s)
  {
  }

  lemma DuplicateReflects(s: Store, os: seq<Observation>, o: Observation)
    requires Reflects(s, os) && HasKey(s.rows, CanonicalKey(o))
    ensures Reflects(s, os + [o])
  {
    KeysGrow(os, o);
    SlotKnownExactly(s, os, o);
    assert CanonicalKey(o) in StoredKeys(s);
    assert Keys(os + [o]) == Keys(os) && Slots(os + [o]) == Slots(os);
  }

  lemma NewReflects(s: Store, os: seq<Observation>, o: Observation, conflicts: seq<ConflictRow>)
    requires Reflects(s, os) && !HasKey(s.rows, CanonicalKey(o))
    requires |conflicts| == |s.conflicts| + (if o.slot in Slots(os) then 1 else 0)
    ensures Reflects(Store(s.rows + [Row(CanonicalKey(o), o)], conflicts), os + [o])
  {
    var row := Row(CanonicalKey(o), o);
    KeysGrow(os, o);
    StoredKeysGrow(s.rows, row, s.conflicts, conflicts);
    NewKeyIsUnique(s, row, conflicts);
    assert o.slot in Slots(os) ==> Slots(os) + {o.slot} == Slots(os);
  }

  lemma InsertReflects(s: Store, os: seq<Observation>, o: Observation)
    requires Reflects(s, os)
    ensures Reflects(Inserting(s, o).0, os + [o])
  {
    SlotKnownExactly(s, os, o);
    if HasKey(s.rows, CanonicalKey(o)) {
      DuplicateReflects(s, os, o);
    } else {
      NewReflects(s, os, o, Inserting(s, o).0.conflicts);
    }
  }

  /** The table knows the slot exactly when an earlier observation had it; a known key
      means a known slot. */
  lemma SlotKnownExactly(s: Store, os: seq<Observation>, o: Observation)
    requires Reflects(s, os)
    ensures FindSlot(s.rows, o.slot).Some? <==> o.slot in Slots(os)
    ensures HasKey(s.rows, CanonicalKey(o)) ==> o.slot in Slots(os)
  {
    FindSlotDecides(s.rows, o.slot);
    if i :| 0 <= i < |s.rows| && s.rows[i].observation.slot == o.slot {
      assert s.rows[i].key in StoredKeys(s);
    }
    if o.slot in Slots(os) {
      var x :| x in os && x.slot == o.slot;
      assert CanonicalKey(x) in StoredKeys(s);
      var i :| 0 <= i < |s.rows| && s.rows[i].key == CanonicalKey(x);
      assert s.rows[i].observation.slot == o.slot;
    }
    if HasKey(s.rows, CanonicalKey(o)) {
      assert CanonicalKey(o) in Keys(os);
    }
  }

  /** After any inserts: no key is stored twice, the keys are exactly those of the inserted
      observations, and rows = distinct (device, time, kind) + conflicts. */
  lemma {:induction false} ConflictAccounting(os: seq<Observation>)
    ensures Reflects(InsertAll(os), os)
  {
    if os != [] {
      ConflictAccounting(os[..|os| - 1]);
      InsertReflects(InsertAll(os[..|os| - 1]), os[..|os| - 1], os[|os| - 1]);
      assert os[..|os| - 1] + [os[|os| - 1]] == os;
    }
  }

  /** Row `i` is the first of its slot, and row `j` a later, different measurement of it. */
  ghost predicate Contradicts(rows: seq<Row>, c: ConflictRow, i: nat, j: nat) {
    && i < j < |rows| && rows[i].observation == c.existing && rows[j].observation == c.incoming
    && c.existing.slot == c.slot == c.incoming.slot && CanonicalKey(c.existing) != CanonicalKey(c.incoming)
    && forall k :: 0 <= k < i ==> rows[k].observation.slot != c.slot
  }

  ghost predicate IsReal(rows: seq<Row>, c: ConflictRow) {
    exists i: nat, j: nat :: Contradicts(rows, c, i, j)
  }

  lemma {:induction false} FindSlotFirst(rows: seq<Row>, slot: Slot) returns (i: nat)
    requires FindSlot(rows, slot).Some?
    ensures i < |rows| && rows[i].observation == FindSlot(rows, slot).value && rows[i].observation.slot == slot
    ensures forall k :: 0 <= k < i ==> rows[k].observation.slot != slot
  {
    if rows[0].observation.slot == slot {
      i := 0;
    } else {
      i := FindSlotFirst(rows[1..], slot);
      i := i + 1;
    }
  }

  lemma OldConflictStays(rows: seq<Row>, row: Row, c: ConflictRow)
    requires IsReal(rows, c)
    ensures IsReal(rows + [row], c)
  {
    var i: nat, j: nat :| Contradicts(rows, c, i, j);
    assert Contradicts(rows + [row], c, i, j);
  }

  lemma NewConflict(s: Store, o: Observation)
    requires OwnKeys(s.rows) && !HasKey(s.rows, CanonicalKey(o)) && FindSlot(s.rows, o.slot).Some?
    ensures IsReal(s.rows + [Row(CanonicalKey(o), o)], ConflictRow(o.slot, FindSlot(s.rows, o.slot).value, o))
  {
    var i := FindSlotFirst(s.rows, o.slot);
    var c := ConflictRow(o.slot, FindSlot(s.rows, o.slot).value, o);
    assert s.rows[i].key == CanonicalKey(s.rows[i].observation);
    assert Contradicts(s.rows + [Row(CanonicalKey(o), o)], c, i, |s.rows|);
  }

  /** Every recorded conflict names two stored observations: the first one ever stored for
      that device, time and kind, and a later one that says something else. */
  lemma {:induction false} ConflictsAreReal(os: seq<Observation>)
    ensures forall c :: c in InsertAll(os).conflicts ==> IsReal(InsertAll(os).rows, c)
  {
    if os != [] {
      var before, o, after := InsertAll(os[..|os| - 1]), os[|os| - 1], InsertAll(os);
      ConflictsAreReal(os[..|os| - 1]);
      ConflictAccounting(os[..|os| - 1]);
      if !HasKey(before.rows, CanonicalKey(o)) {
        forall c | c in after.conflicts ensures IsReal(after.rows, c) {
          if c in before.conflicts {
            OldConflictStays(before.rows, Row(CanonicalKey(o), o), c);
          } else {
            NewConflict(before, o);
          }
        }
      }
    }
  }

  /** The stored keys and the number of conflicts depend only on which observations were
      inserted, not on their order or repetition. */
  lemma OrderIsIrrelevant(a: seq<Observation>, b: seq<Observation>)
    requires forall o :: o in a <==> o in b
    ensures StoredKeys(InsertAll(a)) == StoredKeys(InsertAll(b))
    ensures |InsertAll(a).rows| == |InsertAll(b).rows|
    ensures |InsertAll(a).conflicts| == |InsertAll(b).conflicts|
  {
    ConflictAccounting(a);
    ConflictAccounting(b);
    assert Keys(a) == Keys(b) && Slots(a) == Slots(b);
  }

  /** What an insert answers: a duplicate of something inserted before, a conflict with
      another measurement of the same device, time and kind, or plainly inserted. */
  lemma StatusExactly(os: seq<Observation>, o: Observation)
    ensures var status := Inserting(InsertAll(os), o).1;
            && (status == Duplicate <==> CanonicalKey(o) in Keys(os))
            && (status == Conflict <==> CanonicalKey(o) !in Keys(os) && o.slot in Slots(os))
            && (status == Inserted <==> o.slot !in Slots(os))
  {
    var s := InsertAll(os);
    ConflictAccounting(os);
    SlotKnownExactly(s, os, o);
    if HasKey(s.rows, CanonicalKey(o)) { assert CanonicalKey(o) in StoredKeys(s); }
  }

  /** Inserting again anything already inserted changes nothing. */
  lemma ReinsertIsNoOp(os: seq<Observation>, o: Observation)
    requires CanonicalKey(o) in Keys(os)
    ensures Inserting(InsertAll(os), o) == (InsertAll(os), Duplicate)
  {
    ConflictAccounting(os);
    assert CanonicalKey(o) in StoredKeys(InsertAll(os));
  }
}
