/** The row lock protocol of the persistent store: keys, rows, locks and linear ids. */
module Store {
  import opened Sequences

  type KeyId = nat
  type RowId = nat
  type Blob = string

  datatype Row = Row(key: KeyId, data: Option<Blob>)

  /** The three tables and the two AUTOINCREMENT counters. */
  datatype Db = Db(
    keys: map<string, KeyId>, nextKey: nat,
    rows: map<RowId, Row>, nextRow: nat,
    locked: set<RowId>)

  const EmptyDb := Db(map[], 1, map[], 1, {})

  function RowsOf(db: Db, key: KeyId): set<RowId> {
    set r | r in db.rows && db.rows[r].key == key
  }

  function FreeOf(db: Db, key: KeyId): set<RowId> {
    RowsOf(db, key) - db.locked
  }

  ghost predicate DbOk(db: Db) {
    && db.locked <= db.rows.Keys
    && (forall r :: r in db.rows ==> 0 < r < db.nextRow)
    && (forall n :: n in db.keys ==> 0 < db.keys[n] < db.nextKey)
    && (forall n, m :: n in db.keys && m in db.keys && db.keys[n] == db.keys[m] ==> n == m)
    && (forall r :: r in db.rows ==> 0 < db.rows[r].key < db.nextKey)
    && db.nextRow == |db.rows| + 1 && db.nextKey == |db.keys| + 1
  }

  // ----- The queries -----

  /** create_key_with_name: an existing key is kept. */
  function WithKey(db: Db, name: string): Db {
    if name in db.keys then db else db.(keys := db.keys[name := db.nextKey], nextKey := db.nextKey + 1)
  }

  ghost function Min(s: set<nat>): (m: nat)
    requires s != {}
    ensures m in s && forall x :: x in s ==> m <= x
    decreases s
  {
    var x :| x in s;
    if s == {x} then x
    else
      var m := Min(s - {x});
      assert forall y :: y in s ==> y == x || y in s - {x};
      if m < x then m else x
  }

  /** What acquire_locked does: lock the first free row of the key, or a new one. */
  ghost function AcquiredId(db: Db, key: KeyId): RowId {
    if FreeOf(db, key) != {} then Min(FreeOf(db, key)) else db.nextRow
  }

  ghost function Acquired(db: Db, key: KeyId): Db {
    var id := AcquiredId(db, key);
    if FreeOf(db, key) != {} then db.(locked := db.locked + {id})
    else db.(rows := db.rows[id := Row(key, None)], nextRow := id + 1, locked := db.locked + {id})
  }

  function Written(db: Db, id: RowId, data: Blob): Db {
    if id in db.rows then db.(rows := db.rows[id := db.rows[id].(data := Some(data))]) else db
  }

  /** The service: every method works on the tables in place. */
  class DefaultStore {
    var db: Db

    constructor ()
      ensures db == EmptyDb && DbOk(db)
    {
      db := EmptyDb;
    }

    /** onStart: the tables persist, all locks are deleted. */
    method Start()
      requires DbOk(db)
      modifies this
      ensures db == old(db).(locked := {}) && DbOk(db)
    {
      db := db.(locked := {});
    }

    method CreateKeyWithName(name: string) returns (key: KeyId)
      requires DbOk(db)
      modifies this
      ensures db == WithKey(old(db), name) && DbOk(db) && name in db.keys && key == db.keys[name]
    {
      db := WithKey(db, name);
      key := db.keys[name];
    }

    /** lock_id: the first unlocked row of the key, if there is one. */
    method TryLock(key: KeyId) returns (id: Option<RowId>)
      requires DbOk(db)
      modifies this
      ensures id.None? ==> db == old(db) && FreeOf(db, key) == {}
      ensures id.Some? ==> FreeOf(old(db), key) != {} && id.value == Min(FreeOf(old(db), key))
                           && db == old(db).(locked := old(db).locked + {id.value})
      ensures DbOk(db)
    {
      var free := FreeOf(db, key);
      if free == {} {
        id := None;
      } else {
        assert Min(free) in free;
        var first :| first in free && forall x :: x in free ==> first <= x;
        db := db.(locked := db.locked + {first});
        id := Some(first);
      }
    }

    /** acquire_locked: try, insert an empty row, try again. Two rounds are always enough. */
    method AcquireLocked(key: KeyId) returns (id: RowId, ghost rounds: nat)
      requires DbOk(db) && 0 < key < db.nextKey
      modifies this
      ensures db == Acquired(old(db), key) && id == AcquiredId(old(db), key) && DbOk(db)
      ensures rounds <= 2
    {
      rounds := 0;
      while true
        invariant rounds <= 1 && DbOk(db)
        invariant rounds == 0 ==> db == old(db)
        invariant rounds == 1 ==> FreeOf(old(db), key) == {} && FreeOf(db, key) == {old(db).nextRow}
                                  && db == old(db).(rows := old(db).rows[old(db).nextRow := Row(key, None)],
                                                    nextRow := old(db).nextRow + 1)
        decreases 1 - rounds
      {
        rounds := rounds + 1;
        var locked := TryLock(key);
        if locked.Some? {
          id := locked.value;
          return;
        }
        ghost var before := db;
        db := db.(rows := db.rows[db.nextRow := Row(key, None)], nextRow := db.nextRow + 1);
        NewRowIsFree(before, key);
      }
    }

    /** get: the id of a row locked for the caller, and its data if it has any. */
    method Get(name: string) returns (id: RowId, data: Option<Blob>)
      requires DbOk(db)
      modifies this
      ensures db == Got(old(db), name) && DbOk(db)
      ensures id == GotId(old(db), name) && id in db.rows && data == db.rows[id].data
    {
      var key := CreateKeyWithName(name);
      ghost var rounds;
      id, rounds := AcquireLocked(key);
      data := db.rows[id].data;
    }

    method Update(id: RowId, buffer: Blob)
      requires DbOk(db)
      modifies this
      ensures db == Written(old(db), id, buffer) && DbOk(db)
    {
      if id in db.rows {
        db := db.(rows := db.rows[id := db.rows[id].(data := Some(buffer))]);
      }
    }

    /** set: write, then unlock; the id is consumed. */
    method Set(id: RowId, buffer: Blob)
      requires DbOk(db)
      modifies this
      ensures db == Written(old(db), id, buffer).(locked := old(db).locked - {id}) && DbOk(db)
    {
      Update(id, buffer);
      db := db.(locked := db.locked - {id});
    }
  }

  lemma NewRowIsFree(db: Db, key: KeyId)
    requires DbOk(db) && FreeOf(db, key) == {}
    ensures FreeOf(db.(rows := db.rows[db.nextRow := Row(key, None)], nextRow := db.nextRow + 1), key) == {db.nextRow}
  {
    assert forall r :: r in RowsOf(db, key) ==> r in db.locked by {
      forall r | r in RowsOf(db, key) ensures r in db.locked {
        assert r !in FreeOf(db, key);
      }
    }
  }

  ghost function KeyOf(db: Db, name: string): KeyId {
    if name in db.keys then db.keys[name] else db.nextKey
  }

  ghost function Got(db: Db, name: string): Db {
    Acquired(WithKey(db, name), KeyOf(db, name))
  }

  ghost function GotId(db: Db, name: string): RowId {
    AcquiredId(WithKey(db, name), KeyOf(db, name))
  }

  // ----- Runs -----

  datatype Op = Get(name: string) | Update(id: RowId, data: Blob) | Set(id: RowId, data: Blob) | Restart

  /** The database and the ids the clients hold. */
  datatype World = World(db: Db, held: set<RowId>)

  const Fresh := World(EmptyDb, {})

  /** Clients use only ids they hold. */
  predicate Enabled(w: World, op: Op) {
    (op.Update? || op.Set?) ==> op.id in w.held
  }

  ghost function Next(w: World, op: Op): World {
    match op
    case Get(name) => World(Got(w.db, name), w.held + {GotId(w.db, name)})
    case Update(id, data) => w.(db := Written(w.db, id, data))
    case Set(id, data) => World(Written(w.db, id, data).(locked := w.db.locked - {id}), w.held - {id})
    case Restart => World(w.db.(locked := {}), {})
  }

  ghost predicate Inv(w: World) {
    DbOk(w.db) && w.held == w.db.locked
  }

  lemma FreshInv()
    ensures Inv(Fresh)
  {}

  /** The rows of a name, and those of them that somebody holds. */
  ghost function Rows(w: World, name: string): set<RowId> {
    if name in w.db.keys then RowsOf(w.db, w.db.keys[name]) else {}
  }

  ghost function HeldFor(w: World, name: string): set<RowId> {
    Rows(w, name) * w.held
  }

  lemma WithKeyOk(db: Db, name: string)
    requires DbOk(db)
    ensures var db' := WithKey(db, name);
      && DbOk(db') && name in db'.keys && db'.keys[name] == KeyOf(db, name)
      && db'.rows == db.rows && db'.locked == db.locked && db'.nextRow == db.nextRow
  {
    if name !in db.keys {
      MapGrows(db.keys, name, db.nextKey);
    }
  }

  lemma MapGrows<K, V>(m: map<K, V>, k: K, v: V)
    requires k !in m
    ensures |m[k := v]| == |m| + 1
  {
    assert m[k := v].Keys == m.Keys + {k};
    assert |m.Keys| == |m| && |m[k := v].Keys| == |m[k := v]|;
  }

  lemma AcquiredOk(db: Db, key: KeyId)
    requires DbOk(db) && 0 < key < db.nextKey
    ensures DbOk(Acquired(db, key))
  {
    if FreeOf(db, key) != {} {
      assert Min(FreeOf(db, key)) in FreeOf(db, key);
    } else {
      MapGrows(db.rows, db.nextRow, Row(key, None));
      var db' := Acquired(db, key);
      assert forall r :: r in db'.rows ==> r == db.nextRow || r in db.rows;
    }
  }

  /** Locking a free row changes no row; otherwise exactly one new empty row appears. */
  lemma AcquiredRows(db: Db, key: KeyId)
    requires DbOk(db) && 0 < key < db.nextKey
    ensures var db', id := Acquired(db, key), AcquiredId(db, key);
      && DbOk(db') && id !in db.locked && db'.locked == db.locked + {id} && id in RowsOf(db', key)
      && (forall k :: k != key ==> RowsOf(db', k) == RowsOf(db, k))
      && RowsOf(db', key) == RowsOf(db, key) + {id}
      && (FreeOf(db, key) != {} ==> id in RowsOf(db, key) && db'.rows == db.rows)
      && (FreeOf(db, key) == {} ==> id !in db.rows && db'.rows == db.rows[id := Row(key, None)])
  {
    AcquiredOk(db, key);
    if FreeOf(db, key) != {} {
      assert Min(FreeOf(db, key)) in FreeOf(db, key);
    } else {
      assert db.nextRow !in db.rows;
    }
  }

  // ----- What every step does -----

  /** A get of another name, or of none, leaves the rows of a name alone. */
  lemma StepRows(w: World, op: Op, name: string)
    requires Inv(w) && Enabled(w, op) && op != Get(name)
    ensures Rows(Next(w, op), name) == Rows(w, name)
  {
    if op.Get? {
      WithKeyOk(w.db, op.name);
      AcquiredRows(WithKey(w.db, op.name), KeyOf(w.db, op.name));
      NewKeyHasNoRows(w, name);
    } else if op != Restart {
      assert op.id in w.db.rows;
    }
  }

  lemma NewKeyHasNoRows(w: World, name: string)
    requires Inv(w)
    ensures RowsOf(w.db, w.db.nextKey) == {} && RowsOf(w.db, KeyOf(w.db, name)) == Rows(w, name)
  {}

  /** A get hands out a row of its name that nobody held; it adds a row exactly if all were held. */
  lemma GetRows(w: World, name: string)
    requires Inv(w)
    ensures var w', id := Next(w, Get(name)), GotId(w.db, name);
      && name in w'.db.keys && id in Rows(w', name) && id !in w.held && w'.held == w.held + {id}
      && Rows(w', name) == Rows(w, name) + {id}
      && (id in Rows(w, name) <==> HeldFor(w, name) != Rows(w, name))
  {
    var db, key := WithKey(w.db, name), KeyOf(w.db, name);
    NewKeyHasNoRows(w, name);
    WithKeyOk(w.db, name);
    AcquiredRows(db, key);
    assert RowsOf(db, key) == Rows(w, name);
    assert FreeOf(db, key) == {} <==> HeldFor(w, name) == Rows(w, name);
  }

  /** Every step keeps the invariant, every name keeps its key, and every row stays with its key. */
  lemma StepKeepsInv(w: World, op: Op)
    requires Inv(w) && Enabled(w, op)
    ensures Inv(Next(w, op))
  {
    match op
    case Get(name) =>
      WithKeyOk(w.db, name);
      AcquiredRows(WithKey(w.db, name), KeyOf(w.db, name));
    case Restart =>
    case _ => assert op.id in w.db.rows;
  }

  lemma StepKeepsNames(w: World, op: Op, name: string)
    requires Inv(w) && Enabled(w, op) && name in w.db.keys
    ensures name in Next(w, op).db.keys && Next(w, op).db.keys[name] == w.db.keys[name]
  {
    if op.Get? {
      assert Next(w, op).db.keys == WithKey(w.db, op.name).keys;
    }
  }

  // ----- Runs -----

  ghost predicate IsRun(w: World, ops: seq<Op>)
    decreases |ops|
  {
    ops == [] || (Enabled(w, ops[0]) && IsRun(Next(w, ops[0]), ops[1..]))
  }

  ghost function Run(w: World, ops: seq<Op>): World
    decreases |ops|
  {
    if ops == [] then w else Run(Next(w, ops[0]), ops[1..])
  }

  /** Over every run a name keeps its key. */
  lemma {:induction false} RunKeepsNames(w: World, ops: seq<Op>, name: string)
    requires Inv(w) && IsRun(w, ops)
    ensures Inv(Run(w, ops))
    ensures name in w.db.keys ==> name in Run(w, ops).db.keys && Run(w, ops).db.keys[name] == w.db.keys[name]
    decreases |ops|
  {
    if ops != [] {
      StepKeepsInv(w, ops[0]);
      if name in w.db.keys {
        StepKeepsNames(w, ops[0], name);
      }
      RunKeepsNames(Next(w, ops[0]), ops[1..], name);
    }
  }

  lemma ReachedInv(ops: seq<Op>)
    requires IsRun(Fresh, ops)
    ensures Inv(Run(Fresh, ops))
  {
    FreshInv();
    RunKeepsNames(Fresh, ops, "");
  }

  /** Exclusivity over every run: a get never hands out a row that somebody holds. */
  lemma GetIsExclusive(ops: seq<Op>, name: string)
    requires IsRun(Fresh, ops)
    ensures GotId(Run(Fresh, ops).db, name) !in Run(Fresh, ops).held
  {
    ReachedInv(ops);
    GetRows(Run(Fresh, ops), name);
  }

  // ----- Compactness -----

  /** The most rows of a name that are held at the same time somewhere along the run. */
  ghost function MostHeld(w: World, ops: seq<Op>, name: string): nat
    decreases |ops|
  {
    var now := |HeldFor(w, name)|;
    if ops == [] then now
    else
      var later := MostHeld(Next(w, ops[0]), ops[1..], name);
      if now < later then later else now
  }

  lemma HeldAtMost(w: World, name: string)
    ensures |HeldFor(w, name)| <= |Rows(w, name)|
  {
    assert Rows(w, name) == HeldFor(w, name) + (Rows(w, name) - w.held);
  }

  /** A step adds a row exactly if more rows are held after it than there were. */
  lemma StepCompact(w: World, op: Op, name: string)
    requires Inv(w) && Enabled(w, op)
    ensures var rows, rows', held' := |Rows(w, name)|, |Rows(Next(w, op), name)|, |HeldFor(Next(w, op), name)|;
      rows' == if rows < held' then held' else rows
  {
    HeldAtMost(Next(w, op), name);
    if op == Get(name) {
      GetRows(w, name);
      var w', id := Next(w, op), GotId(w.db, name);
      if id in Rows(w, name) {
        assert Rows(w', name) == Rows(w, name);
      } else {
        assert HeldFor(w', name) == Rows(w', name) == Rows(w, name) + {id};
      }
    } else {
      StepRows(w, op, name);
    }
  }

  lemma {:induction false} RunCompact(w: World, ops: seq<Op>, name: string)
    requires Inv(w) && IsRun(w, ops)
    ensures var rows, most := |Rows(w, name)|, MostHeld(w, ops, name);
      |Rows(Run(w, ops), name)| == if rows < most then most else rows
    decreases |ops|
  {
    HeldAtMost(w, name);
    if ops != [] {
      StepKeepsInv(w, ops[0]);
      StepCompact(w, ops[0], name);
      HeldAtMost(Next(w, ops[0]), name);
      RunCompact(Next(w, ops[0]), ops[1..], name);
      HeldAtMostLater(Next(w, ops[0]), ops[1..], name);
    }
  }

  lemma {:induction false} HeldAtMostLater(w: World, ops: seq<Op>, name: string)
    ensures |HeldFor(w, name)| <= MostHeld(w, ops, name)
  {}

  /** Compactness over every run: a name has as many rows as were ever held at the same time. */
  lemma RowsEqualPeak(ops: seq<Op>, name: string)
    requires IsRun(Fresh, ops)
    ensures |Rows(Run(Fresh, ops), name)| == MostHeld(Fresh, ops, name)
  {
    FreshInv();
    RunCompact(Fresh, ops, name);
    HeldAtMostLater(Fresh, ops, name);
  }

  // ----- What a row holds -----

  predicate Writes(op: Op, ids: set<RowId>) {
    (op.Update? || op.Set?) && op.id in ids
  }

  /** The data of the last write through one of the ids, or else what was there before. */
  function LastWrite(ops: seq<Op>, ids: set<RowId>, before: Option<Blob>): Option<Blob> {
    if ops == [] then before
    else LastWrite(ops[1..], ids, if Writes(ops[0], ids) then Some(ops[0].data) else before)
  }

  ghost function DataOf(w: World, id: RowId): Option<Blob> {
    if id in w.db.rows then w.db.rows[id].data else None
  }

  lemma GetKeepsData(w: World, name: string, id: RowId)
    requires Inv(w)
    ensures DataOf(Next(w, Get(name)), id) == DataOf(w, id)
  {
    var db, key := WithKey(w.db, name), KeyOf(w.db, name);
    WithKeyOk(w.db, name);
    AcquiredRows(db, key);
    assert id in Acquired(db, key).rows && id !in db.rows ==> id == AcquiredId(db, key);
  }

  /** A row keeps what was written to it last, whatever else happens; a new row is empty. */
  lemma StepKeepsData(w: World, op: Op, id: RowId)
    requires Inv(w) && Enabled(w, op)
    ensures DataOf(Next(w, op), id) == if Writes(op, {id}) then Some(op.data) else DataOf(w, id)
  {
    match op
    case Get(name) => GetKeepsData(w, name, id);
    case Restart =>
    case _ => assert op.id in w.db.rows;
  }

  lemma {:induction false} RunKeepsData(w: World, ops: seq<Op>, id: RowId)
    requires Inv(w) && IsRun(w, ops)
    ensures DataOf(Run(w, ops), id) == LastWrite(ops, {id}, DataOf(w, id))
    decreases |ops|
  {
    if ops != [] {
      StepKeepsInv(w, ops[0]);
      StepKeepsData(w, ops[0], id);
      RunKeepsData(Next(w, ops[0]), ops[1..], id);
    }
  }

  /** Over every run, restarts included, a get hands out the data last written to its row. */
  lemma GetHandsOutLastWrite(ops: seq<Op>, name: string)
    requires IsRun(Fresh, ops)
    ensures var w := Run(Fresh, ops); var id := GotId(w.db, name);
      id in Got(w.db, name).rows && Got(w.db, name).rows[id].data == LastWrite(ops, {id}, None)
  {
    var w := Run(Fresh, ops);
    ReachedInv(ops);
    FreshInv();
    RunKeepsData(Fresh, ops, GotId(w.db, name));
    GetKeepsData(w, name, GotId(w.db, name));
    GetRows(w, name);
  }

  // ----- What a name holds -----

  /** The ids that the gets of a name hand out along the run. */
  ghost function HandedOut(w: World, ops: seq<Op>, name: string): set<RowId>
    decreases |ops|
  {
    if ops == [] then {}
    else (if ops[0] == Get(name) then {GotId(w.db, name)} else {}) + HandedOut(Next(w, ops[0]), ops[1..], name)
  }

  /** The rows of a name are those that its gets handed out, over every run and restart. */
  lemma {:induction false} RowsHandedOut(w: World, ops: seq<Op>, name: string)
    requires Inv(w) && IsRun(w, ops)
    ensures Rows(Run(w, ops), name) == Rows(w, name) + HandedOut(w, ops, name)
    decreases |ops|
  {
    if ops != [] {
      StepKeepsInv(w, ops[0]);
      if ops[0] == Get(name) {
        GetRows(w, name);
      } else {
        StepRows(w, ops[0], name);
      }
      RowsHandedOut(Next(w, ops[0]), ops[1..], name);
    }
  }

  /** A get hands out a row that earlier gets of the name handed out, unless all are held. */
  lemma GetsShareRows(ops: seq<Op>, name: string)
    requires IsRun(Fresh, ops)
    ensures var w := Run(Fresh, ops);
      && Rows(w, name) == HandedOut(Fresh, ops, name)
      && (GotId(w.db, name) in HandedOut(Fresh, ops, name) <==> !(HandedOut(Fresh, ops, name) <= w.held))
  {
    FreshInv();
    ReachedInv(ops);
    RowsHandedOut(Fresh, ops, name);
    GetRows(Run(Fresh, ops), name);
  }

  /** Persistence by name over every run, restarts included: a name that never had two holders
      at a time, this one included, always gets the same row and reads back the last value that
      was written through any id its gets handed out, and nothing if none was. */
  lemma GetReadsBackLastWrite(ops: seq<Op>, name: string)
    requires IsRun(Fresh, ops) && MostHeld(Fresh, ops, name) <= 1 && |HeldFor(Next(Run(Fresh, ops), Get(name)), name)| <= 1
    ensures var w := Run(Fresh, ops); var id := GotId(w.db, name); var handed := HandedOut(Fresh, ops, name);
      && handed <= {id}
      && id in Got(w.db, name).rows && Got(w.db, name).rows[id].data == LastWrite(ops, handed, None)
  {
    var w := Run(Fresh, ops);
    var id, handed := GotId(w.db, name), HandedOut(Fresh, ops, name);
    ReachedInv(ops);
    RowsEqualPeak(ops, name);
    GetsShareRows(ops, name);
    StepCompact(w, Get(name), name);
    GetRows(w, name);
    Singleton(Rows(Next(w, Get(name)), name), id);
    GetHandsOutLastWrite(ops, name);
    if handed == {} {
      GetKeepsData(w, name, id);
      NeverWritten(ops, None);
    }
  }

  lemma {:induction false} NeverWritten(ops: seq<Op>, before: Option<Blob>)
    ensures LastWrite(ops, {}, before) == before
  {
    if ops != [] {
      NeverWritten(ops[1..], before);
    }
  }

  lemma Singleton<T>(s: set<T>, x: T)
    requires x in s && |s| <= 1
    ensures s == {x}
  {
    assert |s - {x}| == 0;
    assert s == s - {x} + {x};
  }

  // ----- Ids over a restart -----

  /** A restart deletes all locks, so the next get of a name hands out its lowest row again: an
      id that was kept over the restart then names the same row as a new one. */
  lemma KeptIdHandedOutTwice(ops: seq<Op>, name: string)
    requires IsRun(Fresh, ops)
    ensures var w := Next(Run(Fresh, ops), Get(name));
      var again := GotId(Next(w, Restart).db, name);
      && again in Rows(w, name) && (forall r :: r in Rows(w, name) ==> again <= r)
      && (|Rows(w, name)| <= 1 ==> again == GotId(Run(Fresh, ops).db, name))
  {
    var w0 := Run(Fresh, ops);
    var w := Next(w0, Get(name));
    ReachedInv(ops);
    GetRows(w0, name);
    LowestAfterRestart(w.db, name);
    if |Rows(w, name)| <= 1 {
      Singleton(Rows(w, name), GotId(w0.db, name));
    }
  }

  lemma LowestAfterRestart(db: Db, name: string)
    requires name in db.keys && RowsOf(db, db.keys[name]) != {}
    ensures var rows, again := RowsOf(db, db.keys[name]), GotId(db.(locked := {}), name);
      again in rows && forall r :: r in rows ==> again <= r
  {
    var free := db.(locked := {});
    assert WithKey(free, name) == free;
    assert FreeOf(free, db.keys[name]) == RowsOf(db, db.keys[name]);
  }
}
