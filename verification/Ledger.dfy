/**
 The `_sqlx_migrations` ledger, the migrator that walks it, and the three
 repairs that reconcile it before the migrator runs.
 */
module Ledger {
  /** A SHA-384 value; only equality matters. */
  datatype Checksum = Checksum(bytes: seq<int>)

  /** Version to stored checksum. */
  type Rows = map<int, Checksum>

  /** What the embedded migration files and the hard-coded v1.1.9 keys say. */
  datatype Release = Release(files: Rows, old73: Checksum, old74: Checksum, old75: Checksum) {
    /** The files the repairs embed are part of the build. */
    ghost predicate Ships() {
      {73, 74, 75, 154, 155, 156, 157, 163} <= files.Keys
    }
    /** The detection keys tell the diverged files apart. */
    ghost predicate Distinct()
      requires Ships()
    {
      && old73 != files[73] && old74 != files[74] && old75 != files[75]
      && files[154] != files[157] && files[155] != files[163]
    }
  }

  datatype Object =
    | FailedLoginAttempts | LockedUntil | LastFailedLoginAt   // main's 073
    | PasswordHistory | PasswordHistoryIndex                  // main's 074
    | OldQuarantineCheck | QuarantineCheck | QuarantineUntil | QuarantineUntilIndex  // main's 075
    | QuarantineReason
    | StorageKeyIndex | MavenFlatOwner                        // main's 157 and 163
    | SchemaOf(version: int)

  datatype Db = Db(hasTable: bool, rows: Rows, objects: set<Object>)

  // ----- the migrator ---------------------------------------------------------

  ghost predicate Ascending(order: seq<int>) {
    forall i, j :: 0 <= i < j < |order| ==> order[i] < order[j]
  }

  predicate Within(order: seq<int>, files: Rows) {
    forall i :: 0 <= i < |order| ==> order[i] in files
  }

  /** `order` lists the versions of `files` in ascending order. */
  ghost predicate Enumerates(order: seq<int>, files: Rows) {
    && Ascending(order) && Within(order, files)
    && (forall v :: v in order <==> v in files)
  }

  datatype WalkEnd = Completed | MismatchAt(version: int)

  datatype Walked = Walked(rows: Rows, applied: seq<int>, end: WalkEnd)

  /** The assumed migrator: compare what is recorded, apply and record what is not. */
  function Walk(files: Rows, order: seq<int>, rows: Rows): (w: Walked)
    requires Within(order, files)
  {
    if order == [] then Walked(rows, [], Completed)
    else if order[0] in rows then
      if rows[order[0]] != files[order[0]] then Walked(rows, [], MismatchAt(order[0]))
      else Walk(files, order[1..], rows)
    else
      var w := Walk(files, order[1..], rows[order[0] := files[order[0]]]);
      w.(applied := [order[0]] + w.applied)
  }

  /** The versions of `order` that `rows` lacks, in order. */
  function Missing(order: seq<int>, rows: Rows): seq<int> {
    if order == [] then []
    else (if order[0] in rows then [] else [order[0]]) + Missing(order[1..], rows)
  }

  ghost predicate Matches(files: Rows, rows: Rows, v: int) {
    v in rows && v in files ==> rows[v] == files[v]
  }

  /** The migrator would accept this ledger. */
  ghost predicate Accepts(files: Rows, rows: Rows) {
    forall v :: Matches(files, rows, v)
  }

  /** On a matching ledger the walk completes, records every file, and applies exactly what was missing. */
  lemma {:induction false} WalkCompletes(files: Rows, order: seq<int>, rows: Rows)
    requires Within(order, files) && Ascending(order)
    requires forall v :: v in order ==> Matches(files, rows, v)
    ensures var w := Walk(files, order, rows);
            && w.end == Completed
            && w.applied == Missing(order, rows)
            && (forall v :: v in w.rows <==> v in rows || v in order)
            && (forall v :: v in rows ==> w.rows[v] == rows[v])
            && (forall v :: v in order ==> w.rows[v] == files[v])
  {
    if order != [] {
      var v0 := order[0];
      var rest := order[1..];
      assert order == [v0] + rest;
      var rows' := if v0 in rows then rows else rows[v0 := files[v0]];
      forall v | v in rest ensures Matches(files, rows', v) && v != v0 {
        assert Matches(files, rows, v);
        var j :| 0 <= j < |rest| && rest[j] == v;
        assert order[j + 1] == v;
      }
      assert Matches(files, rows, v0);
      WalkCompletes(files, rest, rows');
      MissingAgrees(rest, rows, rows', v0);
    }
  }

  /** A ledger that agrees with the files wherever it has a row is completed to exactly the files. */
  lemma WalkReachesFiles(files: Rows, order: seq<int>, rows: Rows)
    requires Enumerates(order, files)
    requires forall v :: v in rows ==> v in files && rows[v] == files[v]
    ensures var w := Walk(files, order, rows);
            && w.end == Completed && w.rows == files && w.applied == Missing(order, rows)
            && (forall v :: v in w.applied <==> v in files && v !in rows)
  {
    WalkCompletes(files, order, rows);
    MissingMembers(order, rows);
    var w := Walk(files, order, rows);
    assert forall v :: v in w.rows <==> v in files;
    assert forall v :: v in files ==> v in order && w.rows[v] == files[v];
  }

  lemma {:induction false} MissingAgrees(order: seq<int>, rows: Rows, rows': Rows, v0: int)
    requires v0 !in order && forall v :: v != v0 ==> (v in rows <==> v in rows')
    ensures Missing(order, rows) == Missing(order, rows')
  {
    if order != [] { MissingAgrees(order[1..], rows, rows', v0); }
  }

  /** The walk stops at the first recorded version, in order, whose checksum differs. */
  lemma {:induction false} WalkStops(files: Rows, order: seq<int>, rows: Rows, bad: int)
    requires Within(order, files) && Ascending(order)
    requires bad in order && bad in rows && rows[bad] != files[bad]
    requires forall v :: v in order && v < bad ==> Matches(files, rows, v)
    ensures Walk(files, order, rows).end == MismatchAt(bad)
    ensures forall v :: v >= bad ==> (v in Walk(files, order, rows).rows <==> v in rows)
    ensures forall v :: v in rows ==> v in Walk(files, order, rows).rows && Walk(files, order, rows).rows[v] == rows[v]
  {
    var v0 := order[0];
    var rest := order[1..];
    if v0 != bad {
      var j :| 0 <= j < |order| && order[j] == bad;
      assert order[0] < order[j] && rest[j - 1] == bad;
      assert Matches(files, rows, v0);
      var rows' := if v0 in rows then rows else rows[v0 := files[v0]];
      forall v | v in rest && v < bad ensures Matches(files, rows', v) { assert Matches(files, rows, v); }
      WalkStops(files, rest, rows', bad);
    } else {
      assert forall v :: v in order && v < bad ==> false;
    }
  }

  // ----- what the repairs do, as relations between databases ---------------------

  ghost predicate Stale073(rel: Release, db: Db)
    requires rel.Ships()
  {
    db.hasTable && 73 in db.rows && FailedLoginAttempts in db.objects && db.rows[73] != rel.files[73]
  }

  ghost function After073(rel: Release, db: Db): Db
    requires rel.Ships()
  {
    if Stale073(rel, db) then db.(rows := db.rows[73 := rel.files[73]]) else db
  }

  ghost predicate IsV119(rel: Release, db: Db) {
    && db.hasTable
    && 73 in db.rows && db.rows[73] == rel.old73
    && 74 in db.rows && db.rows[74] == rel.old74
    && 75 in db.rows && db.rows[75] == rel.old75
  }

  const LOCKOUT: set<Object> := {FailedLoginAttempts, LockedUntil, LastFailedLoginAt}

  /** The objects main's migration for a slot 73..75 creates. */
  function SlotSchema(v: int): set<Object> {
    if v == 73 then LOCKOUT
    else if v == 74 then {PasswordHistory, PasswordHistoryIndex}
    else if v == 75 then {QuarantineCheck, QuarantineUntil, QuarantineUntilIndex}
    else {}
  }

  ghost function After119(rel: Release, db: Db): Db
    requires rel.Ships()
  {
    if IsV119(rel, db) then
      Db(true,
         db.rows[73 := rel.files[73]][74 := rel.files[74]][75 := rel.files[75]],
         db.objects - {OldQuarantineCheck} + SlotSchema(73) + SlotSchema(74) + SlotSchema(75) + {QuarantineReason})
    else db
  }

  /** v1.5.8 also recorded main's 163 file, at slot 155. */
  ghost predicate IsV158(rel: Release, rows: Rows)
    requires rel.Ships()
  {
    155 in rows && rows[155] == rel.files[163]
  }

  /** The v1.5.x ledgers the repair knows how to renumber. */
  ghost predicate Renumberable(rel: Release, db: Db)
    requires rel.Ships()
  {
    && db.hasTable
    && 154 in db.rows && db.rows[154] == rel.files[157]
    && 156 !in db.rows && 157 !in db.rows
    && (155 in db.rows ==> IsV158(rel, db.rows) && 163 !in db.rows)
    && StorageKeyIndex in db.objects
    && (155 in db.rows ==> MavenFlatOwner in db.objects)
  }

  /** The ledger with one row under another version. */
  function Moved(rows: Rows, src: int, dst: int): Rows
    requires src in rows
  {
    (rows - {src})[dst := rows[src]]
  }

  ghost function RenumberedRows(rel: Release, rows: Rows): Rows
    requires rel.Ships() && 154 in rows
  {
    if IsV158(rel, rows) then Moved(Moved(rows, 154, 157), 155, 163) else Moved(rows, 154, 157)
  }

  ghost function After15x(rel: Release, db: Db): Db
    requires rel.Ships()
  {
    if Renumberable(rel, db) then db.(rows := RenumberedRows(rel, db.rows)) else db
  }

  // ----- the repairs themselves ----------------------------------------------------

  class Database {
    var hasTable: bool
    var rows: Rows
    var objects: set<Object>

    ghost function State(): Db
      reads this
    {
      Db(hasTable, rows, objects)
    }

    /** `repair_legacy_073_checksum` */
    method RepairLegacy073(rel: Release)
      requires rel.Ships()
      modifies this
      ensures State() == After073(rel, old(State()))
    {
      if !hasTable { return; }
      if 73 !in rows { return; }
      var stored := rows[73];
      if FailedLoginAttempts !in objects { return; }
      var current := rel.files[73];
      if stored == current { return; }
      rows := rows[73 := current];
    }

    /** `repair_release_1_1_9_divergence` */
    method RepairRelease119(rel: Release)
      requires rel.Ships()
      modifies this
      ensures State() == After119(rel, old(State()))
      ensures IsV119(rel, old(State())) ==>
                && {FailedLoginAttempts, LockedUntil, LastFailedLoginAt, PasswordHistory, PasswordHistoryIndex} <= objects
                && {QuarantineCheck, QuarantineUntil, QuarantineReason, QuarantineUntilIndex} <= objects && OldQuarantineCheck !in objects
    {
      if !hasTable { return; }
      if 73 !in rows || 74 !in rows || 75 !in rows { return; }
      if rows[73] != rel.old73 || rows[74] != rel.old74 || rows[75] != rel.old75 { return; }
      ApplyMainSlots();
      RewriteChecksums(rel);
    }

    /** Main's 073, 074 and 075, statement by statement (and the column of 178). */
    method ApplyMainSlots()
      modifies this
      ensures rows == old(rows) && hasTable == old(hasTable)
      ensures objects == old(objects) - {OldQuarantineCheck} + SlotSchema(73) + SlotSchema(74) + SlotSchema(75) + {QuarantineReason}
    {
      objects := objects + LOCKOUT;
      objects := objects + {PasswordHistory};
      objects := objects + {PasswordHistoryIndex};
      objects := objects - {OldQuarantineCheck, QuarantineCheck};
      objects := objects + {QuarantineCheck};
      objects := objects + {QuarantineUntil};
      objects := objects + {QuarantineReason};
      objects := objects + {QuarantineUntilIndex};
    }

    method RewriteChecksums(rel: Release)
      requires rel.Ships() && {73, 74, 75} <= rows.Keys
      modifies this
      ensures objects == old(objects) && hasTable == old(hasTable)
      ensures rows == old(rows)[73 := rel.files[73]][74 := rel.files[74]][75 := rel.files[75]]
    {
      var versions := [73, 74, 75];
      for k := 0 to |versions|
        invariant objects == old(objects) && hasTable == old(hasTable) && rows.Keys == old(rows).Keys
        invariant forall v :: v in rows ==> rows[v] == if v in versions[..k] then rel.files[v] else old(rows)[v]
      {
        rows := rows[versions[k] := rel.files[versions[k]]];
      }
      assert versions[..|versions|] == [73, 74, 75];
      ghost var target := old(rows)[73 := rel.files[73]][74 := rel.files[74]][75 := rel.files[75]];
      assert forall v :: v in rows ==> v in target && rows[v] == target[v];
    }

    /** One `UPDATE _sqlx_migrations SET version = dst WHERE version = src`; false on a key conflict. */
    method Renumber(src: int, dst: int) returns (ok: bool, moved: nat)
      requires src != dst
      modifies this
      ensures objects == old(objects) && hasTable == old(hasTable)
      ensures ok <==> !(src in old(rows) && dst in old(rows))
      ensures rows == if ok && src in old(rows) then Moved(old(rows), src, dst) else old(rows)
      ensures moved == if ok && src in old(rows) then 1 else 0
    {
      moved := 0;
      if src !in rows { return true, 0; }
      if dst in rows { return false, 0; }
      var c := rows[src];
      rows := (rows - {src})[dst := c];
      return true, 1;
    }

    /** `repair_release_1_5_x_divergence`: exactly one row moves per renumbering, and no update can fail. */
    method RepairRelease15x(rel: Release) returns (moved154: nat, moved155: nat)
      requires rel.Ships()
      modifies this
      ensures State() == After15x(rel, old(State()))
      ensures moved154 == if Renumberable(rel, old(State())) then 1 else 0
      ensures moved155 == if Renumberable(rel, old(State())) && IsV158(rel, old(rows)) then 1 else 0
      ensures moved154 == 1 ==> StorageKeyIndex in objects && !(156 in old(rows)) && !(157 in old(rows))
      ensures moved155 == 1 ==> MavenFlatOwner in objects && !(163 in old(rows))
    {
      moved154, moved155 := 0, 0;
      if !hasTable { return; }
      if 154 !in rows { return; }
      if rows[154] != rel.files[157] { return; }
      if 156 in rows || 157 in rows { return; }
      var renumber155 := false;
      if 155 in rows {
        if rows[155] == rel.files[163] {
          if 163 in rows { return; }
          renumber155 := true;
        } else {
          return;
        }
      }
      if StorageKeyIndex !in objects { return; }
      if renumber155 && MavenFlatOwner !in objects { return; }
      var ok;
      ok, moved154 := Renumber(154, 157);
      assert ok;
      if renumber155 {
        ok, moved155 := Renumber(155, 163);
        assert ok;
      }
    }
  }

  // ----- no repair touches a healthy ledger -----------------------------------------

  /** What the three repairs do, in boot order. */
  ghost function AfterRepairs(rel: Release, db: Db): Db
    requires rel.Ships()
  {
    After15x(rel, After119(rel, After073(rel, db)))
  }

  /** Composed in boot order, the repairs change nothing on a ledger the migrator would accept. */
  lemma HealthyLedgerUntouched(rel: Release, db: Db)
    requires rel.Ships() && rel.Distinct()
    requires Accepts(rel.files, db.rows)
    ensures AfterRepairs(rel, db) == db
  {
    assert Matches(rel.files, db.rows, 73) && Matches(rel.files, db.rows, 154);
  }

  /** Each repair stays inside its own slots, whatever the database. */
  lemma RepairsStayInTheirSlots(rel: Release, db: Db, v: int)
    requires rel.Ships()
    ensures v != 73 ==> (v in After073(rel, db).rows <==> v in db.rows)
    ensures v != 73 && v in db.rows ==> After073(rel, db).rows[v] == db.rows[v]
    ensures v !in {73, 74, 75} ==> (v in After119(rel, db).rows <==> v in db.rows)
    ensures v !in {73, 74, 75} && v in db.rows ==> After119(rel, db).rows[v] == db.rows[v]
    ensures v !in {154, 155, 157, 163} ==> (v in After15x(rel, db).rows <==> v in db.rows)
    ensures v !in {154, 155, 157, 163} && v in db.rows ==> After15x(rel, db).rows[v] == db.rows[v]
    ensures After073(rel, db).objects == db.objects && After15x(rel, db).objects == db.objects
  {
  }

  /** The renumbering and the other two repairs do not get in each other's way: any order gives the same. */
  lemma RenumberingCommutes(rel: Release, db: Db)
    requires rel.Ships()
    ensures After15x(rel, After119(rel, db)) == After119(rel, After15x(rel, db))
    ensures After15x(rel, After073(rel, db)) == After073(rel, After15x(rel, db))
  {
    hide After15x, After119, After073;
    CommutesWith119(rel, db);
    CommutesWith073(rel, db);
  }

  lemma CommutesWith119(rel: Release, db: Db)
    requires rel.Ships()
    ensures After15x(rel, After119(rel, db)) == After119(rel, After15x(rel, db))
  {
    assert Renumberable(rel, After119(rel, db)) <==> Renumberable(rel, db);
    if Renumberable(rel, db) && IsV119(rel, db) {
      assert After15x(rel, After119(rel, db)).rows == After119(rel, After15x(rel, db)).rows;
    }
  }

  lemma CommutesWith073(rel: Release, db: Db)
    requires rel.Ships()
    ensures After15x(rel, After073(rel, db)) == After073(rel, After15x(rel, db))
  {
    if Renumberable(rel, db) && Stale073(rel, db) {
      assert After15x(rel, After073(rel, db)).rows == After073(rel, After15x(rel, db)).rows;
    }
  }

  // ----- v1.5.x upgrades -----------------------------------------------------------

  /** A v1.5.7 (or, with `both`, v1.5.8) ledger over the files: matching rows below 154, then the diverged slots. */
  ghost predicate Pristine15x(rel: Release, db: Db, both: bool)
    requires rel.Ships()
  {
    && db.hasTable
    && (forall v :: v in db.rows && v < 154 ==> v in rel.files && db.rows[v] == rel.files[v])
    && (forall v :: v in db.rows && v >= 154 ==> v == 154 || (both && v == 155))
    && 154 in db.rows && db.rows[154] == rel.files[157]
    && (both ==> 155 in db.rows && db.rows[155] == rel.files[163])
    && StorageKeyIndex in db.objects
    && (both ==> MavenFlatOwner in db.objects)
  }

  /** Without the repair the migrator stops at 154, having touched no slot from 154 on. */
  lemma UnrepairedUpgradeStops(rel: Release, order: seq<int>, db: Db, both: bool)
    requires rel.Ships() && rel.Distinct() && Enumerates(order, rel.files) && Pristine15x(rel, db, both)
    ensures Walk(rel.files, order, db.rows).end == MismatchAt(154)
    ensures forall v :: v >= 154 ==> (v in Walk(rel.files, order, db.rows).rows <==> v in db.rows)
  {
    WalkStops(rel.files, order, db.rows, 154);
  }

  /** The two repairs before it find nothing to do. */
  lemma EarlierRepairsIdle(rel: Release, db: Db, both: bool)
    requires rel.Ships() && rel.Distinct() && Pristine15x(rel, db, both)
    ensures AfterRepairs(rel, db) == After15x(rel, db)
  {
  }

  /** The repair moves the diverged rows, so that every row carries the checksum main expects there. */
  lemma RepairedLedgerMatches(rel: Release, db: Db, both: bool)
    requires rel.Ships() && rel.Distinct() && Pristine15x(rel, db, both)
    ensures var rows := After15x(rel, db).rows;
            && (forall v :: v in rows <==> (v in db.rows && v < 154) || v == 157 || (both && v == 163))
            && (forall v :: v in rows ==> v in rel.files && rows[v] == rel.files[v])
  {
    assert Renumberable(rel, db);
    assert both <==> IsV158(rel, db.rows);
  }

  /**
   After the boot's three repairs the migrator completes with a ledger equal to the file map,
   applying exactly the missing versions: 154, 155 and 156 among them, 157 not,
   and 163 only when upgrading from v1.5.7.
   */
  lemma RepairedUpgradeCompletes(rel: Release, order: seq<int>, db: Db, both: bool)
    requires rel.Ships() && rel.Distinct() && Enumerates(order, rel.files) && Pristine15x(rel, db, both)
    ensures var w := Walk(rel.files, order, AfterRepairs(rel, db).rows);
            && w.end == Completed && w.rows == rel.files
            && w.applied == Missing(order, AfterRepairs(rel, db).rows)
            && (forall v :: v in w.applied <==> v in rel.files && !(v in db.rows && v < 154) && v != 157 && !(both && v == 163))
            && 154 in w.applied && 155 in w.applied && 156 in w.applied && 157 !in w.applied
            && (163 in w.applied <==> !both)
  {
    var rows := AfterRepairs(rel, db).rows;
    EarlierRepairsIdle(rel, db, both);
    RepairedLedgerMatches(rel, db, both);
    hide After15x, After119, After073;
    WalkReachesFiles(rel.files, order, rows);
  }

  lemma {:induction false} MissingMembers(order: seq<int>, rows: Rows)
    ensures forall v :: v in Missing(order, rows) <==> v in order && v !in rows
  {
    if order != [] {
      assert order == [order[0]] + order[1..];
      MissingMembers(order[1..], rows);
    }
  }
}
