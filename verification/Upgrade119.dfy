/**
 Upgrading a v1.1.9 ledger: boots, one after another, each of which may crash
 (or fail a statement) between any two statements.  The 1.1.9 repair runs outside
 any transaction, so what a crashed boot did stays done.
 */
module Upgrade119 {
  import opened Ledger

  /** Where a boot stands; each step is one statement. */
  datatype Pc =
    | Check073 | Column073(stale: bool) | Write073
    | Check119 | Body(next: nat)
    | Renumber
    | Migrate(next: nat)
    | Stopped(version: int) | Aborted | Finished
  {
    predicate Terminal() { Stopped? || Aborted? || Finished? }
    /** Strictly after the lockout ALTER and before the last checksum UPDATE. */
    predicate InZone() { Body? && 1 <= next <= 10 }
  }

  const BODY_LENGTH: nat := 11

  function Update(rows: Rows, v: int, c: Checksum): Rows {
    if v in rows then rows[v := c] else rows
  }

  /** Statement `i` of the 1.1.9 repair's body. */
  function Exec(rel: Release, i: nat, db: Db): Db
    requires {73, 74, 75} <= rel.files.Keys
  {
    match i
    case 0 => db.(objects := db.objects + LOCKOUT)
    case 1 => db.(objects := db.objects + {PasswordHistory})
    case 2 => db.(objects := db.objects + {PasswordHistoryIndex})
    case 3 => db.(objects := db.objects - {OldQuarantineCheck, QuarantineCheck})
    case 4 => db.(objects := db.objects + {QuarantineCheck})
    case 5 => db.(objects := db.objects + {QuarantineUntil})
    case 6 => db.(objects := db.objects + {QuarantineReason})
    case 7 => db.(objects := db.objects + {QuarantineUntilIndex})
    case 8 => db.(rows := Update(db.rows, 73, rel.files[73]))
    case 9 => db.(rows := Update(db.rows, 74, rel.files[74]))
    case 10 => db.(rows := Update(db.rows, 75, rel.files[75]))
    case _ => db
  }

  /** A constraint of the name that the repair adds is there, in either form. */
  predicate HasCheck(db: Db) { OldQuarantineCheck in db.objects || QuarantineCheck in db.objects }

  /** The boot's next statement; ADD CONSTRAINT fails if the constraint is there, which ends the boot. */
  ghost function Step(rel: Release, order: seq<int>, pc: Pc, db: Db): (Pc, Db)
    requires rel.Ships() && Enumerates(order, rel.files)
  {
    match pc
    case Check073 => (if db.hasTable && 73 in db.rows then Column073(db.rows[73] != rel.files[73]) else Check119, db)
    case Column073(stale) => (if stale && FailedLoginAttempts in db.objects then Write073 else Check119, db)
    case Write073 => (Check119, db.(rows := Update(db.rows, 73, rel.files[73])))
    case Check119 => (if IsV119(rel, db) then Body(0) else Renumber, db)
    case Body(i) =>
      if i == 4 && HasCheck(db) then (Aborted, db)
      else (if i + 1 < BODY_LENGTH then Body(i + 1) else Renumber, Exec(rel, i, db))
    case Renumber => (Migrate(0), After15x(rel, db))
    case Migrate(k) =>
      if k >= |order| then (Finished, db)
      else if order[k] !in db.rows then
        (Migrate(k + 1), Db(true, db.rows[order[k] := rel.files[order[k]]], db.objects + {SchemaOf(order[k])}))
      else if db.rows[order[k]] == rel.files[order[k]] then (Migrate(k + 1), db)
      else (Stopped(order[k]), db)
    case _ => (pc, db)
  }

  /** At most `n` statements of a boot that stands at `pc`. */
  ghost function Run(rel: Release, order: seq<int>, pc: Pc, db: Db, n: nat): (Pc, Db)
    requires rel.Ships() && Enumerates(order, rel.files)
    decreases n
  {
    if n == 0 || pc.Terminal() then (pc, db)
    else
      var (pc', db') := Step(rel, order, pc, db);
      Run(rel, order, pc', db', n - 1)
  }

  /** The database after boots that got `boots[0]`, `boots[1]`, ... statements far. */
  ghost function AfterBoots(rel: Release, order: seq<int>, db: Db, boots: seq<nat>): Db
    requires rel.Ships() && Enumerates(order, rel.files)
    decreases |boots|
  {
    if boots == [] then db else AfterBoots(rel, order, Run(rel, order, Check073, db, boots[0]).1, boots[1..])
  }

  /** Some boot of the run crashed inside the zone. */
  ghost predicate CrashedInZone(rel: Release, order: seq<int>, db: Db, boots: seq<nat>)
    requires rel.Ships() && Enumerates(order, rel.files)
    decreases |boots|
  {
    boots != [] &&
    (Run(rel, order, Check073, db, boots[0]).0.InZone()
     || CrashedInZone(rel, order, Run(rel, order, Check073, db, boots[0]).1, boots[1..]))
  }

  /** A boot that does not crash gets through the migrator. */
  ghost predicate Boots(rel: Release, order: seq<int>, db: Db)
    requires rel.Ships() && Enumerates(order, rel.files)
  {
    exists n :: Run(rel, order, Check073, db, n).0 == Finished
  }

  // ----- the kinds of database a run visits ---------------------------------------

  ghost predicate OthersMatch(rel: Release, db: Db) {
    forall v :: v !in {73, 74, 75} ==> Matches(rel.files, db.rows, v)
  }

  /** A v1.1.9 database: its three rows, everything else matching, no lockout columns. */
  ghost predicate V119(rel: Release, db: Db) {
    IsV119(rel, db) && FailedLoginAttempts !in db.objects && OthersMatch(rel, db)
  }

  /** Lockout columns there, row 75 still the old one. */
  ghost predicate Wedged(rel: Release, db: Db)
    requires rel.Ships()
  {
    && db.hasTable && {73, 74, 75} <= db.rows.Keys
    && LOCKOUT <= db.objects && db.rows[75] == rel.old75
    && db.rows[74] in {rel.old74, rel.files[74]}
    && OthersMatch(rel, db)
  }

  ghost predicate Repaired(rel: Release, db: Db)
    requires rel.Ships()
  {
    && db.hasTable && {73, 74, 75} <= db.rows.Keys
    && db.rows[73] == rel.files[73] && db.rows[74] == rel.files[74] && db.rows[75] == rel.files[75]
    && OthersMatch(rel, db)
  }

  /** A row 73..75 with main's checksum has main's schema behind it. */
  ghost predicate SchemaBacked(rel: Release, db: Db)
    requires rel.Ships()
  {
    forall v :: v in {73, 74, 75} && v in db.rows && db.rows[v] == rel.files[v] ==> SlotSchema(v) <= db.objects
  }

  /** What the first `i` body statements have put in place. */
  function Laid(i: nat): set<Object> {
    (if i >= 1 then LOCKOUT else {}) + (if i >= 2 then {PasswordHistory} else {}) + (if i >= 3 then {PasswordHistoryIndex} else {})
    + (if i >= 5 then {QuarantineCheck} else {}) + (if i >= 6 then {QuarantineUntil} else {}) + (if i >= 8 then {QuarantineUntilIndex} else {})
  }

  /** Before the zone the database is untouched v1.1.9; in it, wedged; after it, repaired. */
  ghost predicate OnTrack(rel: Release, order: seq<int>, pc: Pc, db: Db)
    requires rel.Ships()
  {
    match pc
    case Check073 => V119(rel, db) || Repaired(rel, db)
    case Column073(stale) => V119(rel, db) || (Repaired(rel, db) && !stale)
    case Check119 => V119(rel, db) || Repaired(rel, db)
    case Body(i) =>
      && i < BODY_LENGTH && Laid(i) <= db.objects
      && (i == 0 ==> V119(rel, db))
      && (i == 4 ==> !HasCheck(db))
      && (i >= 1 ==> Wedged(rel, db))
      && db.rows[73] == (if i <= 8 then rel.old73 else rel.files[73])
      && db.rows[74] == (if i <= 9 then rel.old74 else rel.files[74])
    case Renumber => Repaired(rel, db)
    case Migrate(k) => Repaired(rel, db) && k <= |order|
    case Finished => Repaired(rel, db)
    case _ => false
  }

  /** A boot that finds the database wedged leaves it wedged and stops at 74 or 75. */
  ghost predicate OffTrack(rel: Release, order: seq<int>, pc: Pc, db: Db)
    requires rel.Ships()
  {
    && Wedged(rel, db)
    && match pc
       case Check073 => true
       case Column073(stale) => stale == (db.rows[73] != rel.files[73])
       case Write073 => Stale073(rel, db)
       case Check119 => db.rows[73] == rel.files[73]
       case Renumber => db.rows[73] == rel.files[73]
       case Migrate(k) => db.rows[73] == rel.files[73] && k <= |order| && 75 !in order[..k]
       case Stopped(v) => v == 74 || v == 75
       case _ => false
  }

  /** No statement disturbs the other rows: the 1.5.x repair does not apply, and the migrator records matching ones. */
  lemma OthersStep(rel: Release, order: seq<int>, pc: Pc, db: Db)
    requires rel.Ships() && rel.Distinct() && Enumerates(order, rel.files) && OthersMatch(rel, db)
    ensures OthersMatch(rel, Step(rel, order, pc, db).1)
    ensures pc.Renumber? ==> Step(rel, order, pc, db).1 == db
    ensures pc.Migrate? && pc.next < |order| ==> Step(rel, order, pc, db).0 == Stopped(order[pc.next]) ==> order[pc.next] in {73, 74, 75}
  {
    assert Matches(rel.files, db.rows, 154);
    var db' := Step(rel, order, pc, db).1;
    forall v | v !in {73, 74, 75} ensures Matches(rel.files, db'.rows, v) {
      assert Matches(rel.files, db.rows, v);
    }
    if pc.Migrate? && pc.next < |order| {
      assert Matches(rel.files, db.rows, order[pc.next]) || order[pc.next] in {73, 74, 75};
    }
  }

  lemma OnTrackStep(rel: Release, order: seq<int>, pc: Pc, db: Db)
    requires rel.Ships() && rel.Distinct() && Enumerates(order, rel.files)
    requires OnTrack(rel, order, pc, db) && SchemaBacked(rel, db)
    ensures var (pc', db') := Step(rel, order, pc, db); OnTrack(rel, order, pc', db') && SchemaBacked(rel, db')
  {
    OthersStep(rel, order, pc, db);
  }

  lemma OffTrackStep(rel: Release, order: seq<int>, pc: Pc, db: Db)
    requires rel.Ships() && rel.Distinct() && Enumerates(order, rel.files)
    requires OffTrack(rel, order, pc, db) && SchemaBacked(rel, db)
    ensures var (pc', db') := Step(rel, order, pc, db); OffTrack(rel, order, pc', db') && SchemaBacked(rel, db')
  {
    OthersStep(rel, order, pc, db);
    if pc.Migrate? && pc.next < |order| {
      assert order[..pc.next + 1] == order[..pc.next] + [order[pc.next]];
    }
  }

  lemma {:induction false} OnTrackRun(rel: Release, order: seq<int>, pc: Pc, db: Db, n: nat)
    requires rel.Ships() && rel.Distinct() && Enumerates(order, rel.files)
    requires OnTrack(rel, order, pc, db) && SchemaBacked(rel, db)
    ensures var (pc', db') := Run(rel, order, pc, db, n); OnTrack(rel, order, pc', db') && SchemaBacked(rel, db')
    decreases n
  {
    if n != 0 && !pc.Terminal() {
      OnTrackStep(rel, order, pc, db);
      var (pc', db') := Step(rel, order, pc, db);
      OnTrackRun(rel, order, pc', db', n - 1);
    }
  }

  lemma {:induction false} OffTrackRun(rel: Release, order: seq<int>, pc: Pc, db: Db, n: nat)
    requires rel.Ships() && rel.Distinct() && Enumerates(order, rel.files)
    requires OffTrack(rel, order, pc, db) && SchemaBacked(rel, db)
    ensures var (pc', db') := Run(rel, order, pc, db, n); OffTrack(rel, order, pc', db') && SchemaBacked(rel, db')
    decreases n
  {
    if n != 0 && !pc.Terminal() {
      OffTrackStep(rel, order, pc, db);
      var (pc', db') := Step(rel, order, pc, db);
      OffTrackRun(rel, order, pc', db', n - 1);
    }
  }

  /** How many statements are left at most. */
  ghost function Left(order: seq<int>, pc: Pc): nat {
    match pc
    case Check073 => |order| + 21
    case Column073(_) => |order| + 20
    case Write073 => |order| + 19
    case Check119 => |order| + 18
    case Body(i) => |order| + 3 + if i < BODY_LENGTH then BODY_LENGTH - i else 1
    case Renumber => |order| + 3
    case Migrate(k) => if k <= |order| then |order| - k + 1 else 1
    case _ => 0
  }

  /** Every boot ends: it finishes or stops at a mismatch. */
  lemma {:induction false} BootEnds(rel: Release, order: seq<int>, pc: Pc, db: Db, n: nat)
    requires rel.Ships() && Enumerates(order, rel.files) && n >= Left(order, pc)
    ensures Run(rel, order, pc, db, n).0.Terminal()
    decreases n
  {
    if n != 0 && !pc.Terminal() {
      var (pc', db') := Step(rel, order, pc, db);
      BootEnds(rel, order, pc', db', n - 1);
    }
  }

  /** After any boots from a v1.1.9 database: wedged if one crashed in the zone, else v1.1.9 still or repaired. */
  lemma {:induction false} BootsClassified(rel: Release, order: seq<int>, db: Db, boots: seq<nat>)
    requires rel.Ships() && rel.Distinct() && Enumerates(order, rel.files) && SchemaBacked(rel, db)
    requires V119(rel, db) || Repaired(rel, db) || Wedged(rel, db)
    ensures var db' := AfterBoots(rel, order, db, boots);
            && SchemaBacked(rel, db')
            && (Wedged(rel, db) || CrashedInZone(rel, order, db, boots) ==> Wedged(rel, db'))
            && (!Wedged(rel, db) && !CrashedInZone(rel, order, db, boots) ==> V119(rel, db') || Repaired(rel, db'))
    decreases |boots|
  {
    if boots != [] {
      var (pc', db') := Run(rel, order, Check073, db, boots[0]);
      if Wedged(rel, db) {
        OffTrackRun(rel, order, Check073, db, boots[0]);
      } else {
        OnTrackRun(rel, order, Check073, db, boots[0]);
      }
      BootsClassified(rel, order, db', boots[1..]);
    }
  }

  /**
   From a v1.1.9 database, over all boots with crashes: a later boot gets through
   exactly when none of the earlier ones crashed inside the zone.
   */
  lemma RetrySafeIffNoZoneCrash(rel: Release, order: seq<int>, db: Db, boots: seq<nat>)
    requires rel.Ships() && rel.Distinct() && Enumerates(order, rel.files) && V119(rel, db)
    ensures Boots(rel, order, AfterBoots(rel, order, db, boots)) <==> !CrashedInZone(rel, order, db, boots)
  {
    BootsClassified(rel, order, db, boots);
    var db' := AfterBoots(rel, order, db, boots);
    var n := Left(order, Check073);
    BootEnds(rel, order, Check073, db', n);
    if CrashedInZone(rel, order, db, boots) {
      forall m ensures Run(rel, order, Check073, db', m).0 != Finished {
        OffTrackRun(rel, order, Check073, db', m);
      }
    } else {
      OnTrackRun(rel, order, Check073, db', n);
      assert Run(rel, order, Check073, db', n).0 == Finished;
    }
  }

  /** A zone crash is permanent: every later boot stops at 74 or 75. */
  lemma ZoneCrashStopsEveryBoot(rel: Release, order: seq<int>, db: Db, boots: seq<nat>, n: nat)
    requires rel.Ships() && rel.Distinct() && Enumerates(order, rel.files) && V119(rel, db)
    requires CrashedInZone(rel, order, db, boots) && n >= Left(order, Check073)
    ensures Run(rel, order, Check073, AfterBoots(rel, order, db, boots), n).0 in {Stopped(74), Stopped(75)}
  {
    BootsClassified(rel, order, db, boots);
    BootEnds(rel, order, Check073, AfterBoots(rel, order, db, boots), n);
    OffTrackRun(rel, order, Check073, AfterBoots(rel, order, db, boots), n);
  }

  /** In all these runs, mid-boot included, main's checksum in a slot means main's schema is there. */
  lemma ChecksumImpliesSchema(rel: Release, order: seq<int>, db: Db, boots: seq<nat>, n: nat)
    requires rel.Ships() && rel.Distinct() && Enumerates(order, rel.files) && V119(rel, db)
    ensures SchemaBacked(rel, Run(rel, order, Check073, AfterBoots(rel, order, db, boots), n).1)
  {
    BootsClassified(rel, order, db, boots);
    var db' := AfterBoots(rel, order, db, boots);
    if Wedged(rel, db') { OffTrackRun(rel, order, Check073, db', n); } else { OnTrackRun(rel, order, Check073, db', n); }
  }

  // ----- the steps are the repairs ---------------------------------------------------

  /** Statements i..j of the body. */
  ghost function ExecRange(rel: Release, i: nat, j: nat, db: Db): Db
    requires rel.Ships() && i <= j
    decreases j - i
  {
    if i == j then db else ExecRange(rel, i + 1, j, Exec(rel, i, db))
  }

  lemma {:induction false} RunBody(rel: Release, order: seq<int>, i: nat, j: nat, db: Db)
    requires rel.Ships() && Enumerates(order, rel.files) && i <= j <= BODY_LENGTH && (i == 4 ==> !HasCheck(db))
    ensures i < BODY_LENGTH ==>
              Run(rel, order, Body(i), db, j - i) == (if j < BODY_LENGTH then Body(j) else Renumber, ExecRange(rel, i, j, db))
    decreases j - i
  {
    if i < j && i + 1 < BODY_LENGTH { RunBody(rel, order, i + 1, j, Exec(rel, i, db)); }
  }

  lemma BodyRows(rel: Release, db: Db)
    requires rel.Ships() && {73, 74, 75} <= db.rows.Keys
    ensures ExecRange(rel, 8, 11, db).rows == db.rows[73 := rel.files[73]][74 := rel.files[74]][75 := rel.files[75]]
    ensures ExecRange(rel, 8, 11, db).objects == db.objects && ExecRange(rel, 8, 11, db).hasTable == db.hasTable
  {
    var d1 := Exec(rel, 8, db);
    var d2 := Exec(rel, 9, d1);
    var d3 := Exec(rel, 10, d2);
    assert ExecRange(rel, 10, 11, d2) == d3;
    assert ExecRange(rel, 9, 11, d1) == d3;
  }

  lemma BodyObjects(rel: Release, db: Db)
    requires rel.Ships()
    ensures ExecRange(rel, 0, 8, db) == db.(objects := db.objects - {OldQuarantineCheck} + SlotSchema(73) + SlotSchema(74) + SlotSchema(75) + {QuarantineReason})
  {
    var d1 := Exec(rel, 0, db);
    var d2 := Exec(rel, 1, d1);
    var d3 := Exec(rel, 2, d2);
    var d4 := Exec(rel, 3, d3);
    var d5 := Exec(rel, 4, d4);
    var d6 := Exec(rel, 5, d5);
    var d7 := Exec(rel, 6, d6);
    var d8 := Exec(rel, 7, d7);
    assert ExecRange(rel, 7, 8, d7) == d8;
    assert ExecRange(rel, 6, 8, d6) == d8;
    assert ExecRange(rel, 5, 8, d5) == d8;
    assert ExecRange(rel, 4, 8, d4) == d8;
    assert ExecRange(rel, 3, 8, d3) == d8;
    assert ExecRange(rel, 2, 8, d2) == d8;
    assert ExecRange(rel, 1, 8, d1) == d8;
    assert ExecRange(rel, 0, 8, db) == d8;
  }

  lemma {:induction false} ExecSplit(rel: Release, i: nat, m: nat, j: nat, db: Db)
    requires rel.Ships() && i <= m <= j
    ensures ExecRange(rel, i, j, db) == ExecRange(rel, m, j, ExecRange(rel, i, m, db))
    decreases m - i
  {
    if i < m { ExecSplit(rel, i + 1, m, j, Exec(rel, i, db)); }
  }

  lemma BodyIsTheRepair(rel: Release, db: Db)
    requires rel.Ships() && IsV119(rel, db)
    ensures ExecRange(rel, 0, BODY_LENGTH, db) == After119(rel, db)
  {
    hide Exec, ExecRange, SlotSchema;
    ExecSplit(rel, 0, 8, BODY_LENGTH, db);
    BodyObjects(rel, db);
    BodyRows(rel, ExecRange(rel, 0, 8, db));
  }

  /** An uncrashed boot reaches the renumbering with the first two repairs done, exactly as their methods do them. */
  lemma BootRunsTheRepairs(rel: Release, order: seq<int>, db: Db) returns (n: nat)
    requires rel.Ships() && Enumerates(order, rel.files)
    ensures Run(rel, order, Check073, db, n) == (Renumber, After119(rel, After073(rel, db)))
  {
    var db1 := After073(rel, db);
    var read := db.hasTable && 73 in db.rows;
    var m := if Stale073(rel, db) then 3 else if read then 2 else 1;
    assert Step(rel, order, Check119, db1) == (if IsV119(rel, db1) then Body(0) else Renumber, db1);
    var k := if IsV119(rel, db1) then BODY_LENGTH else 0;
    if IsV119(rel, db1) {
      RunBody(rel, order, 0, BODY_LENGTH, db1);
      BodyIsTheRepair(rel, db1);
    }
    hide ExecRange, Exec;
    n := m + 1 + k;
    assert Run(rel, order, Check119, db1, 1 + k) == (Renumber, After119(rel, db1));
    if Stale073(rel, db) {
      assert Run(rel, order, Write073, db, 2 + k) == Run(rel, order, Check119, db1, 1 + k);
      assert Run(rel, order, Column073(true), db, 3 + k) == Run(rel, order, Write073, db, 2 + k);
    } else if read {
      assert Run(rel, order, Column073(db.rows[73] != rel.files[73]), db, 2 + k) == Run(rel, order, Check119, db, 1 + k);
    }
  }

  /** A crash in the zone can happen: a boot that gets five statements far is past the lockout ALTER. */
  lemma ZoneCrashHappens(rel: Release, order: seq<int>, db: Db)
    requires rel.Ships() && rel.Distinct() && Enumerates(order, rel.files) && V119(rel, db)
    ensures CrashedInZone(rel, order, db, [5])
  {
    assert Step(rel, order, Check073, db) == (Column073(true), db);
    assert Step(rel, order, Column073(true), db) == (Check119, db) && Step(rel, order, Check119, db) == (Body(0), db);
    RunBody(rel, order, 0, 2, db);
    assert Run(rel, order, Check119, db, 3) == Run(rel, order, Body(0), db, 2);
    assert Run(rel, order, Column073(true), db, 4) == Run(rel, order, Check119, db, 3);
  }
}
