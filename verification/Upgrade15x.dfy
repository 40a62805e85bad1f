/**
 Upgrading a v1.5.x database with any number of replicas at once: each repairs the
 ledger as in Renumber15x and then goes on into the migrator, while others are
 still repairing.  The migrator holds a lock of its own, reads the ledger once, and
 records what it applies version by version; any replica may crash anywhere.
 */
module Upgrade15x {
  import opened Prelude
  import opened Ledger
  import R = Renumber15x

  datatype Walker =
    | Ready                            // repair done, about to take the migrator's lock
    | Walking(next: nat, seen: Rows)   // holds it, about to consider version order[next]
    | Stopped(version: int)            // checksum mismatch, or the version was recorded meanwhile
    | Done

  /** `applied` lists the versions recorded by walks, in order. */
  datatype State = State(repair: R.State, lock: Option<nat>, walkers: map<nat, Walker>, applied: seq<int>) {
    function Rows(): Rows { repair.db.rows }
    function At(r: nat, w: Walker): State { this.(walkers := walkers[r := w]) }
    function Unlock(): State { this.(lock := None) }
  }

  datatype Event = Repair(e: R.Event) | Migrate(r: nat) | Crash(r: nat)

  predicate Enabled(s: State, e: Event) {
    match e
    case Repair(e) => R.Enabled(s.repair, e) && (e.Boot? ==> e.r !in s.walkers)
    case Crash(r) => r in s.walkers
    case Migrate(r) => r in s.walkers && ((s.walkers[r].Ready? && s.lock.None?) || s.walkers[r].Walking?)
  }

  /** The repair returns normally from these: no table, nothing to do, or committed. */
  predicate Returns(ph: R.Phase) { ph.Starting? || ph.Seen? || ph.Committing? }

  /** One version of the walk. */
  function Consider(rel: Release, order: seq<int>, s: State, r: nat, k: nat, seen: Rows): State
    requires Within(order, rel.files)
  {
    if k >= |order| then s.At(r, Done).Unlock()
    else if order[k] in seen then
      if seen[order[k]] == rel.files[order[k]] then s.At(r, Walking(k + 1, seen)) else s.At(r, Stopped(order[k])).Unlock()
    else if order[k] in s.Rows() then s.At(r, Stopped(order[k])).Unlock()
    else
      s.(repair := s.repair.(db := s.repair.db.(rows := s.Rows()[order[k] := rel.files[order[k]]])), applied := s.applied + [order[k]])
       .At(r, Walking(k + 1, seen))
  }

  ghost function Next(rel: Release, order: seq<int>, s: State, e: Event): State
    requires rel.Ships() && Within(order, rel.files) && Enabled(s, e)
  {
    match e
    case Repair(e) =>
      var s' := s.(repair := R.Next(rel, s.repair, e));
      if e.Step? && Returns(s.repair.procs[e.r]) && e.r !in s'.repair.procs then s'.At(e.r, Ready) else s'
    case Crash(r) => s.(walkers := s.walkers - {r}, lock := if s.lock == Some(r) then None else s.lock)
    case Migrate(r) =>
      match s.walkers[r]
      case Ready => s.(lock := Some(r)).At(r, Walking(0, s.Rows()))
      case Walking(k, seen) => Consider(rel, order, s, r, k, seen)
      case _ => s
  }

  ghost predicate IsRun(rel: Release, order: seq<int>, s: State, es: seq<Event>)
    requires rel.Ships() && Within(order, rel.files)
    decreases |es|
  {
    es == [] || (Enabled(s, es[0]) && IsRun(rel, order, Next(rel, order, s, es[0]), es[1..]))
  }

  ghost function After(rel: Release, order: seq<int>, s: State, es: seq<Event>): State
    requires rel.Ships() && Within(order, rel.files) && IsRun(rel, order, s, es)
    decreases |es|
  {
    if es == [] then s else After(rel, order, Next(rel, order, s, es[0]), es[1..])
  }

  function Start(db: Db): State { State(R.State(db, None, map[], 0), None, map[], []) }

  // ----- invariants ---------------------------------------------------------------------------

  /** Every recorded row is the file of its version. */
  ghost predicate AllMatch(rel: Release, rows: Rows) {
    forall v :: v in rows ==> v in rel.files && rows[v] == rel.files[v]
  }

  /** Nobody has got past the repair: the ledger is the original one. */
  ghost predicate Before(rel: Release, db: Db, s: State)
    requires rel.Ships()
  {
    && s.repair.db == db && s.repair.moves == 0 && s.walkers == map[] && s.lock.None? && s.applied == []
    && (forall r :: r in s.repair.procs ==> R.Current(rel, s.repair, s.repair.procs[r]))
  }

  /** The ledger is the repaired one and what walks have recorded since. */
  ghost predicate Grown(base: Rows, rows: Rows, applied: seq<int>) {
    && (forall v :: v in rows <==> v in base || v in applied)
    && (forall v :: v in base ==> v !in applied)
    && (forall i, j :: 0 <= i < j < |applied| ==> applied[i] != applied[j])
  }

  ghost predicate PhaseIdle(rel: Release, ph: R.Phase) {
    !ph.Updating154? && !ph.Updating155? && !ph.Committing? && (ph.Seen? ==> AllMatch(rel, ph.snapshot))
  }

  ghost predicate WalkerOk(rel: Release, order: seq<int>, rows: Rows, w: Walker) {
    match w
    case Ready => true
    case Walking(k, seen) => k <= |order| && AllMatch(rel, seen) && forall v :: v in rows <==> v in seen || v in order[..k]
    case Done => forall v :: v in rel.files ==> v in rows
    case Stopped(_) => false
  }

  ghost predicate Past(rel: Release, order: seq<int>, db: Db, s: State)
    requires rel.Ships()
  {
    && s.repair.db.hasTable && AllMatch(rel, s.Rows()) && Grown(After15x(rel, db).rows, s.Rows(), s.applied)
    && (forall r :: r in s.repair.procs ==> PhaseIdle(rel, s.repair.procs[r]))
    && (forall r :: r in s.walkers ==> WalkerOk(rel, order, s.Rows(), s.walkers[r]))
    && (forall r :: r in s.repair.procs ==> r !in s.walkers)
    && (forall r :: r in s.walkers ==> (s.walkers[r].Walking? <==> s.lock == Some(r)))
    && (s.lock.Some? ==> s.lock.value in s.walkers)
  }

  ghost predicate Inv(rel: Release, order: seq<int>, db: Db, s: State)
    requires rel.Ships()
  {
    R.LockDiscipline(s.repair) && (Before(rel, db, s) || Past(rel, order, db, s))
  }

  lemma RepairLockStep(rel: Release, s: R.State, e: R.Event)
    requires rel.Ships() && R.LockDiscipline(s) && R.Enabled(s, e)
    ensures R.LockDiscipline(R.Next(rel, s, e))
  {
    hide Renumberable, IsV158, R.View;
  }

  /** While the ledger is the original one, a replica leaves the repair by a crash or by the commit that repairs it. */
  lemma BeforeStep(rel: Release, order: seq<int>, db: Db, both: bool, s: State, e: R.Event)
    requires rel.Ships() && rel.Distinct() && Enumerates(order, rel.files) && Pristine15x(rel, db, both)
    requires R.LockDiscipline(s.repair) && Before(rel, db, s) && Enabled(s, Repair(e))
    ensures var s' := Next(rel, order, s, Repair(e)); Before(rel, db, s') || Past(rel, order, db, s')
  {
    assert R.Inv(rel, db, s.repair);
    R.InvStep(rel, db, s.repair, e);
    assert Renumberable(rel, db);
    var s' := Next(rel, order, s, Repair(e));
    if s'.repair.moves == 0 {
      StillBefore(rel, order, db, s, e);
    } else {
      RepairedLedgerMatches(rel, db, both);
      FirstCommit(rel, order, db, s, e);
    }
  }

  lemma StillBefore(rel: Release, order: seq<int>, db: Db, s: State, e: R.Event)
    requires rel.Ships() && Within(order, rel.files) && Renumberable(rel, db)
    requires Before(rel, db, s) && Enabled(s, Repair(e)) && R.Inv(rel, db, R.Next(rel, s.repair, e)) && R.Next(rel, s.repair, e).moves == 0
    ensures Before(rel, db, Next(rel, order, s, Repair(e)))
  {
    hide R.View, After15x;
    if e.Step? { assert R.Current(rel, s.repair, s.repair.procs[e.r]); }
  }

  lemma FirstCommit(rel: Release, order: seq<int>, db: Db, s: State, e: R.Event)
    requires rel.Ships() && Within(order, rel.files) && AllMatch(rel, After15x(rel, db).rows) && db.hasTable
    requires R.LockDiscipline(s.repair) && Before(rel, db, s) && Enabled(s, Repair(e))
    requires R.Inv(rel, db, R.Next(rel, s.repair, e)) && R.Next(rel, s.repair, e).moves != 0
    ensures Past(rel, order, db, Next(rel, order, s, Repair(e)))
  {
    hide R.View, AllMatch, Renumberable;
    var s' := Next(rel, order, s, Repair(e));
    assert e.Step? && s.repair.procs[e.r].Committing?;
    assert s'.Rows() == After15x(rel, db).rows;
  }

  /** Once past, nothing is renumberable: the repairs still running find nothing to do. */
  lemma NotRenumberable(rel: Release, db: Db, rows: Rows)
    requires rel.Ships() && rel.Distinct() && AllMatch(rel, rows)
    ensures !Renumberable(rel, db.(rows := rows))
  {
  }

  lemma PastRepairStep(rel: Release, order: seq<int>, db: Db, s: State, e: R.Event)
    requires rel.Ships() && rel.Distinct() && Within(order, rel.files)
    requires R.LockDiscipline(s.repair) && Past(rel, order, db, s) && Enabled(s, Repair(e))
    ensures Past(rel, order, db, Next(rel, order, s, Repair(e)))
  {
    hide Renumberable, IsV158, R.View, AllMatch, Grown, After15x;
    if e.Step? {
      var ph := s.repair.procs[e.r];
      assert PhaseIdle(rel, ph);
      if ph.Seen? { NotRenumberable(rel, s.repair.db, ph.snapshot); }
    }
  }

  /** A walk that holds the lock finds exactly the rows it saw and those it recorded. */
  lemma WalkOn(rel: Release, order: seq<int>, rows: Rows, k: nat, seen: Rows)
    requires Enumerates(order, rel.files) && WalkerOk(rel, order, rows, Walking(k, seen)) && k < |order|
    ensures order[k] in seen ==> seen[order[k]] == rel.files[order[k]] && WalkerOk(rel, order, rows, Walking(k + 1, seen))
    ensures order[k] !in seen ==> order[k] !in rows
    ensures order[k] !in seen ==> WalkerOk(rel, order, rows[order[k] := rel.files[order[k]]], Walking(k + 1, seen))
  {
    var v0 := order[k];
    assert order[..k + 1] == order[..k] + [v0];
    assert forall v :: v in order[..k + 1] <==> v in order[..k] || v == v0;
  }

  lemma WalkEnds(rel: Release, order: seq<int>, rows: Rows, seen: Rows)
    requires Enumerates(order, rel.files) && WalkerOk(rel, order, rows, Walking(|order|, seen))
    ensures WalkerOk(rel, order, rows, Done)
  {
    assert order[..|order|] == order;
  }

  lemma GrowOne(base: Rows, rows: Rows, applied: seq<int>, v: int, c: Checksum)
    requires Grown(base, rows, applied) && v !in rows
    ensures Grown(base, rows[v := c], applied + [v])
  {
    var more := applied + [v];
    forall i, j | 0 <= i < j < |more| ensures more[i] != more[j] {
      if j == |applied| { assert applied[i] in applied; }
    }
  }

  lemma OthersStayOk(rel: Release, order: seq<int>, rows: Rows, w: Walker, v: int, c: Checksum)
    requires WalkerOk(rel, order, rows, w) && !w.Walking?
    ensures WalkerOk(rel, order, rows[v := c], w)
  {
  }

  /** The lock holder records a version: nobody else is walking. */
  lemma RecordStep(rel: Release, order: seq<int>, db: Db, s: State, r: nat, v: int, w: Walker)
    requires rel.Ships() && Past(rel, order, db, s) && r in s.walkers && s.walkers[r].Walking? && w.Walking?
    requires v in rel.files && v !in s.Rows() && WalkerOk(rel, order, s.Rows()[v := rel.files[v]], w)
    ensures Past(rel, order, db, s.(repair := s.repair.(db := s.repair.db.(rows := s.Rows()[v := rel.files[v]])), applied := s.applied + [v]).At(r, w))
  {
    GrowOne(After15x(rel, db).rows, s.Rows(), s.applied, v, rel.files[v]);
    var rows := s.Rows()[v := rel.files[v]];
    assert AllMatch(rel, rows);
    hide Grown, After15x, PhaseIdle, WalkerOk, AllMatch;
    forall q | q in s.walkers && q != r ensures WalkerOk(rel, order, rows, s.walkers[q]) {
      OthersStayOk(rel, order, s.Rows(), s.walkers[q], v, rel.files[v]);
    }
  }

  /** The lock holder goes on, or is done and unlocks. */
  lemma TurnStep(rel: Release, order: seq<int>, db: Db, s: State, r: nat, w: Walker)
    requires rel.Ships() && Past(rel, order, db, s) && r in s.walkers && s.walkers[r].Walking? && WalkerOk(rel, order, s.Rows(), w)
    ensures w.Walking? ==> Past(rel, order, db, s.At(r, w))
    ensures w.Done? ==> Past(rel, order, db, s.At(r, w).Unlock())
  {
    hide Grown, After15x, PhaseIdle, WalkerOk, AllMatch;
  }

  lemma WalkStep(rel: Release, order: seq<int>, db: Db, s: State, r: nat)
    requires rel.Ships() && Enumerates(order, rel.files) && Past(rel, order, db, s) && r in s.walkers && s.walkers[r].Walking?
    ensures Past(rel, order, db, Next(rel, order, s, Migrate(r)))
  {
    var w := s.walkers[r];
    assert WalkerOk(rel, order, s.Rows(), w);
    var k := w.next;
    assert k <= |order|;
    hide Past, WalkerOk;
    if k == |order| {
      WalkEnds(rel, order, s.Rows(), w.seen);
      TurnStep(rel, order, db, s, r, Done);
    } else {
      WalkOn(rel, order, s.Rows(), k, w.seen);
      if order[k] in w.seen {
        TurnStep(rel, order, db, s, r, Walking(k + 1, w.seen));
      } else {
        RecordStep(rel, order, db, s, r, order[k], Walking(k + 1, w.seen));
      }
    }
  }

  lemma ReadyStep(rel: Release, order: seq<int>, db: Db, s: State, e: Event)
    requires rel.Ships() && Enumerates(order, rel.files) && Past(rel, order, db, s) && Enabled(s, e)
    requires e.Crash? || (e.Migrate? && s.walkers[e.r].Ready?)
    ensures Past(rel, order, db, Next(rel, order, s, e))
  {
    hide Grown, After15x, PhaseIdle, AllMatch;
    assert order[..0] == [];
  }

  lemma InvStep(rel: Release, order: seq<int>, db: Db, both: bool, s: State, e: Event)
    requires rel.Ships() && rel.Distinct() && Enumerates(order, rel.files) && Pristine15x(rel, db, both)
    requires Inv(rel, order, db, s) && Enabled(s, e)
    ensures Inv(rel, order, db, Next(rel, order, s, e))
  {
    hide Pristine15x, Past;
    if e.Repair? {
      RepairLockStep(rel, s.repair, e.e);
      if Before(rel, db, s) { BeforeStep(rel, order, db, both, s, e.e); } else { PastRepairStep(rel, order, db, s, e.e); }
    } else {
      assert Past(rel, order, db, s);
      if e.Migrate? && s.walkers[e.r].Walking? {
        WalkStep(rel, order, db, s, e.r);
      } else {
        ReadyStep(rel, order, db, s, e);
      }
    }
  }

  lemma {:induction false} InvRun(rel: Release, order: seq<int>, db: Db, both: bool, s: State, es: seq<Event>)
    requires rel.Ships() && rel.Distinct() && Enumerates(order, rel.files) && Pristine15x(rel, db, both)
    requires Inv(rel, order, db, s) && IsRun(rel, order, s, es)
    ensures Inv(rel, order, db, After(rel, order, s, es))
    decreases |es|
  {
    hide Inv;
    if es != [] {
      InvStep(rel, order, db, both, s, es[0]);
      InvRun(rel, order, db, both, Next(rel, order, s, es[0]), es[1..]);
    }
  }

  lemma DoneMeansFiles(rel: Release, order: seq<int>, db: Db, s: State, r: nat)
    requires rel.Ships() && Inv(rel, order, db, s) && r in s.walkers && s.walkers[r].Done?
    ensures s.Rows() == rel.files
  {
    assert WalkerOk(rel, order, s.Rows(), s.walkers[r]);
    hide Grown, After15x, PhaseIdle;
    assert forall v :: v in s.Rows() <==> v in rel.files;
    assert forall v :: v in s.Rows() ==> s.Rows()[v] == rel.files[v];
  }

  /**
   Over every interleaving of repairs and walks from a pristine v1.5.7 or v1.5.8 database: no walk
   stops; the ledger is the original one until a replica has repaired it, and from then on every row is
   the file of its version; no version is applied twice, and 157 (and 163 for v1.5.8) never is; and once
   some walk is done the ledger is equal to the files.
   */
  lemma UpgradeCompletes(rel: Release, order: seq<int>, db: Db, both: bool, es: seq<Event>)
    requires rel.Ships() && rel.Distinct() && Enumerates(order, rel.files) && Pristine15x(rel, db, both)
    requires IsRun(rel, order, Start(db), es)
    ensures var s := After(rel, order, Start(db), es);
            && (forall r :: r in s.walkers ==> !s.walkers[r].Stopped?)
            && ((s.repair.db == db && s.applied == []) || (AllMatch(rel, s.Rows()) && Grown(After15x(rel, db).rows, s.Rows(), s.applied)))
            && 157 !in s.applied && (both ==> 163 !in s.applied)
            && ((exists r :: r in s.walkers && s.walkers[r].Done?) ==> s.Rows() == rel.files)
  {
    InvRun(rel, order, db, both, Start(db), es);
    RepairedLedgerMatches(rel, db, both);
    var s := After(rel, order, Start(db), es);
    hide After15x, Pristine15x, IsRun, After;
    if r :| r in s.walkers && s.walkers[r].Done? {
      DoneMeansFiles(rel, order, db, s, r);
    }
  }

  // ----- and some walk can be done ---------------------------------------------------------------

  /** Only replica 0 is up, repairing or migrating. */
  ghost predicate Alone(s: State) {
    (s.repair.procs.Keys == {0} && s.walkers == map[]) || (s.repair.procs == map[] && s.walkers.Keys == {0})
  }

  ghost function Left(order: seq<int>, s: State): nat
    requires Alone(s)
  {
    if 0 in s.repair.procs then |order| + 3 + R.Rank(s.repair.procs[0])
    else match s.walkers[0]
      case Ready => |order| + 2
      case Walking(k, _) => if k <= |order| then |order| - k + 1 else 0
      case _ => 0
  }

  /** It moves from the repair into the walk: its UPDATEs hit no occupied slot. */
  lemma AloneRepairStep(rel: Release, order: seq<int>, db: Db, s: State)
    requires rel.Ships() && Within(order, rel.files) && Inv(rel, order, db, s) && Alone(s) && 0 in s.repair.procs
    ensures Enabled(s, Repair(R.Step(0)))
    ensures var s' := Next(rel, order, s, Repair(R.Step(0))); Alone(s') && Left(order, s') < Left(order, s)
  {
    hide Renumberable, IsV158, R.View, After15x, AllMatch, Grown;
    if Before(rel, db, s) {
      assert R.Inv(rel, db, s.repair);
      R.NoConflict(rel, db, s.repair, 0);
    }
  }

  lemma OnCourse(rel: Release, order: seq<int>, rows: Rows, w: Walker)
    requires WalkerOk(rel, order, rows, w)
    ensures !w.Stopped? && (w.Walking? ==> w.next <= |order|)
  {
  }

  lemma AloneWalkStep(rel: Release, order: seq<int>, db: Db, s: State)
    requires rel.Ships() && Enumerates(order, rel.files) && Past(rel, order, db, s) && Alone(s) && 0 in s.walkers && !s.walkers[0].Done?
    ensures Enabled(s, Migrate(0))
    ensures var s' := Next(rel, order, s, Migrate(0)); Alone(s') && Left(order, s') < Left(order, s)
  {
    hide After15x, AllMatch, Grown, PhaseIdle, WalkerOk;
    var w := s.walkers[0];
    OnCourse(rel, order, s.Rows(), w);
    if w.Walking? && w.next < |order| { WalkOn(rel, order, s.Rows(), w.next, w.seen); }
  }

  /** A replica left alone completes the upgrade. */
  lemma {:induction false} SoloCompletes(rel: Release, order: seq<int>, db: Db, both: bool, s: State) returns (es: seq<Event>)
    requires rel.Ships() && rel.Distinct() && Enumerates(order, rel.files) && Pristine15x(rel, db, both)
    requires Inv(rel, order, db, s) && Alone(s)
    ensures IsRun(rel, order, s, es) && After(rel, order, s, es).Rows() == rel.files
    decreases Left(order, s)
  {
    var e := if 0 in s.repair.procs then Repair(R.Step(0)) else Migrate(0);
    if e.Migrate? && s.walkers[0].Done? {
      DoneMeansFiles(rel, order, db, s, 0);
      return [];
    }
    if e.Repair? { AloneRepairStep(rel, order, db, s); } else { AloneWalkStep(rel, order, db, s); }
    hide Pristine15x, Before, Past, Next, Alone, Left;
    InvStep(rel, order, db, both, s, e);
    var rest := SoloCompletes(rel, order, db, both, Next(rel, order, s, e));
    es := [e] + rest;
    assert es[1..] == rest;
  }
}
