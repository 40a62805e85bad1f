/**
 Startup repair of interrupted `CREATE INDEX CONCURRENTLY` migrations.

 Any number of replicas boot, each running the index repair and then the
 migrator.  Both take the migrator's advisory lock, but as two separate lock
 periods.  A replica may crash (or fail a statement, which ends its boot) at any
 point; the database session dies with it, so its lock is released.
 */
module ConcurrentIndexes {
  import opened Prelude

  type Name = string

  datatype IndexState = Absent | Invalid | Valid

  /** What one migration file does to the indexes. */
  datatype Action =
    | Other
    | Reset(indexes: set<Name>)   // transactional, one DROP INDEX IF EXISTS each
    | Build(index: Name)          // no-transaction CREATE INDEX CONCURRENTLY IF NOT EXISTS

  datatype File = File(version: int, action: Action) {
    predicate Resets(n: Name) { action.Reset? && n in action.indexes }
  }

  /** One pair of CONCURRENT_INDEX_MIGRATIONS. */
  datatype Entry = Entry(version: int, index: Name)

  datatype Plan = Plan(files: seq<File>, registered: seq<Entry>) {
    /**
     Files come in ascending order; each registered pair names the one file that
     builds that index, and the resets of that index precede the build.
     */
    ghost predicate WellFormed() {
      && (forall i, j :: 0 <= i < j < |files| ==> files[i].version < files[j].version)
      && (forall i, j :: 0 <= i < j < |registered| ==> registered[i].index != registered[j].index)
      && (forall i :: 0 <= i < |registered| ==> File(registered[i].version, Build(registered[i].index)) in files)
      && (forall i, f :: 0 <= i < |registered| && f in files && f.action == Build(registered[i].index)
                         ==> f.version == registered[i].version)
      && (forall i, f :: 0 <= i < |registered| && f in files && f.Resets(registered[i].index)
                         ==> f.version < registered[i].version)
    }
  }

  /** Migrations 265, 266 and 272 as shipped: one file resets the indexes that two later ones build. */
  lemma SharedResetIsWellFormed(holds: Name, cached: Name)
    requires holds != cached
    ensures Plan([File(265, Reset({holds, cached})), File(266, Build(holds)), File(272, Build(cached))],
                 [Entry(266, holds), Entry(272, cached)]).WellFormed()
  {
    var fs := [File(265, Reset({holds, cached})), File(266, Build(holds)), File(272, Build(cached))];
    assert fs[1] == File(266, Build(holds)) && fs[2] == File(272, Build(cached));
  }

  // ----- the repair's own code -------------------------------------------------

  /** The registered index names whose migration is not in `applied`, in table order. */
  function UnappliedIndexes(table: seq<Entry>, applied: set<int>): (names: seq<Name>)
    ensures forall n :: n in names <==> exists i :: 0 <= i < |table| && table[i].index == n && table[i].version !in applied
  {
    if table == [] then []
    else
      var rest := UnappliedIndexes(table[1..], applied);
      assert forall i :: 0 < i < |table| ==> table[i] == table[1..][i - 1];
      assert forall i :: 0 <= i < |table| - 1 ==> table[1..][i] == table[i + 1];
      if table[0].version in applied then rest else [table[0].index] + rest
  }

  function Lookup(indexes: map<Name, IndexState>, n: Name): IndexState {
    if n in indexes then indexes[n] else Absent
  }

  /** Every listed leftover gone, everything else as it was. */
  ghost predicate SweptOf(before: map<Name, IndexState>, names: seq<Name>, after: map<Name, IndexState>) {
    forall n :: Lookup(after, n) == if n in names && Lookup(before, n) == Invalid then Absent else Lookup(before, n)
  }

  class Catalog {
    var indexes: map<Name, IndexState>

    /** `drop_invalid_unapplied_indexes`: drop the INVALID leftovers of unrecorded builds. */
    method DropInvalidUnapplied(table: seq<Entry>, applied: set<int>) returns (dropped: seq<Name>)
      modifies this
      ensures SweptOf(old(indexes), UnappliedIndexes(table, applied), indexes)
      ensures forall n :: n in dropped <==> n in UnappliedIndexes(table, applied) && Lookup(old(indexes), n) == Invalid
      ensures forall n :: n in dropped ==> exists i :: 0 <= i < |table| && table[i].index == n && table[i].version !in applied
      ensures forall n :: n in UnappliedIndexes(table, applied) ==> Lookup(indexes, n) != Invalid
    {
      dropped := [];
      var names := UnappliedIndexes(table, applied);
      for k := 0 to |names|
        invariant SweptOf(old(indexes), names[..k], indexes)
        invariant forall n :: n in dropped <==> n in names[..k] && Lookup(old(indexes), n) == Invalid
      {
        var name := names[k];
        assert names[..k + 1] == names[..k] + [name];
        if Lookup(indexes, name) == Invalid {
          indexes := indexes[name := Absent];
          dropped := dropped + [name];
        }
      }
      assert names[..|names|] == names;
    }
  }

  // ----- replicas booting ------------------------------------------------------

  datatype Phase =
    | Starting                               // about to check for the ledger table
    | WaitingToRepair                        // about to take the lock for the repair
    | Listing                                // holds the lock, about to read the applied versions
    | Examining(todo: seq<Name>)             // holds the lock, about to look at todo[0]
    | Dropping(name: Name, todo: seq<Name>)  // holds the lock, DROP INDEX CONCURRENTLY running
    | Between                                // repair done (or skipped), migrator not started
    | Walking(next: nat)                     // holds the lock, about to consider files[next]
    | Building(next: nat)                    // holds the lock, the concurrent build is in flight
    | Built(next: nat)                       // holds the lock, SQL succeeded, about to record
  {
    predicate Holds() { !Starting? && !WaitingToRepair? && !Between? }
    /** The names this repair pass has yet to deal with. */
    function Pending(): seq<Name> {
      if Examining? then todo else if Dropping? then [name] + todo else []
    }
  }

  datatype State = State(
    hasLedger: bool,
    recorded: set<int>,
    indexes: map<Name, IndexState>,
    lock: Option<nat>,
    procs: map<nat, Phase>)
  {
    function Index(n: Name): IndexState { Lookup(indexes, n) }
    function At(r: nat, phase: Phase): State { this.(procs := procs[r := phase]) }
  }

  datatype Event = Boot(r: nat) | Step(r: nat) | Crash(r: nat)

  predicate Enabled(p: Plan, s: State, e: Event) {
    match e
    case Boot(r) => r !in s.procs
    case Crash(r) => r in s.procs
    case Step(r) =>
      && r in s.procs
      && (s.procs[r].WaitingToRepair? || s.procs[r].Between? ==> s.lock.None?)
      && (s.procs[r].Walking? || s.procs[r].Building? || s.procs[r].Built? ==> s.procs[r].next <= |p.files|)
      && (s.procs[r].Building? || s.procs[r].Built? ==> s.procs[r].next < |p.files| && p.files[s.procs[r].next].action.Build?)
  }

  /** The replica is gone; a lock its session held is released. */
  function Leave(s: State, r: nat): State {
    s.(procs := s.procs - {r}, lock := if s.lock == Some(r) then None else s.lock)
  }

  /** The migrator considers files[k]. */
  function Consider(p: Plan, s: State, r: nat, k: nat): State
    requires k < |p.files|
  {
    var f := p.files[k];
    if f.version in s.recorded then s.At(r, Walking(k + 1))
    else match f.action
      case Other => s.(recorded := s.recorded + {f.version}).At(r, Walking(k + 1))
      case Reset(ns) =>
        s.(recorded := s.recorded + {f.version}, indexes := s.indexes - ns).At(r, Walking(k + 1))
      case Build(n) =>
        if s.Index(n) == Absent then s.(indexes := s.indexes[n := Invalid]).At(r, Building(k))
        else s.At(r, Built(k))  // IF NOT EXISTS skips whatever is there
  }

  /** One statement of replica `r`. */
  function Advance(p: Plan, s: State, r: nat): State
    requires Enabled(p, s, Step(r))
  {
    match s.procs[r]
    case Starting => s.At(r, if s.hasLedger then WaitingToRepair else Between)
    case WaitingToRepair => s.(lock := Some(r)).At(r, Listing)
    case Listing => s.At(r, Examining(UnappliedIndexes(p.registered, s.recorded)))
    case Examining(todo) =>
      if todo == [] then s.(lock := None).At(r, Between)
      else if s.Index(todo[0]) == Invalid then s.At(r, Dropping(todo[0], todo[1..]))
      else s.At(r, Examining(todo[1..]))
    case Dropping(n, todo) => s.(indexes := s.indexes[n := Absent]).At(r, Examining(todo))
    case Between => s.(lock := Some(r), hasLedger := true).At(r, Walking(0))
    case Walking(k) => if k == |p.files| then Leave(s, r) else Consider(p, s, r, k)
    case Building(k) => s.(indexes := s.indexes[p.files[k].action.index := Valid]).At(r, Built(k))
    case Built(k) => s.(recorded := s.recorded + {p.files[k].version}).At(r, Walking(k + 1))
  }

  function Next(p: Plan, s: State, e: Event): State
    requires Enabled(p, s, e)
  {
    match e
    case Boot(r) => s.At(r, Starting)
    case Crash(r) => Leave(s, r)
    case Step(r) => Advance(p, s, r)
  }

  /** `es` is a run from `s`. */
  predicate IsRun(p: Plan, s: State, es: seq<Event>)
    decreases |es|
  {
    es == [] || (Enabled(p, s, es[0]) && IsRun(p, Next(p, s, es[0]), es[1..]))
  }

  function After(p: Plan, s: State, es: seq<Event>): State
    requires IsRun(p, s, es)
    decreases |es|
  {
    if es == [] then s else After(p, Next(p, s, es[0]), es[1..])
  }

  // ----- what is to be shown -----------------------------------------------------

  /** Every recorded registered migration has a Valid index. */
  ghost predicate RecordedValid(p: Plan, s: State) {
    forall i :: 0 <= i < |p.registered| && p.registered[i].version in s.recorded ==> s.Index(p.registered[i].index) == Valid
  }

  /** Some replica is building index `n` right now. */
  ghost predicate InFlight(p: Plan, s: State, n: Name) {
    exists q :: q in s.procs && s.procs[q].Building? && s.procs[q].next < |p.files| && p.files[s.procs[q].next].action == Build(n)
  }

  /** A reset of index `n` is still to come before its build. */
  ghost predicate PendingReset(p: Plan, s: State, n: Name) {
    exists f :: f in p.files && f.Resets(n) && f.version !in s.recorded
  }

  /** An INVALID leftover of the unrecorded entry `e` that no reset will clear. */
  ghost predicate Leftover(p: Plan, s: State, e: Entry) {
    e.version !in s.recorded && s.Index(e.index) == Invalid && !InFlight(p, s, e.index) && !PendingReset(p, s, e.index)
  }

  /** Replica `r` is past its repair and would walk into such a leftover. */
  ghost predicate ExposedTo(p: Plan, s: State, r: nat, i: nat) {
    r in s.procs && s.procs[r] == Between && i < |p.registered| && Leftover(p, s, p.registered[i])
  }

  ghost predicate Exposed(p: Plan, s: State) {
    exists r, i :: ExposedTo(p, s, r, i)
  }

  // ----- invariants of every run -------------------------------------------------

  ghost predicate LockDiscipline(s: State) {
    && (forall r :: r in s.procs ==> (s.procs[r].Holds() <==> s.lock == Some(r)))
    && (s.lock.Some? ==> s.lock.value in s.procs)
  }

  /** A repair pass holds only unrecorded names, and what it has passed is clean. */
  ghost predicate RepairProgress(p: Plan, s: State, ph: Phase) {
    && (ph.Examining? || ph.Dropping? ==>
      && (forall n :: n in ph.Pending() ==> exists i :: 0 <= i < |p.registered| && p.registered[i].index == n && p.registered[i].version !in s.recorded)
      && (forall i :: 0 <= i < |p.registered| && p.registered[i].version !in s.recorded && p.registered[i].index !in ph.Pending()
                      ==> s.Index(p.registered[i].index) != Invalid))
    && (ph.Dropping? ==> s.Index(ph.name) == Invalid)
  }

  /** A walk has recorded everything below its position. */
  ghost predicate WalkProgress(p: Plan, s: State, ph: Phase) {
    && (ph.Walking? || ph.Building? || ph.Built? ==>
      && ph.next <= |p.files|
      && (forall i :: 0 <= i < ph.next ==> p.files[i].version in s.recorded))
    && (ph.Building? || ph.Built? ==>
      && ph.next < |p.files|
      && p.files[ph.next].action.Build?
      && p.files[ph.next].version !in s.recorded
      && s.Index(p.files[ph.next].action.index) != Absent)
    && (ph.Building? ==> s.Index(p.files[ph.next].action.index) == Invalid)
  }

  ghost predicate ResetsFirst(p: Plan, s: State) {
    forall i, f :: 0 <= i < |p.registered| && p.registered[i].version in s.recorded && f in p.files && f.Resets(p.registered[i].index)
                   ==> f.version in s.recorded
  }

  ghost predicate LedgerFirst(p: Plan, s: State) {
    && (!s.hasLedger ==> s.recorded == {} && forall i :: 0 <= i < |p.registered| ==> s.Index(p.registered[i].index) != Invalid)
    && (forall r :: r in s.procs && s.procs[r].Holds() ==> s.hasLedger)
    && (forall r :: r in s.procs && s.procs[r] == WaitingToRepair ==> s.hasLedger)
  }

  ghost predicate Inv(p: Plan, s: State) {
    && p.WellFormed()
    && LockDiscipline(s)
    && (forall r :: r in s.procs ==> RepairProgress(p, s, s.procs[r]) && WalkProgress(p, s, s.procs[r]))
    && ResetsFirst(p, s)
    && LedgerFirst(p, s)
  }

  /** No replica is up; leftovers of earlier boots may lie about. */
  ghost predicate Quiet(p: Plan, s: State) {
    && p.WellFormed()
    && s.procs == map[]
    && s.lock == None
    && ResetsFirst(p, s)
    && LedgerFirst(p, s)
    && RecordedValid(p, s)
  }

  lemma LockStep(p: Plan, s: State, e: Event)
    requires Inv(p, s) && Enabled(p, s, e)
    ensures LockDiscipline(Next(p, s, e))
  {
    hide RepairProgress, WalkProgress, ResetsFirst, LedgerFirst, Plan.WellFormed, UnappliedIndexes;
  }

  /** Replicas other than the one that acts keep their progress: only a lock holder has any. */
  lemma OthersStep(p: Plan, s: State, e: Event, q: nat)
    requires Inv(p, s) && Enabled(p, s, e)
    requires q in s.procs && q != e.r
    ensures RepairProgress(p, Next(p, s, e), s.procs[q]) && WalkProgress(p, Next(p, s, e), s.procs[q])
  {
    if s.procs[q].Holds() {
      assert s.lock == Some(q);
      assert Next(p, s, e).recorded == s.recorded && Next(p, s, e).indexes == s.indexes;
    }
  }

  lemma RepairStep(p: Plan, s: State, r: nat)
    requires Inv(p, s) && Enabled(p, s, Step(r))
    requires s.procs[r].Listing? || s.procs[r].Examining? || s.procs[r].Dropping?
    ensures RepairProgress(p, Advance(p, s, r), Advance(p, s, r).procs[r])
  {
    hide WalkProgress, ResetsFirst, LedgerFirst, LockDiscipline, Plan.WellFormed;
    var ph := s.procs[r];
    var s' := Advance(p, s, r);
    var ph' := s'.procs[r];
    if ph.Listing? {
      assert ph'.Pending() == UnappliedIndexes(p.registered, s.recorded);
    } else if ph'.Examining? || ph'.Dropping? {
      assert forall n :: n in ph'.Pending() ==> n in ph.Pending();
      assert ph.Examining? ==> ph.Pending() == [ph.todo[0]] + ph.todo[1..];
      forall i | 0 <= i < |p.registered| && p.registered[i].version !in s.recorded && p.registered[i].index !in ph'.Pending()
        ensures s'.Index(p.registered[i].index) != Invalid
      {
        var n := p.registered[i].index;
        if n in ph.Pending() && ph.Examining? {
          assert n == ph.todo[0];
        }
      }
    }
  }

  lemma WalkStep(p: Plan, s: State, r: nat)
    requires Inv(p, s) && Enabled(p, s, Step(r))
    requires r in Advance(p, s, r).procs
    ensures WalkProgress(p, Advance(p, s, r), Advance(p, s, r).procs[r])
  {
  }

  lemma ResetsStep(p: Plan, s: State, e: Event)
    requires Inv(p, s) && Enabled(p, s, e)
    ensures ResetsFirst(p, Next(p, s, e))
  {
    var s' := Next(p, s, e);
    forall i, f | && 0 <= i < |p.registered| && p.registered[i].version in s'.recorded && f in p.files
                  && f.Resets(p.registered[i].index)
      ensures f.version in s'.recorded
    {
      if p.registered[i].version !in s.recorded {
        var k := s.procs[e.r].next;
        var j :| 0 <= j < |p.files| && p.files[j] == f;
        assert p.files[k].version == p.registered[i].version;
        assert f.version < p.files[k].version;
        assert j < k;
      }
    }
  }

  lemma LedgerStep(p: Plan, s: State, e: Event)
    requires Inv(p, s) && Enabled(p, s, e)
    ensures LedgerFirst(p, Next(p, s, e))
  {
  }

  lemma ActorStep(p: Plan, s: State, e: Event)
    requires Inv(p, s) && Enabled(p, s, e) && e.r in Next(p, s, e).procs
    ensures var s' := Next(p, s, e); RepairProgress(p, s', s'.procs[e.r]) && WalkProgress(p, s', s'.procs[e.r])
  {
    if e.Step? {
      WalkStep(p, s, e.r);
      hide WalkProgress, ResetsFirst, LedgerFirst, LockDiscipline, Plan.WellFormed;
      if s.procs[e.r].Listing? || s.procs[e.r].Examining? || s.procs[e.r].Dropping? { RepairStep(p, s, e.r); }
    }
  }

  lemma OnlyActorMoves(p: Plan, s: State, e: Event, q: nat)
    requires Enabled(p, s, e) && q != e.r
    ensures q in Next(p, s, e).procs <==> q in s.procs
    ensures q in s.procs ==> Next(p, s, e).procs[q] == s.procs[q]
  {
    hide UnappliedIndexes;
  }

  lemma InvStep(p: Plan, s: State, e: Event)
    requires Inv(p, s) && Enabled(p, s, e)
    ensures Inv(p, Next(p, s, e))
  {
    LockStep(p, s, e);
    ResetsStep(p, s, e);
    LedgerStep(p, s, e);
    hide Next, RepairProgress, WalkProgress, ResetsFirst, LedgerFirst, LockDiscipline, Plan.WellFormed;
    var s' := Next(p, s, e);
    forall q | q in s'.procs ensures RepairProgress(p, s', s'.procs[q]) && WalkProgress(p, s', s'.procs[q]) {
      if q == e.r {
        ActorStep(p, s, e);
      } else {
        OnlyActorMoves(p, s, e, q);
        OthersStep(p, s, e, q);
      }
    }
  }

  /** Every run keeps the invariants, whoever crashes where. */
  lemma {:induction false} InvRun(p: Plan, s: State, es: seq<Event>)
    requires Inv(p, s) && IsRun(p, s, es)
    ensures Inv(p, After(p, s, es))
    decreases |es|
  {
    if es != [] {
      InvStep(p, s, es[0]);
      InvRun(p, Next(p, s, es[0]), es[1..]);
    }
  }

  lemma QuietInv(p: Plan, s: State)
    requires Quiet(p, s)
    ensures Inv(p, s) && Safe(p, s) && !Exposed(p, s)
  {
  }

  /**
   For any number of interleaving replicas, an index about to be dropped is an
   INVALID leftover of an unrecorded registered build, and nobody is building it.
   */
  lemma DropsOnlyDeadLeftovers(p: Plan, s0: State, es: seq<Event>, r: nat)
    requires Quiet(p, s0) && IsRun(p, s0, es)
    requires r in After(p, s0, es).procs && After(p, s0, es).procs[r].Dropping?
    ensures var s := After(p, s0, es); var n := s.procs[r].name;
            && s.Index(n) == Invalid
            && !InFlight(p, s, n)
            && (forall i :: 0 <= i < |p.registered| && p.registered[i].index == n ==> p.registered[i].version !in s.recorded)
            && (exists i :: 0 <= i < |p.registered| && p.registered[i].index == n)
  {
    QuietInv(p, s0);
    InvRun(p, s0, es);
    var s := After(p, s0, es);
    var n := s.procs[r].name;
    assert RepairProgress(p, s, s.procs[r]);
    assert n in s.procs[r].Pending();
  }

  // ----- recorded implies Valid --------------------------------------------------

  /** What an unexposed run keeps besides Inv. */
  ghost predicate WalkSafe(p: Plan, s: State, ph: Phase) {
    && (ph.Walking? || ph.Building? || ph.Built? ==>
      forall i :: 0 <= i < |p.registered| && p.registered[i].version !in s.recorded && s.Index(p.registered[i].index) == Invalid
                  ==> InFlight(p, s, p.registered[i].index) || PendingReset(p, s, p.registered[i].index))
    && (ph.Built? && ph.next < |p.files| && p.files[ph.next].action.Build? ==>
      forall i :: 0 <= i < |p.registered| && p.registered[i].index == p.files[ph.next].action.index
                  ==> s.Index(p.registered[i].index) == Valid)
  }

  ghost predicate Safe(p: Plan, s: State) {
    && RecordedValid(p, s)
    && forall r :: r in s.procs ==> WalkSafe(p, s, s.procs[r])
  }

  lemma NobodyBuilds(p: Plan, s: State, r: nat, n: Name)
    requires Inv(p, s) && r in s.procs && (s.procs[r].Holds() || s.lock.None?) && !s.procs[r].Building?
    ensures !InFlight(p, s, n)
  {
  }

  /** When a walk stands at the build of a registered index, no reset of it is outstanding. */
  lemma ResetsBehind(p: Plan, s: State, ph: Phase, i: nat)
    requires p.WellFormed() && WalkProgress(p, s, ph) && (ph.Walking? || ph.Building? || ph.Built?)
    requires ph.next < |p.files| && i < |p.registered| && p.files[ph.next].action == Build(p.registered[i].index)
    ensures !PendingReset(p, s, p.registered[i].index)
    ensures p.files[ph.next].version == p.registered[i].version
  {
    var n := p.registered[i].index;
    assert p.files[ph.next] in p.files;
    forall f | f in p.files && f.Resets(n) ensures f.version in s.recorded {
      var j :| 0 <= j < |p.files| && p.files[j] == f;
    }
  }

  /** A walk that reaches the build of a registered index finds it Absent or Valid. */
  lemma NoLeftoverAtBuild(p: Plan, s: State, r: nat, i: nat)
    requires Inv(p, s) && Safe(p, s) && r in s.procs && s.procs[r].Walking? && s.procs[r].next < |p.files|
    requires i < |p.registered| && p.files[s.procs[r].next].action == Build(p.registered[i].index)
    requires p.files[s.procs[r].next].version !in s.recorded
    ensures s.Index(p.registered[i].index) != Invalid
  {
    ResetsBehind(p, s, s.procs[r], i);
    NobodyBuilds(p, s, r, p.registered[i].index);
    assert WalkSafe(p, s, s.procs[r]);
  }

  lemma RecordedStep(p: Plan, s: State, e: Event)
    requires Inv(p, s) && Safe(p, s) && Enabled(p, s, e)
    ensures RecordedValid(p, Next(p, s, e))
  {
    var s' := Next(p, s, e);
    forall i | 0 <= i < |p.registered| && p.registered[i].version in s'.recorded
      ensures s'.Index(p.registered[i].index) == Valid
    {
      var n := p.registered[i].index;
      if p.registered[i].version in s.recorded {
        assert s.Index(n) == Valid;
      } else {
        var f := p.files[s.procs[e.r].next];
        assert File(p.registered[i].version, Build(n)) in p.files && f.version == p.registered[i].version;
        assert f in p.files;
      }
    }
  }

  /** The replica that takes the migrator lock, unexposed, starts a safe walk. */
  lemma LockTaken(p: Plan, s: State, r: nat)
    requires Inv(p, s) && Safe(p, s) && !Exposed(p, s) && Enabled(p, s, Step(r)) && s.procs[r].Between?
    ensures WalkSafe(p, Advance(p, s, r), Walking(0))
  {
    var s' := Advance(p, s, r);
    forall i | 0 <= i < |p.registered| && p.registered[i].version !in s'.recorded && s'.Index(p.registered[i].index) == Invalid
      ensures PendingReset(p, s', p.registered[i].index)
    {
      NobodyBuilds(p, s, r, p.registered[i].index);
      assert !ExposedTo(p, s, r, i);
      assert PendingReset(p, s, p.registered[i].index);
    }
  }

  /** The builder itself, or the walker, keeps its walk safe. */
  lemma WalkerStep(p: Plan, s: State, r: nat)
    requires Inv(p, s) && Safe(p, s) && Enabled(p, s, Step(r)) && r in Advance(p, s, r).procs
    requires s.procs[r].Walking? || s.procs[r].Building? || s.procs[r].Built?
    ensures WalkSafe(p, Advance(p, s, r), Advance(p, s, r).procs[r])
  {
    var s' := Advance(p, s, r);
    forall i | 0 <= i < |p.registered| && p.registered[i].version !in s'.recorded && s'.Index(p.registered[i].index) == Invalid
      ensures InFlight(p, s', p.registered[i].index) || PendingReset(p, s', p.registered[i].index)
    {
      StillAccounted(p, s, r, i);
    }
    if s'.procs[r].Built? {
      forall i | 0 <= i < |p.registered| && p.registered[i].index == p.files[s'.procs[r].next].action.index
        ensures s'.Index(p.registered[i].index) == Valid
      {
        if s.procs[r].Walking? { NoLeftoverAtBuild(p, s, r, i); }
      }
    }
  }

  lemma StillAccounted(p: Plan, s: State, r: nat, i: nat)
    requires Inv(p, s) && Safe(p, s) && Enabled(p, s, Step(r)) && r in Advance(p, s, r).procs
    requires s.procs[r].Walking? || s.procs[r].Building? || s.procs[r].Built?
    requires i < |p.registered| && p.registered[i].version !in Advance(p, s, r).recorded
    requires Advance(p, s, r).Index(p.registered[i].index) == Invalid
    ensures InFlight(p, Advance(p, s, r), p.registered[i].index) || PendingReset(p, Advance(p, s, r), p.registered[i].index)
  {
    var s' := Advance(p, s, r);
    var n := p.registered[i].index;
    var f := p.files[s.procs[r].next];
    if s'.procs[r].Building? && f.action == Build(n) {
      assert InFlight(p, s', n);
    } else {
      assert s.Index(n) == Invalid && f.action != Build(n) by {
        if s.procs[r].Walking? && f.action == Build(n) && f.version !in s.recorded { NoLeftoverAtBuild(p, s, r, i); }
        assert f in p.files;
      }
      assert !InFlight(p, s, n);
      assert WalkSafe(p, s, s.procs[r]);
      var g :| g in p.files && g.Resets(n) && g.version !in s.recorded;
      assert g.version !in s'.recorded;
    }
  }

  /** The replica that acts keeps its walk safe, if it has one. */
  lemma ActorSafe(p: Plan, s: State, e: Event)
    requires Inv(p, s) && Safe(p, s) && !Exposed(p, s) && Enabled(p, s, e) && e.r in Next(p, s, e).procs
    ensures WalkSafe(p, Next(p, s, e), Next(p, s, e).procs[e.r])
  {
    if e.Step? {
      var ph := s.procs[e.r];
      if ph.Between? {
        LockTaken(p, s, e.r);
      } else if ph.Walking? || ph.Building? || ph.Built? {
        WalkerStep(p, s, e.r);
      } else {
        NoWalkYet(p, s, e.r);
      }
    }
  }

  lemma NoWalkYet(p: Plan, s: State, r: nat)
    requires Enabled(p, s, Step(r)) && (s.procs[r].Holds() ==> s.procs[r].Listing? || s.procs[r].Examining? || s.procs[r].Dropping?) && !s.procs[r].Between?
    ensures var ph := Advance(p, s, r).procs[r]; !ph.Walking? && !ph.Building? && !ph.Built?
  {
    hide UnappliedIndexes;
  }

  lemma NotWalking(p: Plan, s: State, ph: Phase)
    requires !ph.Walking? && !ph.Building? && !ph.Built?
    ensures WalkSafe(p, s, ph)
  {
  }

  lemma SafeStep(p: Plan, s: State, e: Event)
    requires Inv(p, s) && Safe(p, s) && !Exposed(p, s) && Enabled(p, s, e)
    ensures Safe(p, Next(p, s, e))
  {
    RecordedStep(p, s, e);
    hide Next, WalkSafe, Inv, RecordedValid, Exposed;
    var s' := Next(p, s, e);
    forall q | q in s'.procs ensures WalkSafe(p, s', s'.procs[q]) {
      if q == e.r {
        ActorSafe(p, s, e);
      } else {
        OnlyActorMoves(p, s, e, q);
        if s.procs[q].Holds() { BystanderKeepsWalk(p, s, e, q); } else { NotWalking(p, s', s.procs[q]); }
      }
    }
  }

  lemma BystanderKeepsWalk(p: Plan, s: State, e: Event, q: nat)
    requires Inv(p, s) && Safe(p, s) && Enabled(p, s, e)
    requires q in s.procs && q != e.r && s.procs[q].Holds()
    ensures WalkSafe(p, Next(p, s, e), s.procs[q])
  {
    var s' := Next(p, s, e);
    assert s.lock == Some(q);
    assert s'.recorded == s.recorded && s'.indexes == s.indexes;
    assert WalkSafe(p, s, s.procs[q]);
    forall n | InFlight(p, s, n) ensures InFlight(p, s', n) {
      var b :| b in s.procs && s.procs[b].Building? && s.procs[b].next < |p.files| && p.files[s.procs[b].next].action == Build(n);
      assert b == q && s'.procs[b] == s.procs[b];
    }
    forall n | PendingReset(p, s, n) ensures PendingReset(p, s', n) {}
  }

  /** No state of the run is exposed. */
  ghost predicate NeverExposed(p: Plan, s: State, es: seq<Event>)
    requires IsRun(p, s, es)
    decreases |es|
  {
    !Exposed(p, s) && (es != [] ==> NeverExposed(p, Next(p, s, es[0]), es[1..]))
  }

  lemma {:induction false} UnexposedRun(p: Plan, s: State, es: seq<Event>)
    requires Inv(p, s) && Safe(p, s) && IsRun(p, s, es) && NeverExposed(p, s, es)
    ensures Safe(p, After(p, s, es))
    decreases |es|
  {
    if es != [] {
      InvStep(p, s, es[0]);
      SafeStep(p, s, es[0]);
      UnexposedRun(p, Next(p, s, es[0]), es[1..]);
    }
  }

  // ----- where exposure comes from -------------------------------------------------

  /** `e` interrupts the build of a registered index while another replica is between its two lock periods. */
  ghost predicate Interrupts(p: Plan, s: State, e: Event) {
    && e.Crash? && e.r in s.procs && s.procs[e.r].Building?
    && s.procs[e.r].next < |p.files|
    && (exists i :: 0 <= i < |p.registered| && p.files[s.procs[e.r].next].action == Build(p.registered[i].index))
    && (exists r :: r in s.procs && r != e.r && s.procs[r] == Between)
  }

  /** A step exposes somebody exactly when it is such an interruption. */
  lemma ExposureIffInterruption(p: Plan, s: State, e: Event)
    requires Inv(p, s) && !Exposed(p, s) && Enabled(p, s, e)
    ensures Exposed(p, Next(p, s, e)) <==> Interrupts(p, s, e)
  {
    var s' := Next(p, s, e);
    if Interrupts(p, s, e) {
      InterruptionExposes(p, s, e);
    }
    if Exposed(p, s') {
      var r, i :| ExposedTo(p, s', r, i);
      ExposureMeansInterruption(p, s, e, r, i);
    }
  }

  lemma InterruptionExposes(p: Plan, s: State, e: Event)
    requires Inv(p, s) && Interrupts(p, s, e)
    ensures Exposed(p, Next(p, s, e))
  {
    var s' := Next(p, s, e);
    var ph := s.procs[e.r];
    var i :| 0 <= i < |p.registered| && p.files[ph.next].action == Build(p.registered[i].index);
    var r :| r in s.procs && r != e.r && s.procs[r] == Between;
    ResetsBehind(p, s, ph, i);
    assert WalkProgress(p, s, ph);
    hide RepairProgress, ResetsFirst, LedgerFirst, Plan.WellFormed, Consider, UnappliedIndexes;
    assert ExposedTo(p, s', r, i);
  }

  lemma ExposureMeansInterruption(p: Plan, s: State, e: Event, r: nat, i: nat)
    requires Inv(p, s) && !Exposed(p, s) && Enabled(p, s, e)
    requires ExposedTo(p, Next(p, s, e), r, i)
    ensures Interrupts(p, s, e)
  {
    var s' := Next(p, s, e);
    var n := p.registered[i].index;
    if r == e.r {
      EntersBetweenClean(p, s, r, i);
    } else {
      assert !ExposedTo(p, s, r, i);
      BystanderExposed(p, s, e, r, i);
    }
  }

  /** A replica enters the gap with no registered leftover about. */
  lemma EntersBetweenClean(p: Plan, s: State, r: nat, i: nat)
    requires Inv(p, s) && Enabled(p, s, Step(r)) && i < |p.registered|
    requires r in Advance(p, s, r).procs && Advance(p, s, r).procs[r] == Between
    ensures !Leftover(p, Advance(p, s, r), p.registered[i])
  {
    assert RepairProgress(p, s, s.procs[r]);
  }

  /** Only a build in flight turns an index INVALID. */
  lemma TurnsInvalid(p: Plan, s: State, e: Event, n: Name)
    requires Inv(p, s) && Enabled(p, s, e)
    requires s.Index(n) != Invalid && Next(p, s, e).Index(n) == Invalid
    ensures InFlight(p, Next(p, s, e), n)
  {
    var s' := Next(p, s, e);
    assert s'.procs[e.r].Building? && p.files[s'.procs[e.r].next].action == Build(n);
  }

  /** Recording a reset leaves its indexes Absent. */
  lemma ResetClears(p: Plan, s: State, e: Event, f: File, n: Name)
    requires Inv(p, s) && Enabled(p, s, e)
    requires f in p.files && f.Resets(n) && f.version !in s.recorded && f.version in Next(p, s, e).recorded
    ensures Next(p, s, e).Index(n) == Absent
  {
    var j :| 0 <= j < |p.files| && p.files[j] == f;
    assert p.files[s.procs[e.r].next].version == f.version;
    assert s.procs[e.r].next == j;
  }

  lemma BystanderExposed(p: Plan, s: State, e: Event, r: nat, i: nat)
    requires Inv(p, s) && Enabled(p, s, e) && r != e.r
    requires !ExposedTo(p, s, r, i) && ExposedTo(p, Next(p, s, e), r, i)
    ensures Interrupts(p, s, e)
  {
    var s' := Next(p, s, e);
    var n := p.registered[i].index;
    assert r in s.procs && s.procs[r] == Between;
    if s.Index(n) != Invalid { TurnsInvalid(p, s, e, n); }
    forall f | f in p.files && f.Resets(n) ensures f.version in s.recorded {
      assert f.version in s'.recorded;
      if f.version !in s.recorded { ResetClears(p, s, e, f, n); }
    }
    assert InFlight(p, s, n);
    BuilderGone(p, s, e, n);
  }

  /** A build stops being in flight, unfinished, only when its replica crashes. */
  lemma BuilderGone(p: Plan, s: State, e: Event, n: Name)
    requires Inv(p, s) && Enabled(p, s, e)
    requires InFlight(p, s, n) && !InFlight(p, Next(p, s, e), n) && Next(p, s, e).Index(n) == Invalid
    ensures e.Crash? && s.procs[e.r].Building? && s.procs[e.r].next < |p.files| && p.files[s.procs[e.r].next].action == Build(n)
  {
    var s' := Next(p, s, e);
    assert forall q :: q in s.procs && q != e.r ==> q in s'.procs && s'.procs[q] == s.procs[q];
  }

  /** No build of a registered index is interrupted while another replica is in its gap. */
  ghost predicate Uninterrupted(p: Plan, s: State, es: seq<Event>)
    requires IsRun(p, s, es)
    decreases |es|
  {
    es != [] ==> !Interrupts(p, s, es[0]) && Uninterrupted(p, Next(p, s, es[0]), es[1..])
  }

  lemma {:induction false} UninterruptedIffNeverExposed(p: Plan, s: State, es: seq<Event>)
    requires Inv(p, s) && !Exposed(p, s) && IsRun(p, s, es)
    ensures NeverExposed(p, s, es) <==> Uninterrupted(p, s, es)
    decreases |es|
  {
    if es != [] {
      ExposureIffInterruption(p, s, es[0]);
      var s' := Next(p, s, es[0]);
      if !Exposed(p, s') {
        InvStep(p, s, es[0]);
        UninterruptedIffNeverExposed(p, s', es[1..]);
      }
    }
  }

  /** Any number of replicas: recorded implies Valid in every uninterrupted run. */
  lemma RecordedImpliesValid(p: Plan, s: State, es: seq<Event>)
    requires Quiet(p, s) && IsRun(p, s, es) && Uninterrupted(p, s, es)
    ensures RecordedValid(p, After(p, s, es))
  {
    QuietInv(p, s);
    UninterruptedIffNeverExposed(p, s, es);
    UnexposedRun(p, s, es);
  }

  /** At most one replica is up at any time. */
  ghost predicate OneAtATime(p: Plan, s: State, es: seq<Event>)
    requires IsRun(p, s, es)
    decreases |es|
  {
    && (forall q, r :: q in s.procs && r in s.procs ==> q == r)
    && (es != [] ==> OneAtATime(p, Next(p, s, es[0]), es[1..]))
  }

  lemma {:induction false} OneAtATimeUninterrupted(p: Plan, s: State, es: seq<Event>)
    requires IsRun(p, s, es) && OneAtATime(p, s, es)
    ensures Uninterrupted(p, s, es)
    decreases |es|
  {
    if es != [] { OneAtATimeUninterrupted(p, Next(p, s, es[0]), es[1..]); }
  }

  /** Boots one at a time, each crashing anywhere: recorded implies Valid, always. */
  lemma SequentialBootsRecordOnlyValid(p: Plan, s: State, es: seq<Event>)
    requires Quiet(p, s) && IsRun(p, s, es) && OneAtATime(p, s, es)
    ensures RecordedValid(p, After(p, s, es))
  {
    OneAtATimeUninterrupted(p, s, es);
    RecordedImpliesValid(p, s, es);
  }

  // ----- and exposure is fatal -----------------------------------------------------

  /** The walk of `r` is on its way to the INVALID leftover that files[t] would build. */
  ghost predicate Facing(p: Plan, s: State, r: nat, i: nat, t: nat) {
    && r in s.procs && (s.procs[r].Walking? || s.procs[r].Building? || s.procs[r].Built?)
    && s.procs[r].next <= t < |p.files|
    && !(s.procs[r].Building? && s.procs[r].next == t)
    && i < |p.registered| && p.files[t] == File(p.registered[i].version, Build(p.registered[i].index))
    && p.registered[i].version !in s.recorded && s.Index(p.registered[i].index) == Invalid
    && !PendingReset(p, s, p.registered[i].index)
  }

  ghost function Distance(ph: Phase, t: nat): int
    requires ph.Walking? || ph.Building? || ph.Built?
  {
    3 * (t - ph.next) + if ph.Walking? then 2 else if ph.Building? then 1 else 0
  }

  ghost predicate RecordedInvalid(p: Plan, s: State, i: nat) {
    i < |p.registered| && p.registered[i].version in s.recorded && s.Index(p.registered[i].index) == Invalid
  }

  lemma FacingStep(p: Plan, s: State, r: nat, i: nat, t: nat)
    requires Inv(p, s) && Facing(p, s, r, i, t)
    ensures Enabled(p, s, Step(r))
    ensures var s' := Next(p, s, Step(r));
            RecordedInvalid(p, s', i) || (Facing(p, s', r, i, t) && Distance(s'.procs[r], t) < Distance(s.procs[r], t))
  {
    var s' := Next(p, s, Step(r));
    var f := p.files[s.procs[r].next];
    var n := p.registered[i].index;
    assert f in p.files && WalkProgress(p, s, s.procs[r]);
    if s.procs[r].next < t {
      assert f.version < p.registered[i].version;
      assert f.action != Build(n);
      assert f.version in s.recorded || !f.Resets(n);
    }
    assert !PendingReset(p, s', n);
  }

  /** A walk facing an INVALID leftover records it if nothing else happens. */
  lemma {:induction false} WalkRecordsLeftover(p: Plan, s: State, r: nat, i: nat, t: nat) returns (es: seq<Event>)
    requires Inv(p, s) && Facing(p, s, r, i, t)
    ensures IsRun(p, s, es) && RecordedInvalid(p, After(p, s, es), i)
    decreases Distance(s.procs[r], t)
  {
    FacingStep(p, s, r, i, t);
    InvStep(p, s, Step(r));
    var s' := Next(p, s, Step(r));
    var rest := [];
    if !RecordedInvalid(p, s', i) { rest := WalkRecordsLeftover(p, s', r, i, t); }
    Prepend(p, s, Step(r), rest);
    es := [Step(r)] + rest;
  }

  lemma Prepend(p: Plan, s: State, e: Event, es: seq<Event>)
    requires Enabled(p, s, e) && IsRun(p, Next(p, s, e), es)
    ensures IsRun(p, s, [e] + es) && After(p, s, [e] + es) == After(p, Next(p, s, e), es)
  {
    assert ([e] + es)[1..] == es;
  }

  /** From every exposed state some continuation records an INVALID index. */
  lemma ExposureIsFatal(p: Plan, s: State, r: nat, i: nat) returns (es: seq<Event>)
    requires Inv(p, s) && ExposedTo(p, s, r, i)
    ensures IsRun(p, s, es) && !RecordedValid(p, After(p, s, es))
  {
    if s.lock.Some? {
      var s1 := Next(p, s, Crash(s.lock.value));
      InvStep(p, s, Crash(s.lock.value));
      var rest := UnlockedExposureIsFatal(p, s1, r, i);
      Prepend(p, s, Crash(s.lock.value), rest);
      es := [Crash(s.lock.value)] + rest;
    } else {
      es := UnlockedExposureIsFatal(p, s, r, i);
    }
  }

  lemma UnlockedExposureIsFatal(p: Plan, s: State, r: nat, i: nat) returns (es: seq<Event>)
    requires Inv(p, s) && s.lock.None? && ExposedTo(p, s, r, i)
    ensures IsRun(p, s, es) && !RecordedValid(p, After(p, s, es))
  {
    var s1 := Next(p, s, Step(r));
    InvStep(p, s, Step(r));
    var t :| 0 <= t < |p.files| && p.files[t] == File(p.registered[i].version, Build(p.registered[i].index));
    var rest := WalkRecordsLeftover(p, s1, r, i, t);
    Prepend(p, s, Step(r), rest);
    es := [Step(r)] + rest;
  }

  const SOLE_BUILD: Plan := Plan([File(266, Build("i"))], [Entry(266, "i")])
  const FRESH: State := State(false, {}, map[], None, map[])
  /** Both replicas looked for a ledger and found none. */
  const BOTH_SKIPPED: State := State(false, {}, map[], None, map[0 := Between, 1 := Between])

  lemma BothSkipTheRepair()
    ensures var es := [Boot(0), Boot(1), Step(0), Step(1)];
            IsRun(SOLE_BUILD, FRESH, es) && After(SOLE_BUILD, FRESH, es) == BOTH_SKIPPED
  {
    var s1 := FRESH.At(0, Starting);
    var s2 := s1.At(1, Starting);
    var s3 := s2.At(0, Between);
    Prepend(SOLE_BUILD, s3, Step(1), []);
    Prepend(SOLE_BUILD, s2, Step(0), [Step(1)]);
    Prepend(SOLE_BUILD, s1, Boot(1), [Step(0), Step(1)]);
    Prepend(SOLE_BUILD, FRESH, Boot(0), [Boot(1), Step(0), Step(1)]);
  }

  /** The first is building, the second still in its gap. */
  const FIRST_BUILDS: State := State(true, {}, map["i" := Invalid], Some(0), map[0 := Building(0), 1 := Between])

  lemma FirstStartsBuilding()
    ensures IsRun(SOLE_BUILD, BOTH_SKIPPED, [Step(0), Step(0)])
    ensures After(SOLE_BUILD, BOTH_SKIPPED, [Step(0), Step(0)]) == FIRST_BUILDS
  {
    var walking := State(true, {}, map[], Some(0), map[0 := Walking(0), 1 := Between]);
    assert SOLE_BUILD.files[0] == File(266, Build("i"));
    Prepend(SOLE_BUILD, walking, Step(0), []);
    Prepend(SOLE_BUILD, BOTH_SKIPPED, Step(0), [Step(0)]);
  }

  lemma FreshIsQuiet()
    ensures Quiet(SOLE_BUILD, FRESH)
  {
    assert SOLE_BUILD.files[0] == File(266, Build("i")) && SOLE_BUILD.registered[0] == Entry(266, "i");
  }

  /**
   Two replicas on a fresh install: neither finds a ledger, so both skip the
   repair; the first dies while building, and the second can record the leftover.
   */
  lemma FreshInstallCanRecordInvalid() returns (es: seq<Event>)
    ensures Quiet(SOLE_BUILD, FRESH)
    ensures IsRun(SOLE_BUILD, FRESH, es) && !RecordedValid(SOLE_BUILD, After(SOLE_BUILD, FRESH, es))
  {
    FreshIsQuiet();
    BothSkipTheRepair();
    FirstStartsBuilding();
    var first := [Boot(0), Boot(1), Step(0), Step(1)] + [Step(0), Step(0)];
    RunThen(SOLE_BUILD, FRESH, [Boot(0), Boot(1), Step(0), Step(1)], [Step(0), Step(0)]);
    QuietInv(SOLE_BUILD, FRESH);
    InvRun(SOLE_BUILD, FRESH, first);
    var rest := InterruptionIsFatal(SOLE_BUILD, FIRST_BUILDS, 0, 0, 1);
    RunThen(SOLE_BUILD, FRESH, first, rest);
    es := first + rest;
  }

  /** Interrupting a registered build while another replica is in its gap can record an INVALID index. */
  lemma InterruptionIsFatal(p: Plan, s: State, q: nat, i: nat, r: nat) returns (es: seq<Event>)
    requires Inv(p, s) && q in s.procs && s.procs[q].Building? && s.procs[q].next < |p.files|
    requires i < |p.registered| && p.files[s.procs[q].next].action == Build(p.registered[i].index)
    requires r in s.procs && r != q && s.procs[r] == Between
    ensures IsRun(p, s, es) && !RecordedValid(p, After(p, s, es))
  {
    InterruptionExposes(p, s, Crash(q));
    InvStep(p, s, Crash(q));
    var s' := Next(p, s, Crash(q));
    var r', i' :| ExposedTo(p, s', r', i');
    var tail := ExposureIsFatal(p, s', r', i');
    Prepend(p, s, Crash(q), tail);
    es := [Crash(q)] + tail;
  }

  lemma {:induction false} RunThen(p: Plan, s: State, es: seq<Event>, more: seq<Event>)
    requires IsRun(p, s, es) && IsRun(p, After(p, s, es), more)
    ensures IsRun(p, s, es + more) && After(p, s, es + more) == After(p, After(p, s, es), more)
    decreases |es|
  {
    if es == [] {
      assert es + more == more;
    } else {
      RunThen(p, Next(p, s, es[0]), es[1..], more);
      assert (es + more)[1..] == es[1..] + more;
    }
  }

  // ----- the replica's repair pass does what the repair's code does ------------------

  /** A repair pass left alone ends by unlocking with exactly the listed leftovers dropped. */
  lemma {:induction false} SweepRun(p: Plan, s: State, r: nat) returns (es: seq<Event>)
    requires r in s.procs && s.procs[r].Examining?
    ensures IsRun(p, s, es)
    ensures var s' := After(p, s, es);
            && SweptOf(s.indexes, s.procs[r].todo, s'.indexes)
            && s' == s.(indexes := s'.indexes, lock := None, procs := s.procs[r := Between])
    decreases |s.procs[r].todo|
  {
    var todo := s.procs[r].todo;
    var s1 := Next(p, s, Step(r));
    if todo == [] {
      Prepend(p, s, Step(r), []);
      es := [Step(r)];
    } else if s1.procs[r].Dropping? {
      var s2 := Next(p, s1, Step(r));
      var rest := SweepRun(p, s2, r);
      Prepend(p, s1, Step(r), rest);
      Prepend(p, s, Step(r), [Step(r)] + rest);
      es := [Step(r)] + ([Step(r)] + rest);
    } else {
      var rest := SweepRun(p, s1, r);
      Prepend(p, s, Step(r), rest);
      es := [Step(r)] + rest;
    }
  }
}
