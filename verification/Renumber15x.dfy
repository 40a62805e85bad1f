/**
 The 1.5.x renumbering run by any number of replicas at once.  Each runs it in one
 transaction under a transaction-scoped advisory lock; a crash or a failed
 statement at any point rolls the transaction back and frees the lock.
 */
module Renumber15x {
  import opened Prelude
  import opened Ledger

  datatype Move = Move(src: int, dst: int)

  datatype Phase =
    | Starting                       // about to look for the ledger table
    | Waiting                        // transaction begun, about to take the lock
    | Locked                         // about to read the ledger
    | Seen(snapshot: Rows)           // about to decide and look for the backing objects
    | Updating154(both: bool)
    | Updating155(moves: seq<Move>)
    | Committing(moves: seq<Move>)
  {
    predicate Holds() { !Starting? && !Waiting? }
  }

  /** `moves` counts the commits that moved rows. */
  datatype State = State(db: Db, lock: Option<nat>, procs: map<nat, Phase>, moves: nat) {
    function At(r: nat, phase: Phase): State { this.(procs := procs[r := phase]) }
    /** Replica gone or done: its transaction is over, its lock free. */
    function Leave(r: nat): State { this.(procs := procs - {r}, lock := if lock == Some(r) then None else lock) }
  }

  /** What a transaction sees of the ledger after its own updates. */
  function View(rows: Rows, moves: seq<Move>): Rows
    decreases |moves|
  {
    if moves == [] then rows
    else View(if moves[0].src in rows && moves[0].dst !in rows then Moved(rows, moves[0].src, moves[0].dst) else rows, moves[1..])
  }

  /** An UPDATE of the version column would hit the primary key. */
  predicate Conflict(rows: Rows, m: Move) {
    m.src in rows && m.dst in rows
  }

  datatype Event = Boot(r: nat) | Step(r: nat) | Crash(r: nat)

  predicate Enabled(s: State, e: Event) {
    match e
    case Boot(r) => r !in s.procs
    case Crash(r) => r in s.procs
    case Step(r) => r in s.procs && (s.procs[r].Waiting? ==> s.lock.None?)
  }

  ghost function Advance(rel: Release, s: State, r: nat): State
    requires rel.Ships() && Enabled(s, Step(r))
  {
    match s.procs[r]
    case Starting => if s.db.hasTable then s.At(r, Waiting) else s.Leave(r)
    case Waiting => s.(lock := Some(r)).At(r, Locked)
    case Locked => s.At(r, Seen(s.db.rows))
    case Seen(rows) =>
      if Renumberable(rel, s.db.(rows := rows)) then s.At(r, Updating154(IsV158(rel, rows))) else s.Leave(r)
    case Updating154(both) =>
      var m := Move(154, 157);
      if Conflict(s.db.rows, m) then s.Leave(r)
      else if both then s.At(r, Updating155([m]))
      else s.At(r, Committing([m]))
    case Updating155(moves) =>
      var m := Move(155, 163);
      if Conflict(View(s.db.rows, moves), m) then s.Leave(r) else s.At(r, Committing(moves + [m]))
    case Committing(moves) =>
      s.(db := s.db.(rows := View(s.db.rows, moves)), moves := s.moves + 1).Leave(r)
  }

  ghost function Next(rel: Release, s: State, e: Event): State
    requires rel.Ships() && Enabled(s, e)
  {
    match e
    case Boot(r) => s.At(r, Starting)
    case Crash(r) => s.Leave(r)
    case Step(r) => Advance(rel, s, r)
  }

  ghost predicate IsRun(rel: Release, s: State, es: seq<Event>)
    requires rel.Ships()
    decreases |es|
  {
    es == [] || (Enabled(s, es[0]) && IsRun(rel, Next(rel, s, es[0]), es[1..]))
  }

  ghost function After(rel: Release, s: State, es: seq<Event>): State
    requires rel.Ships() && IsRun(rel, s, es)
    decreases |es|
  {
    if es == [] then s else After(rel, Next(rel, s, es[0]), es[1..])
  }

  ghost predicate LockDiscipline(s: State) {
    && (forall r :: r in s.procs ==> (s.procs[r].Holds() <==> s.lock == Some(r)))
    && (s.lock.Some? ==> s.lock.value in s.procs)
  }

  /** What the lock holder has decided still describes the committed ledger. */
  ghost predicate Current(rel: Release, s: State, ph: Phase)
    requires rel.Ships()
  {
    match ph
    case Seen(rows) => rows == s.db.rows
    case Updating154(both) => Renumberable(rel, s.db) && both == IsV158(rel, s.db.rows)
    case Updating155(moves) => Renumberable(rel, s.db) && IsV158(rel, s.db.rows) && moves == [Move(154, 157)]
    case Committing(moves) => Renumberable(rel, s.db) && View(s.db.rows, moves) == RenumberedRows(rel, s.db.rows)
    case _ => true
  }

  /** The committed database is the original one, or the one sequential repair of it. */
  ghost predicate OriginalOrRepaired(rel: Release, original: Db, s: State)
    requires rel.Ships()
  {
    || (s.db == original && s.moves == 0)
    || (s.db == After15x(rel, original) && Renumberable(rel, original) && s.moves == 1)
  }

  ghost predicate Inv(rel: Release, original: Db, s: State)
    requires rel.Ships()
  {
    && LockDiscipline(s)
    && (forall r :: r in s.procs ==> Current(rel, s, s.procs[r]))
    && OriginalOrRepaired(rel, original, s)
  }

  /** Both views of the moves: statement by statement, and as one renumbering. */
  lemma MovesAreTheRenumbering(rel: Release, rows: Rows)
    requires rel.Ships() && 154 in rows && 157 !in rows && (IsV158(rel, rows) ==> 163 !in rows)
    ensures View(rows, [Move(154, 157)]) == Moved(rows, 154, 157)
    ensures View(rows, [Move(154, 157)] + [Move(155, 163)]) == if 155 in rows && 163 !in rows then Moved(Moved(rows, 154, 157), 155, 163) else Moved(rows, 154, 157)
  {
    var one := Moved(rows, 154, 157);
    assert View(one, []) == one;
    assert ([Move(154, 157)] + [Move(155, 163)])[1..] == [Move(155, 163)];
    assert [Move(155, 163)][1..] == [] && [Move(154, 157)][1..] == [];
  }

  /** No UPDATE of a deciding transaction can hit an occupied slot. */
  lemma NoConflict(rel: Release, original: Db, s: State, r: nat)
    requires rel.Ships() && Inv(rel, original, s) && r in s.procs
    ensures s.procs[r].Updating154? ==> 154 in s.db.rows && !Conflict(s.db.rows, Move(154, 157))
    ensures s.procs[r].Updating155? ==>
              155 in View(s.db.rows, s.procs[r].moves) && !Conflict(View(s.db.rows, s.procs[r].moves), Move(155, 163))
  {
    assert Current(rel, s, s.procs[r]);
    if s.procs[r].Updating155? { MovesAreTheRenumbering(rel, s.db.rows); }
  }

  lemma MoverStep(rel: Release, original: Db, s: State, r: nat)
    requires rel.Ships() && Inv(rel, original, s) && Enabled(s, Step(r))
    ensures r in Advance(rel, s, r).procs ==> Current(rel, Advance(rel, s, r), Advance(rel, s, r).procs[r])
    ensures OriginalOrRepaired(rel, original, Advance(rel, s, r))
  {
    assert Current(rel, s, s.procs[r]);
    NoConflict(rel, original, s, r);
    if s.procs[r].Updating154? || s.procs[r].Updating155? { MovesAreTheRenumbering(rel, s.db.rows); }
  }

  lemma InvStep(rel: Release, original: Db, s: State, e: Event)
    requires rel.Ships() && Inv(rel, original, s) && Enabled(s, e)
    ensures Inv(rel, original, Next(rel, s, e))
  {
    var s' := Next(rel, s, e);
    if e.Step? { MoverStep(rel, original, s, e.r); }
    forall q | q in s'.procs && q != e.r ensures Current(rel, s', s'.procs[q]) {
      assert q in s.procs && s'.procs[q] == s.procs[q] && Current(rel, s, s.procs[q]);
      if s.procs[q].Holds() { assert s'.db == s.db; }
    }
  }

  lemma {:induction false} InvRun(rel: Release, original: Db, s: State, es: seq<Event>)
    requires rel.Ships() && Inv(rel, original, s) && IsRun(rel, s, es)
    ensures Inv(rel, original, After(rel, s, es))
    decreases |es|
  {
    if es != [] {
      InvStep(rel, original, s, es[0]);
      InvRun(rel, original, Next(rel, s, es[0]), es[1..]);
    }
  }

  /** Over every interleaving, the ledger is the original or the sequential repair, and at most one commit moved rows. */
  lemma EveryInterleavingRepairsOnce(rel: Release, db: Db, es: seq<Event>)
    requires rel.Ships() && IsRun(rel, State(db, None, map[], 0), es)
    ensures var s := After(rel, State(db, None, map[], 0), es);
            && s.moves <= 1
            && s.db == (if s.moves == 0 then db else After15x(rel, db))
            && (s.moves == 1 ==> Renumberable(rel, db))
            && (forall r :: r in s.procs ==> s.lock == Some(r) || !s.procs[r].Holds())
  {
    InvRun(rel, db, State(db, None, map[], 0), es);
  }

  /** A replica left alone repairs what is there to repair. */
  lemma SoloReplicaRepairs(rel: Release, db: Db) returns (es: seq<Event>)
    requires rel.Ships()
    ensures IsRun(rel, State(db, None, map[], 0), es)
    ensures After(rel, State(db, None, map[], 0), es).db == After15x(rel, db)
    ensures After(rel, State(db, None, map[], 0), es).procs == map[]
  {
    es := SoloFrom(rel, db, State(db, None, map[], 0).At(0, Starting));
    es := [Boot(0)] + es;
  }

  ghost function Rank(ph: Phase): nat {
    match ph
    case Starting => 7 case Waiting => 6 case Locked => 5 case Seen(_) => 4
    case Updating154(_) => 3 case Updating155(_) => 2 case Committing(_) => 1
  }

  lemma {:induction false} SoloFrom(rel: Release, original: Db, s: State) returns (es: seq<Event>)
    requires rel.Ships() && Inv(rel, original, s) && s.procs.Keys == {0} && s.moves == 0
    requires s.procs[0].Starting? || s.db.hasTable
    ensures IsRun(rel, s, es) && After(rel, s, es).db == After15x(rel, original) && After(rel, s, es).procs == map[]
    decreases Rank(s.procs[0])
  {
    InvStep(rel, original, s, Step(0));
    var s' := Next(rel, s, Step(0));
    NoConflict(rel, original, s, 0);
    if 0 in s'.procs {
      var rest := SoloFrom(rel, original, s');
      es := [Step(0)] + rest;
      assert es[1..] == rest;
    } else {
      es := [Step(0)];
      assert IsRun(rel, s', es[1..]) && After(rel, s', es[1..]) == s';
    }
  }

  // ----- failing closed ------------------------------------------------------------------

  /** Something else than a pristine v1.5.x upgrade: an object that a row speaks of is missing, a slot that
      is needed is taken, or slot 155 holds some other file. */
  ghost predicate Blocked(rel: Release, db: Db)
    requires rel.Ships()
  {
    || StorageKeyIndex !in db.objects
    || 156 in db.rows || 157 in db.rows
    || (155 in db.rows && db.rows[155] != rel.files[163])
    || (155 in db.rows && (163 in db.rows || MavenFlatOwner !in db.objects))
  }

  /** Some run changes the ledger if and only if row 154 carries the checksum of 157 and nothing blocks it. */
  lemma RenumberedIff(rel: Release, db: Db)
    requires rel.Ships()
    ensures (exists es :: IsRun(rel, State(db, None, map[], 0), es) && After(rel, State(db, None, map[], 0), es).db != db) <==>
              db.hasTable && 154 in db.rows && db.rows[154] == rel.files[157] && !Blocked(rel, db)
  {
    var s := State(db, None, map[], 0);
    forall es | IsRun(rel, s, es) && After(rel, s, es).db != db ensures db.hasTable && 154 in db.rows && db.rows[154] == rel.files[157] && !Blocked(rel, db) {
      EveryInterleavingRepairsOnce(rel, db, es);
    }
    if db.hasTable && 154 in db.rows && db.rows[154] == rel.files[157] && !Blocked(rel, db) {
      var es := SoloReplicaRepairs(rel, db);
      assert 154 !in After15x(rel, db).rows;
    }
  }

  /** No run records 157 or 163 without the object its migration creates. */
  lemma MovedRowsAreBacked(rel: Release, db: Db, es: seq<Event>)
    requires rel.Ships() && IsRun(rel, State(db, None, map[], 0), es)
    ensures var rows := After(rel, State(db, None, map[], 0), es).db.rows;
            && (157 in rows && 157 !in db.rows ==> StorageKeyIndex in db.objects)
            && (163 in rows && 163 !in db.rows ==> MavenFlatOwner in db.objects)
  {
    EveryInterleavingRepairsOnce(rel, db, es);
  }

  /** A blocked v1.5.x ledger is left as it is by every run, and the migrator stops at 154. */
  lemma BlockedUpgradeStops(rel: Release, order: seq<int>, db: Db, es: seq<Event>)
    requires rel.Ships() && rel.Distinct() && Enumerates(order, rel.files) && IsRun(rel, State(db, None, map[], 0), es)
    requires 154 in db.rows && db.rows[154] == rel.files[157] && Blocked(rel, db)
    requires forall v :: v < 154 ==> Matches(rel.files, db.rows, v)
    ensures After(rel, State(db, None, map[], 0), es).db == db
    ensures Walk(rel.files, order, db.rows).end == MismatchAt(154)
  {
    EveryInterleavingRepairsOnce(rel, db, es);
    WalkStops(rel.files, order, db.rows, 154);
  }

  // ----- conservation ---------------------------------------------------------------

  /** The versions that carry checksum `c`. */
  ghost function Carriers(rows: Rows, c: Checksum): set<int> {
    set v | v in rows && rows[v] == c
  }

  /** How many rows carry checksum `c`. */
  ghost function Tally(rows: Rows, c: Checksum): nat { |Carriers(rows, c)| }

  lemma CarriersMove(rows: Rows, src: int, dst: int, c: Checksum, v: int)
    requires src in rows && dst !in rows
    ensures v in Carriers(Moved(rows, src, dst), c) <==> if v == dst then rows[src] == c else v != src && v in Carriers(rows, c)
  {
  }

  lemma MoveConserves(rows: Rows, src: int, dst: int, c: Checksum)
    requires src in rows && dst !in rows
    ensures Tally(Moved(rows, src, dst), c) == Tally(rows, c)
  {
    var before, after := Carriers(rows, c), Carriers(Moved(rows, src, dst), c);
    assert (src in before <==> rows[src] == c) && dst !in before;
    hide Carriers, Moved;
    forall v ensures v in after <==> if v == dst then rows[src] == c else v != src && v in before { CarriersMove(rows, src, dst, c, v); }
    if rows[src] == c { assert after == before - {src} + {dst}; } else { assert after == before; }
  }

  /** Every interleaving keeps the multiset of checksums and every row outside the diverged slots. */
  lemma ChecksumsConserved(rel: Release, db: Db, es: seq<Event>, c: Checksum)
    requires rel.Ships() && IsRun(rel, State(db, None, map[], 0), es)
    ensures var rows := After(rel, State(db, None, map[], 0), es).db.rows;
            && Tally(rows, c) == Tally(db.rows, c)
            && (forall v :: v in db.rows && v !in {154, 155} ==> v in rows && rows[v] == db.rows[v])
  {
    EveryInterleavingRepairsOnce(rel, db, es);
    if Renumberable(rel, db) {
      MoveConserves(db.rows, 154, 157, c);
      if IsV158(rel, db.rows) { MoveConserves(Moved(db.rows, 154, 157), 155, 163, c); }
    }
  }
}
