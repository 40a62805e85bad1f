/**
 Upgrading a v1.1.9 database with any number of boots at once.  The 1.1.9 repair
 takes no lock, so the statements of its boots interleave freely; each boot may
 crash between any two of its own.
 */
module OverlappingBoots {
  import opened Ledger
  import opened Upgrade119

  /** Which statement on the quarantine constraint took effect last. */
  datatype Touch = Untouched | Dropped | Added

  datatype State = State(db: Db, procs: map<nat, Pc>, touch: Touch)

  datatype Event = Boot(r: nat) | Next(r: nat) | Crash(r: nat)

  predicate Enabled(s: State, e: Event) {
    match e
    case Boot(r) => r !in s.procs
    case Next(r) => r in s.procs && !s.procs[r].Terminal()
    case Crash(r) => r in s.procs
  }

  /** DROP CONSTRAINT is statement 3 of the body, ADD CONSTRAINT statement 4. */
  function Touches(pc: Pc, db: Db, was: Touch): Touch {
    if pc == Body(3) then Dropped else if pc == Body(4) && !HasCheck(db) then Added else was
  }

  ghost function Apply(rel: Release, order: seq<int>, s: State, e: Event): State
    requires rel.Ships() && Enumerates(order, rel.files) && Enabled(s, e)
  {
    match e
    case Boot(r) => s.(procs := s.procs[r := Check073])
    case Crash(r) => s.(procs := s.procs - {r})
    case Next(r) =>
      var (pc, db) := Step(rel, order, s.procs[r], s.db);
      State(db, s.procs[r := pc], Touches(s.procs[r], s.db, s.touch))
  }

  ghost predicate IsRun(rel: Release, order: seq<int>, s: State, es: seq<Event>)
    requires rel.Ships() && Enumerates(order, rel.files)
    decreases |es|
  {
    es == [] || (Enabled(s, es[0]) && IsRun(rel, order, Apply(rel, order, s, es[0]), es[1..]))
  }

  ghost function After(rel: Release, order: seq<int>, s: State, es: seq<Event>): State
    requires rel.Ships() && Enumerates(order, rel.files) && IsRun(rel, order, s, es)
    decreases |es|
  {
    if es == [] then s else After(rel, order, Apply(rel, order, s, es[0]), es[1..])
  }

  /** A v1.1.9 database before any boot. */
  ghost predicate Pristine(rel: Release, s: State) {
    V119(rel, s.db) && s.procs == map[] && s.touch == Untouched
  }

  // ----- exactly when a slot lacks its schema ----------------------------------------------

  ghost predicate Backed(rel: Release, db: Db, v: int)
    requires rel.Ships() && v in {73, 74, 75}
  {
    v in db.rows && db.rows[v] == rel.files[v] ==> SlotSchema(v) <= db.objects
  }

  /** What is laid after `i` statements of some boot, whatever the others do. */
  function LaidForGood(i: nat): set<Object> { Laid(i) - {QuarantineCheck} }

  ghost predicate Progress(s: State, pc: Pc) {
    && (pc.Write073? ==> LOCKOUT <= s.db.objects)
    && (pc.Body? ==> pc.next < BODY_LENGTH && LaidForGood(pc.next) <= s.db.objects && (pc.next >= 4 ==> s.touch != Untouched))
  }

  /** The last statement on the constraint decides whether it is there. */
  ghost predicate TouchTells(s: State) {
    && (s.touch == Dropped ==> !HasCheck(s.db))
    && (s.touch == Added ==> QuarantineCheck in s.db.objects)
  }

  ghost predicate RowsTell(rel: Release, s: State)
    requires rel.Ships()
  {
    && s.db.hasTable && {73, 74, 75} <= s.db.rows.Keys
    && (FailedLoginAttempts in s.db.objects ==> LOCKOUT <= s.db.objects)
    && (s.db.rows[73] == rel.files[73] ==> LOCKOUT <= s.db.objects)
    && (s.db.rows[74] == rel.files[74] ==> SlotSchema(74) <= s.db.objects)
    && (s.db.rows[75] == rel.files[75] ==> {QuarantineUntil, QuarantineUntilIndex} <= s.db.objects && s.touch != Untouched)
  }

  ghost predicate Inv(rel: Release, s: State)
    requires rel.Ships()
  {
    RowsTell(rel, s) && TouchTells(s) && forall r :: r in s.procs ==> Progress(s, s.procs[r])
  }

  /** Nothing laid for good is ever taken away, and the constraint never becomes untouched again. */
  lemma StepGrows(rel: Release, order: seq<int>, s: State, r: nat)
    requires rel.Ships() && Enumerates(order, rel.files) && Inv(rel, s) && Enabled(s, Next(r))
    ensures var s' := Apply(rel, order, s, Next(r));
            && s.db.objects - {OldQuarantineCheck, QuarantineCheck} <= s'.db.objects
            && (s.touch != Untouched ==> s'.touch != Untouched)
  {
  }

  lemma RowsStep(rel: Release, order: seq<int>, s: State, r: nat)
    requires rel.Ships() && Enumerates(order, rel.files) && Inv(rel, s) && Enabled(s, Next(r))
    ensures RowsTell(rel, Apply(rel, order, s, Next(r)))
  {
    hide Renumberable, IsV158, RenumberedRows;
    assert Progress(s, s.procs[r]);
    if s.procs[r].Renumber? { RenumberSpares(rel, s.db); }
  }

  /** The 1.5.x repair leaves rows 73 to 75 and the schema alone. */
  lemma RenumberSpares(rel: Release, db: Db)
    requires rel.Ships() && {73, 74, 75} <= db.rows.Keys
    ensures var db' := After15x(rel, db);
            && db'.hasTable == db.hasTable && db'.objects == db.objects && {73, 74, 75} <= db'.rows.Keys
            && db'.rows[73] == db.rows[73] && db'.rows[74] == db.rows[74] && db'.rows[75] == db.rows[75]
  {
    RepairsStayInTheirSlots(rel, db, 73);
    RepairsStayInTheirSlots(rel, db, 74);
    RepairsStayInTheirSlots(rel, db, 75);
  }

  lemma TouchStep(rel: Release, order: seq<int>, s: State, r: nat)
    requires rel.Ships() && Enumerates(order, rel.files) && Inv(rel, s) && Enabled(s, Next(r))
    ensures TouchTells(Apply(rel, order, s, Next(r)))
  {
  }

  lemma ActorStep(rel: Release, order: seq<int>, s: State, r: nat)
    requires rel.Ships() && Enumerates(order, rel.files) && Inv(rel, s) && Enabled(s, Next(r))
    ensures var s' := Apply(rel, order, s, Next(r)); Progress(s', s'.procs[r])
  {
    assert Progress(s, s.procs[r]);
  }

  lemma InvStep(rel: Release, order: seq<int>, s: State, e: Event)
    requires rel.Ships() && Enumerates(order, rel.files) && Inv(rel, s) && Enabled(s, e)
    ensures Inv(rel, Apply(rel, order, s, e))
  {
    if e.Next? {
      RowsStep(rel, order, s, e.r);
      TouchStep(rel, order, s, e.r);
      ActorStep(rel, order, s, e.r);
      StepGrows(rel, order, s, e.r);
    }
  }

  lemma {:induction false} InvRun(rel: Release, order: seq<int>, s: State, es: seq<Event>)
    requires rel.Ships() && Enumerates(order, rel.files) && Inv(rel, s) && IsRun(rel, order, s, es)
    ensures Inv(rel, After(rel, order, s, es))
    decreases |es|
  {
    if es != [] {
      InvStep(rel, order, s, es[0]);
      InvRun(rel, order, Apply(rel, order, s, es[0]), es[1..]);
    }
  }

  /**
   Over every interleaving from a v1.1.9 database: main's checksum in row 73 or 74 has main's schema
   behind it; row 75 lacks its schema if and only if it carries main's checksum and the constraint
   was last dropped rather than added.
   */
  lemma UnbackedIffDroppedLast(rel: Release, order: seq<int>, s: State, es: seq<Event>)
    requires rel.Ships() && rel.Distinct() && Enumerates(order, rel.files) && Pristine(rel, s) && IsRun(rel, order, s, es)
    ensures var s' := After(rel, order, s, es);
            && Backed(rel, s'.db, 73) && Backed(rel, s'.db, 74)
            && (!Backed(rel, s'.db, 75) <==> 75 in s'.db.rows && s'.db.rows[75] == rel.files[75] && s'.touch == Dropped)
  {
    InvRun(rel, order, s, es);
  }

  // ----- it happens, and for good ------------------------------------------------------------

  lemma Prepend(rel: Release, order: seq<int>, s: State, e: Event, es: seq<Event>)
    requires rel.Ships() && Enumerates(order, rel.files) && Enabled(s, e) && IsRun(rel, order, Apply(rel, order, s, e), es)
    ensures IsRun(rel, order, s, [e] + es) && After(rel, order, s, [e] + es) == After(rel, order, Apply(rel, order, s, e), es)
  {
    assert ([e] + es)[1..] == es;
  }

  lemma {:induction false} RunThen(rel: Release, order: seq<int>, s: State, es: seq<Event>, more: seq<Event>)
    requires rel.Ships() && Enumerates(order, rel.files) && IsRun(rel, order, s, es) && IsRun(rel, order, After(rel, order, s, es), more)
    ensures IsRun(rel, order, s, es + more) && After(rel, order, s, es + more) == After(rel, order, After(rel, order, s, es), more)
    decreases |es|
  {
    if es == [] {
      assert es + more == more;
    } else {
      RunThen(rel, order, Apply(rel, order, s, es[0]), es[1..], more);
      assert (es + more)[1..] == es[1..] + more;
    }
  }

  ghost predicate Reaches(rel: Release, order: seq<int>, s: State, es: seq<Event>, s': State)
    requires rel.Ships() && Enumerates(order, rel.files)
  {
    IsRun(rel, order, s, es) && After(rel, order, s, es) == s'
  }

  lemma Then(rel: Release, order: seq<int>, s: State, es: seq<Event>, s': State, more: seq<Event>, s'': State)
    requires rel.Ships() && Enumerates(order, rel.files) && Reaches(rel, order, s, es, s') && Reaches(rel, order, s', more, s'')
    ensures Reaches(rel, order, s, es + more, s'')
  {
    RunThen(rel, order, s, es, more);
  }

  lemma One(rel: Release, order: seq<int>, s: State, e: Event)
    requires rel.Ships() && Enumerates(order, rel.files) && Enabled(s, e)
    ensures Reaches(rel, order, s, [e], Apply(rel, order, s, e))
  {
    Prepend(rel, order, s, e, []);
    assert [e] + [] == [e];
  }

  /** One replica's stretch of statements is a stretch of its boot. */
  lemma {:induction false} Stretch(rel: Release, order: seq<int>, s: State, r: nat, n: nat) returns (es: seq<Event>, s': State)
    requires rel.Ships() && Enumerates(order, rel.files) && r in s.procs
    ensures Reaches(rel, order, s, es, s')
    ensures var (pc, db) := Run(rel, order, s.procs[r], s.db, n); s'.db == db && s'.procs == s.procs[r := pc]
    decreases n
  {
    es, s' := [], s;
    if n > 0 && !s.procs[r].Terminal() {
      var s1 := Apply(rel, order, s, Next(r));
      var rest;
      rest, s' := Stretch(rel, order, s1, r, n - 1);
      Prepend(rel, order, s, Next(r), rest);
      es := [Next(r)] + rest;
    } else {
      assert s.procs[r := s.procs[r]] == s.procs;
    }
  }

  /** The repair's body, run through on a database with the v1.1.9 rows, repairs it. */
  lemma DoneRepaired(rel: Release, db: Db)
    requires rel.Ships() && IsV119(rel, db) && OthersMatch(rel, db)
    ensures Repaired(rel, ExecRange(rel, 0, BODY_LENGTH, db))
  {
    ExecSplit(rel, 0, 8, BODY_LENGTH, db);
    BodyObjects(rel, db);
    BodyRows(rel, ExecRange(rel, 0, 8, db));
    var done := ExecRange(rel, 0, BODY_LENGTH, db);
    forall v | v !in {73, 74, 75} ensures Matches(rel.files, done.rows, v) { assert Matches(rel.files, db.rows, v); }
  }

  /** A boot's first statements on a v1.1.9 database: it decides to repair, and starts. */
  lemma FirstStatements(rel: Release, order: seq<int>, db: Db)
    requires rel.Ships() && rel.Distinct() && Enumerates(order, rel.files) && V119(rel, db)
    ensures Run(rel, order, Check073, db, 3) == (Body(0), db)
    ensures var behind := ExecRange(rel, 0, 3, db);
            && Run(rel, order, Check073, db, 6) == (Body(3), behind)
            && behind.rows == db.rows && behind.hasTable
  {
    assert Step(rel, order, Check073, db) == (Column073(true), db);
    assert Step(rel, order, Column073(true), db) == (Check119, db) && Step(rel, order, Check119, db) == (Body(0), db);
    forall n: nat ensures Run(rel, order, Check073, db, n + 3) == Run(rel, order, Body(0), db, n) {
      assert Run(rel, order, Check119, db, n + 1) == Run(rel, order, Body(0), db, n);
      assert Run(rel, order, Column073(true), db, n + 2) == Run(rel, order, Check119, db, n + 1);
    }
    assert Run(rel, order, Check073, db, 0 + 3) == Run(rel, order, Body(0), db, 0);
    assert Run(rel, order, Check073, db, 3 + 3) == Run(rel, order, Body(0), db, 3);
    RunBody(rel, order, 0, 3, db);
    ExecSplit(rel, 0, 2, 3, db);
    ExecSplit(rel, 0, 1, 2, db);
  }

  /** The other boot runs through, and then this one drops the constraint. */
  lemma DropAfterRepair(rel: Release, order: seq<int>, behind: Db) returns (done: Db, lost: Db)
    requires rel.Ships() && Enumerates(order, rel.files) && IsV119(rel, behind) && OthersMatch(rel, behind)
    ensures Run(rel, order, Body(0), behind, BODY_LENGTH) == (Renumber, done)
    ensures Run(rel, order, Body(3), done, 1) == (Body(4), lost)
    ensures Repaired(rel, lost) && QuarantineCheck !in lost.objects
  {
    done := ExecRange(rel, 0, BODY_LENGTH, behind);
    DoneRepaired(rel, behind);
    lost := Exec(rel, 3, done);
    assert ExecRange(rel, 3, 4, done) == lost by { assert ExecRange(rel, 4, 4, lost) == lost; }
    RunBody(rel, order, 0, BODY_LENGTH, behind);
    RunBody(rel, order, 3, 4, done);
  }

  /** Two boots on a v1.1.9 database: one repairs it while the other is about to drop the constraint, does, and dies. */
  lemma OverlappingBootsLoseTheConstraint(rel: Release, order: seq<int>, db: Db) returns (es: seq<Event>)
    requires rel.Ships() && rel.Distinct() && Enumerates(order, rel.files) && V119(rel, db)
    ensures var s := State(db, map[], Untouched);
            && Pristine(rel, s) && IsRun(rel, order, s, es)
            && var s' := After(rel, order, s, es);
               Repaired(rel, s'.db) && !Backed(rel, s'.db, 75) && s'.procs == map[0 := Renumber]
  {
    var s := State(db, map[], Untouched);
    var s1 := State(db, map[0 := Check073], Untouched);
    var s2 := State(db, map[0 := Check073, 1 := Check073], Untouched);
    One(rel, order, s, Boot(0));
    One(rel, order, s1, Boot(1));
    Then(rel, order, s, [Boot(0)], s1, [Boot(1)], s2);
    FirstStatements(rel, order, db);
    var done, lost := DropAfterRepair(rel, order, ExecRange(rel, 0, 3, db));
    var more, s' := OverlapFrom(rel, order, s2, db, ExecRange(rel, 0, 3, db), done, lost);
    Then(rel, order, s, [Boot(0)] + [Boot(1)], s2, more, s');
    es := [Boot(0)] + [Boot(1)] + more;
  }

  lemma OverlapFrom(rel: Release, order: seq<int>, s: State, db: Db, behind: Db, done: Db, lost: Db) returns (es: seq<Event>, s': State)
    requires rel.Ships() && Enumerates(order, rel.files) && s.db == db && s.procs == map[0 := Check073, 1 := Check073]
    requires Run(rel, order, Check073, db, 3) == (Body(0), db) && Run(rel, order, Check073, db, 6) == (Body(3), behind)
    requires Run(rel, order, Body(0), behind, BODY_LENGTH) == (Renumber, done)
    requires Run(rel, order, Body(3), done, 1) == (Body(4), lost)
    ensures Reaches(rel, order, s, es, s') && s'.db == lost && s'.procs == map[0 := Renumber]
  {
    hide Run, Reaches;
    var a, s1 := Stretch(rel, order, s, 0, 3);
    var b, s2 := Stretch(rel, order, s1, 1, 6);
    var c, s3 := Stretch(rel, order, s2, 0, BODY_LENGTH);
    var d, s4 := Stretch(rel, order, s3, 1, 1);
    assert s4.db == lost && s4.procs == map[0 := Renumber, 1 := Body(4)];
    One(rel, order, s4, Crash(1));
    s' := Apply(rel, order, s4, Crash(1));
    Then(rel, order, s, a, s1, b, s2);
    Then(rel, order, s, a + b, s2, c, s3);
    Then(rel, order, s, a + b + c, s3, d, s4);
    Then(rel, order, s, a + b + c + d, s4, [Crash(1)], s');
    es := a + b + c + d + [Crash(1)];
  }

  /** No boot is inside the body of the 1.1.9 repair. */
  ghost predicate NobodyInBody(s: State) {
    forall r :: r in s.procs ==> !s.procs[r].Body?
  }

  /** On repaired rows no boot starts the repair again, and none restores what is gone. */
  lemma RepairedStep(rel: Release, order: seq<int>, pc: Pc, db: Db)
    requires rel.Ships() && rel.Distinct() && Enumerates(order, rel.files) && Repaired(rel, db) && !pc.Body?
    ensures var (pc', db') := Step(rel, order, pc, db);
            && !pc'.Body? && Repaired(rel, db') && (forall o :: o in db'.objects ==> o in db.objects || o.SchemaOf?)
  {
    OthersStep(rel, order, pc, db);
  }

  /** Once lost with nobody in the body, it stays lost over every run. */
  lemma {:induction false} LostForGood(rel: Release, order: seq<int>, s: State, es: seq<Event>)
    requires rel.Ships() && rel.Distinct() && Enumerates(order, rel.files) && IsRun(rel, order, s, es)
    requires Repaired(rel, s.db) && QuarantineCheck !in s.db.objects && NobodyInBody(s)
    ensures Repaired(rel, After(rel, order, s, es).db) && QuarantineCheck !in After(rel, order, s, es).db.objects
    decreases |es|
  {
    if es != [] {
      if es[0].Next? { RepairedStep(rel, order, s.procs[es[0].r], s.db); }
      LostForGood(rel, order, Apply(rel, order, s, es[0]), es[1..]);
    }
  }
}
