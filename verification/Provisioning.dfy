/**
 Provisioning of the built-in admin by any number of replicas: one transaction
 under a cluster-wide advisory lock, a password file on the shared volume, and
 whatever the environment of each boot says.  A replica may crash at any point;
 its transaction is then rolled back and its lock released, but what it did to
 the volume stays.
 */
module Provisioning {
  import opened Prelude
  import opened Ascii

  type Password = string

  /** A stored hash; distinct passwords have distinct hashes. */
  datatype Hash = HashOf(password: Password)

  datatype User = User(
    hash: Option<Hash>,
    isAdmin: bool,
    mustChange: bool,
    isActive: bool,
    local: bool,                 // auth_provider = 'local'
    external: Option<string>)    // external_id of a federated account

  type Users = map<string, User>

  const ADMIN := "admin"

  // ----- which credential a new admin gets -------------------------------------------

  const INSECURE_DEFAULTS: seq<string> :=
    ["admin", "password", "changeme", "admin123", "Password1", "letmein", "welcome", "123456", "admin1234", "default"]

  predicate IsInsecureDefault(p: Password) {
    exists i :: 0 <= i < |INSECURE_DEFAULTS| && EqIgnoreCase(INSECURE_DEFAULTS[i], p)
  }

  /** The ten well-known defaults, in any case. */
  lemma InsecureDefaultsAre(p: Password)
    ensures IsInsecureDefault(p) <==>
              || EqIgnoreCase("admin", p) || EqIgnoreCase("password", p) || EqIgnoreCase("changeme", p) || EqIgnoreCase("admin123", p)
              || EqIgnoreCase("password1", p) || EqIgnoreCase("letmein", p) || EqIgnoreCase("welcome", p) || EqIgnoreCase("123456", p)
              || EqIgnoreCase("admin1234", p) || EqIgnoreCase("default", p)
  {
    var d := INSECURE_DEFAULTS;
    assert EqIgnoreCase("Password1", p) <==> EqIgnoreCase("password1", p) by {
      assert forall i :: 0 <= i < 9 ==> Lower("Password1"[i]) == Lower("password1"[i]);
    }
    hide EqIgnoreCase;
    assert d[0] == "admin" && d[1] == "password" && d[2] == "changeme" && d[3] == "admin123" && d[4] == "Password1";
    assert d[5] == "letmein" && d[6] == "welcome" && d[7] == "123456" && d[8] == "admin1234" && d[9] == "default";
    if i :| 0 <= i < |d| && EqIgnoreCase(d[i], p) {
      assert i == 0 || i == 1 || i == 2 || i == 3 || i == 4 || i == 5 || i == 6 || i == 7 || i == 8 || i == 9;
    }
  }

  /** What one boot reads from its environment, and the password it would generate. */
  datatype Env = Env(
    skip: bool,                       // SKIP_ADMIN_PROVISIONING
    secretBroken: bool,               // ADMIN_PASSWORD_FILE configured but unusable
    adminPassword: Option<Password>,
    preset: Option<Password>,         // INITIAL_ADMIN_PASSWORD or its _FILE form, resolved
    presetRejected: bool,             // by the password policy
    demo: bool,
    generated: Password)
  {
    /** ADMIN_PASSWORD is a well-known default and demo mode does not excuse it. */
    predicate Trips() { adminPassword.Some? && IsInsecureDefault(adminPassword.value) && !demo }
    /** Nothing presets the password. */
    predicate Unset() { (adminPassword.Some? ==> adminPassword.value == "") && preset.None? }
  }

  datatype Credential = Credential(password: Password, mustChange: bool, preset: bool)

  /** `decide_initial_admin_credential`; None is the refusal to seed a weak preset. */
  function Decide(env: Env): (r: Option<Credential>)
    ensures r.None? ==> env.preset.Some? && (env.presetRejected || IsInsecureDefault(env.preset.value))
    ensures r.Some? && r.value.preset ==> env.preset == Some(r.value.password) && !IsInsecureDefault(r.value.password) && r.value.mustChange
    ensures r.Some? && !r.value.mustChange ==> env.adminPassword == Some(r.value.password) && !env.Trips()
    ensures env.Unset() ==> r == Some(Credential(env.generated, true, false))
    ensures env.adminPassword.Some? && env.adminPassword.value != "" ==> r == Some(Credential(env.adminPassword.value, env.Trips(), false))
    ensures (env.adminPassword.Some? ==> env.adminPassword.value == "") && env.preset.Some? ==>
              && (r.None? <==> env.presetRejected || IsInsecureDefault(env.preset.value))
              && (r.Some? ==> r.value == Credential(env.preset.value, true, true))
  {
    if env.adminPassword.Some? && env.adminPassword.value != "" then
      Some(Credential(env.adminPassword.value, env.Trips(), false))
    else if env.preset.Some? then
      if IsInsecureDefault(env.preset.value) || env.presetRejected then None
      else Some(Credential(env.preset.value, true, true))
    else Some(Credential(env.generated, true, false))
  }

  // ----- the password file -------------------------------------------------------------

  const INSTRUCTIONS := "\n\n# ONE-TIME SETUP\n"

  function Render(p: Password): string { p + INSTRUCTIONS }

  /** The shared volume: the password file and the temporary siblings it is written through. */
  datatype Disk = Disk(target: Option<string>, temps: map<nat, string>)

  /**
   What writing `contents` through the temporary file `temp` leaves, when `limit` bytes can be written
   before an I/O error, `renames` says whether the rename succeeds and `removes` whether a failed
   attempt's clean-up does: the target is wholly old or wholly new.
   */
  function Written(disk: Disk, contents: string, temp: nat, limit: nat, renames: bool, removes: bool): (bool, Disk) {
    if temp in disk.temps then (false, disk)
    else if |contents| <= limit && renames then (true, Disk(Some(contents), disk.temps))
    else if removes then (false, disk)
    else (false, disk.(temps := disk.temps[temp := if |contents| <= limit then contents else contents[..limit]]))
  }

  class Storage {
    var disk: Disk

    /** `write_file_private` */
    method WriteFilePrivate(contents: string, temp: nat, limit: nat, renames: bool, removes: bool) returns (ok: bool)
      modifies this
      ensures (ok, disk) == Written(old(disk), contents, temp, limit, renames, removes)
    {
      if temp in disk.temps { return false; }
      disk := disk.(temps := disk.temps[temp := ""]);
      var k := 0;
      while k < |contents| && k < limit
        invariant k <= |contents| && k <= limit
        invariant disk == old(disk).(temps := old(disk).temps[temp := contents[..k]])
      {
        k := k + 1;
        disk := disk.(temps := disk.temps[temp := contents[..k]]);
      }
      assert old(disk).temps[temp := contents[..k]] - {temp} == old(disk).temps;
      assert k == |contents| ==> contents[..k] == contents;
      if k < |contents| || !renames {
        if removes { disk := disk.(temps := disk.temps - {temp}); }
        return false;
      }
      disk := Disk(Some(disk.temps[temp]), disk.temps - {temp});
      return true;
    }
  }

  // ----- replicas provisioning -----------------------------------------------------------

  datatype Pc =
    | Reading
    | FixingProvider(mustChange: bool, isActive: bool)
    | Arming(mustChange: bool, isActive: bool)
    | Opening(cred: Credential, creating: bool)
    | Writing(cred: Credential, creating: bool, temp: nat, written: nat)
    | Renaming(cred: Credential, creating: bool, temp: nat)
    | Upserting(cred: Credential)
    | UpdatingHash(cred: Credential)
    | Committing
  {
    predicate OnFile() { Opening? || Writing? || Renaming? }
  }

  datatype Phase = Starting | WantsLock | InTx(pc: Pc, view: Users)

  datatype Proc = Proc(env: Env, phase: Phase)

  datatype State = State(users: Users, disk: Disk, lock: Option<nat>, procs: map<nat, Proc>) {
    function At(r: nat, phase: Phase): State
      requires r in procs
    {
      this.(procs := procs[r := procs[r].(phase := phase)])
    }
    /** The replica is done or dead: transaction over, lock free. */
    function Leave(r: nat): State { this.(procs := procs - {r}, lock := if lock == Some(r) then None else lock) }
  }

  /**
   Open and Fail are the outcomes of file operations that are not simply the next
   step; a failed operation cleans its temporary file up or cannot.  Edit is any other use of the database or the volume, between transactions.
   */
  datatype Event =
    | Boot(r: nat, env: Env)
    | Step(r: nat)
    | Open(r: nat, temp: nat)
    | Fail(r: nat, cleaned: bool)
    | Crash(r: nat)
    | Edit(users: Users, disk: Disk)

  predicate BuiltIn(users: Users) {
    ADMIN in users && users[ADMIN].isAdmin && users[ADMIN].external.None?
  }

  predicate LocalAdmin(users: Users) {
    exists name :: name in users && users[name].isAdmin && users[name].external.None?
  }

  predicate Running(s: State, r: nat) {
    r in s.procs && s.procs[r].phase.InTx?
  }

  predicate Enabled(s: State, e: Event) {
    match e
    case Boot(r, _) => r !in s.procs
    case Crash(r) => r in s.procs
    case Edit(_, _) => s.lock.None?
    case Open(r, temp) => Running(s, r) && s.procs[r].phase.pc.Opening? && temp !in s.disk.temps
    case Fail(r, _) => Running(s, r) && s.procs[r].phase.pc.OnFile()
    case Step(r) =>
      && r in s.procs
      && (s.procs[r].phase.WantsLock? ==> s.lock.None?)
      && (s.procs[r].phase.InTx? ==>
            var pc := s.procs[r].phase.pc;
            && !pc.Opening?
            && (pc.Writing? ==> pc.temp in s.disk.temps && pc.written <= |Render(pc.cred.password)|)
            && (pc.Renaming? ==> pc.temp in s.disk.temps)
            && (pc.FixingProvider? || pc.Arming? || pc.UpdatingHash? ==> ADMIN in s.procs[r].phase.view))
  }

  /** The create branch, once no admin was found. */
  function BeginCreate(s: State, r: nat, view: Users): State
    requires r in s.procs
  {
    match Decide(s.procs[r].env)
    case None => s.Leave(r)
    case Some(cred) => s.At(r, InTx(if cred.mustChange && !cred.preset then Opening(cred, true) else Upserting(cred), view))
  }

  /** The maintenance branch, once the provider column is right. */
  function Maintain(s: State, r: nat, view: Users, mustChange: bool, isActive: bool): State
    requires r in s.procs && ADMIN in view
  {
    var env := s.procs[r].env;
    if !mustChange && env.Trips() then s.At(r, InTx(Committing, view[ADMIN := view[ADMIN].(mustChange := true)]))
    else if mustChange && isActive && s.disk.target.None? && env.preset.None? then
      s.At(r, InTx(Opening(Credential(env.generated, true, false), false), view))
    else s.At(r, InTx(Committing, view))
  }

  /** The guarded upsert; a federated or foreign-provider row is left alone and the transaction rolled back. */
  function Upsert(s: State, r: nat, view: Users, cred: Credential): State
    requires r in s.procs
  {
    if ADMIN !in view then
      s.At(r, InTx(Committing, view[ADMIN := User(Some(HashOf(cred.password)), true, cred.mustChange, true, true, None)]))
    else if view[ADMIN].local && view[ADMIN].external.None? then
      s.At(r, InTx(Committing, view[ADMIN := view[ADMIN].(hash := Some(HashOf(cred.password)), mustChange := cred.mustChange)]))
    else s.Leave(r)
  }

  function Advance(s: State, r: nat): State
    requires Enabled(s, Step(r))
  {
    var env := s.procs[r].env;
    match s.procs[r].phase
    case Starting => if env.skip || env.secretBroken then s.Leave(r) else s.At(r, WantsLock)
    case WantsLock => s.(lock := Some(r)).At(r, InTx(Reading, s.users))
    case InTx(pc, view) =>
      match pc
      case Reading =>
        if BuiltIn(view) then s.At(r, InTx(FixingProvider(view[ADMIN].mustChange, view[ADMIN].isActive), view))
        else if LocalAdmin(view) then s.At(r, InTx(Committing, view))
        else BeginCreate(s, r, view)
      case FixingProvider(mustChange, isActive) =>
        var u := view[ADMIN];
        s.At(r, InTx(Arming(mustChange, isActive), if u.external.None? then view[ADMIN := u.(local := true)] else view))
      case Arming(mustChange, isActive) => Maintain(s, r, view, mustChange, isActive)
      case Writing(cred, creating, temp, written) =>
        var text := Render(cred.password);
        if written == |text| then s.At(r, InTx(Renaming(cred, creating, temp), view))
        else s.(disk := s.disk.(temps := s.disk.temps[temp := s.disk.temps[temp] + [text[written]]]))
              .At(r, InTx(Writing(cred, creating, temp, written + 1), view))
      case Renaming(cred, creating, temp) =>
        s.(disk := Disk(Some(s.disk.temps[temp]), s.disk.temps - {temp}))
         .At(r, InTx(if creating then Upserting(cred) else UpdatingHash(cred), view))
      case Upserting(cred) => Upsert(s, r, view, cred)
      case UpdatingHash(cred) =>
        var u := view[ADMIN];
        s.At(r, InTx(Committing, if u.local && u.external.None? then view[ADMIN := u.(hash := Some(HashOf(cred.password)))] else view))
      case Committing => s.(users := view).Leave(r)
      case Opening(_, _) => s  // only Open and Fail apply
  }

  /** A failed file operation: creating aborts, regenerating goes on without the new hash. */
  function Failed(s: State, r: nat, cleaned: bool): State
    requires Enabled(s, Fail(r, cleaned))
  {
    var pc := s.procs[r].phase.pc;
    var s' := if pc.Opening? || !cleaned then s else s.(disk := s.disk.(temps := s.disk.temps - {pc.temp}));
    if pc.creating then s'.Leave(r) else s'.At(r, InTx(Committing, s.procs[r].phase.view))
  }

  function Next(s: State, e: Event): State
    requires Enabled(s, e)
  {
    match e
    case Boot(r, env) => s.(procs := s.procs[r := Proc(env, Starting)])
    case Crash(r) => s.Leave(r)
    case Edit(users, disk) => s.(users := users, disk := disk)
    case Open(r, temp) =>
      var pc := s.procs[r].phase.pc;
      s.(disk := s.disk.(temps := s.disk.temps[temp := ""])).At(r, InTx(Writing(pc.cred, pc.creating, temp, 0), s.procs[r].phase.view))
    case Fail(r, cleaned) => Failed(s, r, cleaned)
    case Step(r) => Advance(s, r)
  }

  predicate IsRun(s: State, es: seq<Event>)
    decreases |es|
  {
    es == [] || (Enabled(s, es[0]) && IsRun(Next(s, es[0]), es[1..]))
  }

  function After(s: State, es: seq<Event>): State
    requires IsRun(s, es)
    decreases |es|
  {
    if es == [] then s else After(Next(s, es[0]), es[1..])
  }

  // ----- invariants -----------------------------------------------------------------------

  ghost predicate LockDiscipline(s: State) {
    && (forall r :: r in s.procs ==> (s.procs[r].phase.InTx? <==> s.lock == Some(r)))
    && (s.lock.Some? ==> s.lock.value in s.procs)
  }

  /** Rows provisioning must never write: every one but `admin`, every federated one, and an `admin` of another
      provider that is no administrator. */
  predicate Untouchable(users: Users, name: string) {
    name in users && (name != ADMIN || users[name].external.Some? || (!users[name].isAdmin && !users[name].local))
  }

  ghost predicate SparesOthers(users: Users, users': Users) {
    && (forall name :: Untouchable(users, name) ==> name in users' && users'[name] == users[name])
    && (forall name :: name in users' ==> name in users || name == ADMIN)
  }

  /** How a built-in admin may differ in a transaction's view. */
  ghost predicate SparesAdmin(env: Env, users: Users, view: Users) {
    && (BuiltIn(users) ==>
      && BuiltIn(view) && view[ADMIN].isActive == users[ADMIN].isActive
      && (view[ADMIN].hash != users[ADMIN].hash ==> users[ADMIN].mustChange && users[ADMIN].isActive && env.preset.None?)
      && (view[ADMIN].mustChange != users[ADMIN].mustChange ==> !users[ADMIN].mustChange && env.Trips()))
    && (LocalAdmin(users) && !BuiltIn(users) ==> view == users)
  }

  /** The view after the provider column was fixed. */
  predicate Fixed(users: Users, view: Users) {
    BuiltIn(users) && view == users[ADMIN := users[ADMIN].(local := true)]
  }

  ghost predicate TempHolds(disk: Disk, pc: Pc) {
    && (pc.Writing? ==> pc.written <= |Render(pc.cred.password)| && pc.temp in disk.temps && disk.temps[pc.temp] == Render(pc.cred.password)[..pc.written])
    && (pc.Renaming? ==> pc.temp in disk.temps && disk.temps[pc.temp] == Render(pc.cred.password))
  }

  ghost predicate TxOk(env: Env, users: Users, disk: Disk, pc: Pc, view: Users) {
    && TempHolds(disk, pc)
    && match pc
       case Reading => view == users
       case FixingProvider(mustChange, isActive) =>
         view == users && BuiltIn(users) && mustChange == users[ADMIN].mustChange && isActive == users[ADMIN].isActive
       case Arming(mustChange, isActive) =>
         Fixed(users, view) && mustChange == users[ADMIN].mustChange && isActive == users[ADMIN].isActive
       case Upserting(cred) => view == users && !LocalAdmin(users)
       case UpdatingHash(cred) => Fixed(users, view) && users[ADMIN].mustChange && users[ADMIN].isActive && env.preset.None?
       case Committing => SparesOthers(users, view) && SparesAdmin(env, users, view)
       case _ =>
         if pc.creating then view == users && !LocalAdmin(users)
         else Fixed(users, view) && users[ADMIN].mustChange && users[ADMIN].isActive && env.preset.None?
  }

  ghost predicate Inv(s: State) {
    && LockDiscipline(s)
    && forall r :: Running(s, r) ==> TxOk(s.procs[r].env, s.users, s.disk, s.procs[r].phase.pc, s.procs[r].phase.view)
  }

  /** The replica an event belongs to is the only one whose transaction it concerns. */
  lemma BystanderKept(s: State, e: Event, q: nat)
    requires Inv(s) && Enabled(s, e) && Running(s, q) && (e.Edit? || q != e.r)
    ensures Next(s, e).users == s.users && Next(s, e).disk == s.disk
  {
    assert s.lock == Some(q);
  }

  /** The acting replica's temporary file holds what it has written so far. */
  lemma TempKept(s: State, e: Event)
    requires Inv(s) && Enabled(s, e) && !e.Edit? && Running(Next(s, e), e.r)
    ensures TempHolds(Next(s, e).disk, Next(s, e).procs[e.r].phase.pc)
  {
    hide SparesOthers, SparesAdmin, Fixed, LocalAdmin, BuiltIn, IsInsecureDefault, LockDiscipline;
    if Running(s, e.r) {
      var p := s.procs[e.r];
      assert TxOk(p.env, s.users, s.disk, p.phase.pc, p.phase.view);
      if e.Step? && p.phase.pc.Writing? {
        var text := Render(p.phase.pc.cred.password);
        var k := p.phase.pc.written;
        assert k < |text| ==> text[..k + 1] == text[..k] + [text[k]];
        assert text[..|text|] == text;
      }
    }
  }

  /** The file operations leave the view and what it rests on as they were. */
  lemma FileKept(s: State, e: Event)
    requires Inv(s) && Enabled(s, e) && !e.Edit? && !e.Boot? && Running(Next(s, e), e.r)
    requires Running(s, e.r) && s.procs[e.r].phase.pc.OnFile()
    ensures var s' := Next(s, e); TxOk(s'.procs[e.r].env, s'.users, s'.disk, s'.procs[e.r].phase.pc, s'.procs[e.r].phase.view)
  {
    hide TempHolds, IsInsecureDefault, LockDiscipline, LocalAdmin;
    TempKept(s, e);
    var p := s.procs[e.r];
    assert TxOk(p.env, s.users, s.disk, p.phase.pc, p.phase.view);
  }

  /** What the maintenance branch may write over the built-in admin. */
  lemma MaintenanceSpares(env: Env, users: Users, view: Users, u: User)
    requires Fixed(users, view) && u.isAdmin && u.external.None? && u.isActive == users[ADMIN].isActive
    requires u.hash != users[ADMIN].hash ==> users[ADMIN].mustChange && users[ADMIN].isActive && env.preset.None?
    requires u.mustChange != users[ADMIN].mustChange ==> !users[ADMIN].mustChange && env.Trips()
    ensures SparesOthers(users, view[ADMIN := u]) && SparesAdmin(env, users, view[ADMIN := u])
  {
    hide IsInsecureDefault;
  }

  /** What the create branch may write where there is no local admin. */
  lemma CreationSpares(env: Env, users: Users, u: User)
    requires !LocalAdmin(users) && (ADMIN in users ==> users[ADMIN].external.None? && users[ADMIN].local)
    ensures SparesOthers(users, users[ADMIN := u]) && SparesAdmin(env, users, users[ADMIN := u])
  {
  }

  lemma NothingSpares(env: Env, users: Users)
    ensures SparesOthers(users, users) && SparesAdmin(env, users, users)
  {
  }

  /** A statement keeps the view within what provisioning may change. */
  lemma StatementKept(s: State, r: nat)
    requires Inv(s) && Enabled(s, Step(r)) && Running(Next(s, Step(r)), r) && (Running(s, r) ==> !s.procs[r].phase.pc.OnFile())
    ensures var s' := Next(s, Step(r)); TxOk(s'.procs[r].env, s'.users, s'.disk, s'.procs[r].phase.pc, s'.procs[r].phase.view)
  {
    TempKept(s, Step(r));
    hide TempHolds, LockDiscipline, SparesOthers, SparesAdmin, LocalAdmin, IsInsecureDefault;
    var p := s.procs[r];
    if p.phase.InTx? {
      var view := p.phase.view;
      assert Running(s, r) && TxOk(p.env, s.users, s.disk, p.phase.pc, view);
      match p.phase.pc
      case Reading => NothingSpares(p.env, view);
      case Arming(_, _) =>
        assert view[ADMIN := view[ADMIN]] == view;
        MaintenanceSpares(p.env, s.users, view, view[ADMIN]);
        if !view[ADMIN].mustChange && p.env.Trips() { MaintenanceSpares(p.env, s.users, view, view[ADMIN].(mustChange := true)); }
      case UpdatingHash(cred) => MaintenanceSpares(p.env, s.users, view, view[ADMIN].(hash := Some(HashOf(cred.password))));
      case Upserting(cred) => CreationSpares(p.env, view, Next(s, Step(r)).procs[r].phase.view[ADMIN]);
      case _ =>
    }
  }

  lemma ActorKept(s: State, e: Event)
    requires Inv(s) && Enabled(s, e) && !e.Edit? && Running(Next(s, e), e.r)
    ensures var s' := Next(s, e); TxOk(s'.procs[e.r].env, s'.users, s'.disk, s'.procs[e.r].phase.pc, s'.procs[e.r].phase.view)
  {
    hide TxOk;
    if Running(s, e.r) && s.procs[e.r].phase.pc.OnFile() { FileKept(s, e); } else { StatementKept(s, e.r); }
  }

  lemma LockKept(s: State, e: Event)
    requires LockDiscipline(s) && Enabled(s, e)
    ensures LockDiscipline(Next(s, e))
  {
    hide BuiltIn, LocalAdmin, IsInsecureDefault, Render;
  }

  lemma InvStep(s: State, e: Event)
    requires Inv(s) && Enabled(s, e)
    ensures Inv(Next(s, e))
  {
    LockKept(s, e);
    hide TxOk;
    var s' := Next(s, e);
    forall r | Running(s', r) ensures TxOk(s'.procs[r].env, s'.users, s'.disk, s'.procs[r].phase.pc, s'.procs[r].phase.view) {
      if e.Edit? || r != e.r {
        assert Running(s, r) && s'.procs[r] == s.procs[r];
        BystanderKept(s, e, r);
      } else {
        ActorKept(s, e);
      }
    }
  }

  lemma {:induction false} InvRun(s: State, es: seq<Event>)
    requires Inv(s) && IsRun(s, es)
    ensures Inv(After(s, es))
    decreases |es|
  {
    if es != [] {
      InvStep(s, es[0]);
      InvRun(Next(s, es[0]), es[1..]);
    }
  }

  // ----- what provisioning never overwrites ---------------------------------------------

  ghost predicate ProvisioningOnly(es: seq<Event>) {
    forall i :: 0 <= i < |es| ==> !es[i].Edit?
  }

  /** Every replica up, and every boot of the run, satisfies `ok`. */
  ghost predicate AllEnvs(s: State, es: seq<Event>, ok: Env -> bool) {
    && (forall r :: r in s.procs ==> ok(s.procs[r].env))
    && (forall i :: 0 <= i < |es| && es[i].Boot? ==> ok(es[i].env))
  }

  lemma AllEnvsNext(s: State, es: seq<Event>, ok: Env -> bool)
    requires es != [] && Enabled(s, es[0]) && AllEnvs(s, es, ok)
    ensures AllEnvs(Next(s, es[0]), es[1..], ok)
  {
    forall i | 0 <= i < |es[1..]| && es[1..][i].Boot? ensures ok(es[1..][i].env) { assert es[i + 1] == es[1..][i]; }
  }

  /** What one provisioning event can do to the table: a commit of a checked view, or nothing. */
  lemma CommitsAreChecked(s: State, e: Event)
    requires Inv(s) && Enabled(s, e) && !e.Edit?
    ensures SparesOthers(s.users, Next(s, e).users)
    ensures Next(s, e).users == s.users || (e.r in s.procs && SparesAdmin(s.procs[e.r].env, s.users, Next(s, e).users))
  {
    if e.Step? && Running(s, e.r) {
      assert TxOk(s.procs[e.r].env, s.users, s.disk, s.procs[e.r].phase.pc, s.procs[e.r].phase.view);
    }
  }

  /** Over every run: no federated row and no row but `admin` is ever modified or added. */
  lemma {:induction false} OthersNeverModified(s: State, es: seq<Event>)
    requires Inv(s) && IsRun(s, es) && ProvisioningOnly(es)
    ensures SparesOthers(s.users, After(s, es).users)
    decreases |es|
  {
    if es != [] {
      var s' := Next(s, es[0]);
      CommitsAreChecked(s, es[0]);
      InvStep(s, es[0]);
      assert forall i :: 0 <= i < |es[1..]| ==> es[1..][i] == es[i + 1];
      OthersNeverModified(s', es[1..]);
      forall name | Untouchable(s.users, name) ensures Untouchable(s'.users, name) {}
    }
  }

  /** Once the admin has settled and ADMIN_PASSWORD never trips, hash and flag never change again. */
  lemma {:induction false} SettledAdminStays(s: State, es: seq<Event>)
    requires Inv(s) && IsRun(s, es) && ProvisioningOnly(es)
    requires BuiltIn(s.users) && !s.users[ADMIN].mustChange
    requires AllEnvs(s, es, (env: Env) => !env.Trips())
    ensures BuiltIn(After(s, es).users)
    ensures After(s, es).users[ADMIN].hash == s.users[ADMIN].hash && !After(s, es).users[ADMIN].mustChange
    decreases |es|
  {
    if es != [] {
      CommitsAreChecked(s, es[0]);
      InvStep(s, es[0]);
      AllEnvsNext(s, es, (env: Env) => !env.Trips());
      assert forall i :: 0 <= i < |es[1..]| ==> es[1..][i] == es[i + 1];
      SettledAdminStays(Next(s, es[0]), es[1..]);
    }
  }

  /** While a preset resolves at every boot, the hash of an existing built-in admin never changes. */
  lemma {:induction false} PresetKeepsHash(s: State, es: seq<Event>)
    requires Inv(s) && IsRun(s, es) && ProvisioningOnly(es) && BuiltIn(s.users)
    requires AllEnvs(s, es, (env: Env) => env.preset.Some?)
    ensures BuiltIn(After(s, es).users) && After(s, es).users[ADMIN].hash == s.users[ADMIN].hash
    decreases |es|
  {
    if es != [] {
      CommitsAreChecked(s, es[0]);
      InvStep(s, es[0]);
      AllEnvsNext(s, es, (env: Env) => env.preset.Some?);
      assert forall i :: 0 <= i < |es[1..]| ==> es[1..][i] == es[i + 1];
      PresetKeepsHash(Next(s, es[0]), es[1..]);
    }
  }

  /** A deactivated built-in admin keeps its hash and stays deactivated. */
  lemma {:induction false} InactiveKeepsHash(s: State, es: seq<Event>)
    requires Inv(s) && IsRun(s, es) && ProvisioningOnly(es) && BuiltIn(s.users) && !s.users[ADMIN].isActive
    ensures BuiltIn(After(s, es).users) && !After(s, es).users[ADMIN].isActive && After(s, es).users[ADMIN].hash == s.users[ADMIN].hash
    decreases |es|
  {
    if es != [] {
      CommitsAreChecked(s, es[0]);
      InvStep(s, es[0]);
      assert forall i :: 0 <= i < |es[1..]| ==> es[1..][i] == es[i + 1];
      InactiveKeepsHash(Next(s, es[0]), es[1..]);
    }
  }

  /** Where another local administrator exists and no built-in one, the table never changes. */
  lemma {:induction false} OtherAdminKeepsTable(s: State, es: seq<Event>)
    requires Inv(s) && IsRun(s, es) && ProvisioningOnly(es) && LocalAdmin(s.users) && !BuiltIn(s.users)
    ensures After(s, es).users == s.users
    decreases |es|
  {
    hide LocalAdmin, BuiltIn, SparesOthers;
    if es != [] {
      CommitsAreChecked(s, es[0]);
      InvStep(s, es[0]);
      assert forall i :: 0 <= i < |es[1..]| ==> es[1..][i] == es[i + 1];
      OtherAdminKeepsTable(Next(s, es[0]), es[1..]);
    }
  }

  /** Nobody is in a transaction, and every replica up or booting skips provisioning or cannot read its secret. */
  ghost predicate Skipping(s: State) {
    forall r :: r in s.procs ==> !s.procs[r].phase.InTx? && !s.procs[r].phase.WantsLock? && (s.procs[r].env.skip || s.procs[r].env.secretBroken)
  }

  /** Such boots change neither the table nor the volume. */
  lemma {:induction false} SkippedBootsChangeNothing(s: State, es: seq<Event>)
    requires IsRun(s, es) && ProvisioningOnly(es) && Skipping(s)
    requires forall i :: 0 <= i < |es| && es[i].Boot? ==> es[i].env.skip || es[i].env.secretBroken
    ensures After(s, es).users == s.users && After(s, es).disk == s.disk
    decreases |es|
  {
    if es != [] {
      assert forall i :: 0 <= i < |es[1..]| ==> es[1..][i] == es[i + 1];
      SkippedBootsChangeNothing(Next(s, es[0]), es[1..]);
    }
  }

  ghost predicate Reaches(s: State, es: seq<Event>, s': State) {
    IsRun(s, es) && After(s, es) == s'
  }

  lemma SettledArming(users: Users, disk: Disk, env: Env, view: Users, end: Users)
    requires ADMIN in users && ADMIN in view && end == if env.Trips() then view[ADMIN := view[ADMIN].(mustChange := true)] else view
    ensures Reaches(State(users, disk, Some(0), map[0 := Proc(env, InTx(Arming(false, users[ADMIN].isActive), view))]),
                    [Step(0), Step(0)], State(end, disk, None, map[]))
  {
    hide IsInsecureDefault, LocalAdmin, BeginCreate, Upsert, Failed, Render;
    var s5 := State(users, disk, Some(0), map[0 := Proc(env, InTx(Arming(false, users[ADMIN].isActive), view))]);
    var s6 := State(users, disk, Some(0), map[0 := Proc(env, InTx(Committing, end))]);
    Prepend(s6, Step(0), State(end, disk, None, map[]), []);
    Prepend(s5, Step(0), s6, [Step(0)]);
  }

  /** The transaction of an undisturbed boot over a settled admin. */
  lemma SettledTransaction(users: Users, disk: Disk, env: Env)
    requires BuiltIn(users) && !users[ADMIN].mustChange
    ensures Reaches(State(users, disk, Some(0), map[0 := Proc(env, InTx(Reading, users))]),
                    [Step(0), Step(0), Step(0), Step(0)],
                    State(users[ADMIN := users[ADMIN].(local := true, mustChange := env.Trips())], disk, None, map[]))
  {
    hide IsInsecureDefault, LocalAdmin, BeginCreate, Upsert, Failed, Render;
    var active := users[ADMIN].isActive;
    var view := users[ADMIN := users[ADMIN].(local := true)];
    var end := users[ADMIN := users[ADMIN].(local := true, mustChange := env.Trips())];
    assert end == if env.Trips() then view[ADMIN := view[ADMIN].(mustChange := true)] else view;
    var s4 := State(users, disk, Some(0), map[0 := Proc(env, InTx(FixingProvider(false, active), users))]);
    var s5 := State(users, disk, Some(0), map[0 := Proc(env, InTx(Arming(false, active), view))]);
    SettledArming(users, disk, env, view, end);
    Prepend(s4, Step(0), s5, [Step(0), Step(0)]);
    Prepend(State(users, disk, Some(0), map[0 := Proc(env, InTx(Reading, users))]), Step(0), s4, [Step(0), Step(0), Step(0)]);
  }

  /** Exactly a tripping ADMIN_PASSWORD re-arms a settled admin, as an undisturbed boot shows. */
  lemma BootRearmsIffTrips(users: Users, disk: Disk, env: Env)
    requires BuiltIn(users) && !users[ADMIN].mustChange && !env.skip && !env.secretBroken
    ensures Reaches(State(users, disk, None, map[]),
                    [Boot(0, env), Step(0), Step(0)] + [Step(0), Step(0), Step(0), Step(0)],
                    State(users[ADMIN := users[ADMIN].(local := true, mustChange := env.Trips())], disk, None, map[]))
  {
    var tx := [Step(0), Step(0), Step(0), Step(0)];
    SettledTransaction(users, disk, env);
    var s0 := State(users, disk, None, map[]);
    var s1 := State(users, disk, None, map[0 := Proc(env, Starting)]);
    var s2 := State(users, disk, None, map[0 := Proc(env, WantsLock)]);
    var s3 := State(users, disk, Some(0), map[0 := Proc(env, InTx(Reading, users))]);
    Prepend(s2, Step(0), s3, tx);
    Prepend(s1, Step(0), s2, [Step(0)] + tx);
    Prepend(s0, Boot(0, env), s1, [Step(0)] + ([Step(0)] + tx));
    assert [Boot(0, env)] + ([Step(0)] + ([Step(0)] + tx)) == [Boot(0, env), Step(0), Step(0)] + tx;
  }

  lemma Prepend(s: State, e: Event, s': State, es: seq<Event>)
    requires Enabled(s, e) && Next(s, e) == s' && IsRun(s', es)
    ensures IsRun(s, [e] + es) && After(s, [e] + es) == After(s', es)
  {
    assert ([e] + es)[1..] == es;
  }

  // ----- the machine's file operations are those of the writer -------------------------------

  lemma Continue(s: State, e: Event, s': State, es: seq<Event>, s'': State)
    requires Enabled(s, e) && Next(s, e) == s' && Reaches(s', es, s'')
    ensures Reaches(s, [e] + es, s'')
  {
    Prepend(s, e, s', es);
  }

  /** The state with the temporary file of `r` holding the first `n` bytes. */
  function WritingAt(s: State, r: nat, cred: Credential, creating: bool, temp: nat, n: nat, view: Users): State
    requires r in s.procs && n <= |Render(cred.password)|
  {
    s.(disk := s.disk.(temps := s.disk.temps[temp := Render(cred.password)[..n]])).At(r, InTx(Writing(cred, creating, temp, n), view))
  }

  lemma WriteByte(s: State, r: nat, cred: Credential, creating: bool, temp: nat, n: nat, view: Users)
    requires r in s.procs && n < |Render(cred.password)|
    ensures Enabled(WritingAt(s, r, cred, creating, temp, n, view), Step(r))
    ensures Next(WritingAt(s, r, cred, creating, temp, n, view), Step(r)) == WritingAt(s, r, cred, creating, temp, n + 1, view)
  {
    hide BuiltIn, LocalAdmin, IsInsecureDefault, Render;
    var text, w := Render(cred.password), WritingAt(s, r, cred, creating, temp, n, view);
    assert text[..n + 1] == text[..n] + [text[n]];
    assert w.disk.temps[temp := text[..n + 1]] == s.disk.temps[temp := text[..n + 1]];
    var ph := InTx(Writing(cred, creating, temp, n + 1), view);
    assert w.procs[r := Proc(s.procs[r].env, ph)] == s.procs[r := Proc(s.procs[r].env, ph)];
  }

  lemma {:induction false} WriteBytes(s: State, r: nat, cred: Credential, creating: bool, temp: nat, m: nat, n: nat, view: Users, es: seq<Event>, s': State)
    returns (all: seq<Event>)
    requires r in s.procs && m <= n <= |Render(cred.password)|
    requires Reaches(WritingAt(s, r, cred, creating, temp, n, view), es, s')
    ensures Reaches(WritingAt(s, r, cred, creating, temp, m, view), all, s')
    decreases n - m
  {
    hide Render, WritingAt, Next, Reaches, Enabled;
    all := es;
    if m < n {
      var rest := WriteBytes(s, r, cred, creating, temp, m + 1, n, view, es, s');
      WriteByte(s, r, cred, creating, temp, m, view);
      var w := WritingAt(s, r, cred, creating, temp, m, view);
      Continue(w, Step(r), WritingAt(s, r, cred, creating, temp, m + 1, view), rest, s');
      all := [Step(r)] + rest;
    }
  }

  /** Where the writer leaves replica `r`, whose transaction was about to open the file. */
  function FileDone(s: State, r: nat, ok: bool, disk: Disk): State
    requires Running(s, r) && s.procs[r].phase.pc.Opening?
  {
    var pc, view, s' := s.procs[r].phase.pc, s.procs[r].phase.view, s.(disk := disk);
    if ok then s'.At(r, InTx(if pc.creating then Upserting(pc.cred) else UpdatingHash(pc.cred), view))
    else if pc.creating then s'.Leave(r)
    else s'.At(r, InTx(Committing, view))
  }

  lemma OpenFile(s: State, r: nat, temp: nat)
    requires Running(s, r) && s.procs[r].phase.pc.Opening? && temp !in s.disk.temps
    ensures var ph := s.procs[r].phase;
            Enabled(s, Open(r, temp)) && Next(s, Open(r, temp)) == WritingAt(s, r, ph.pc.cred, ph.pc.creating, temp, 0, ph.view)
  {
    assert Render(s.procs[r].phase.pc.cred.password)[..0] == "";
  }

  /** An operation fails after `n` bytes, the last of them perhaps at the rename. */
  lemma FailAt(s: State, r: nat, temp: nat, n: nat, cleaned: bool)
    requires Running(s, r) && s.procs[r].phase.pc.Opening? && temp !in s.disk.temps && n <= |Render(s.procs[r].phase.pc.cred.password)|
    ensures var ph, text := s.procs[r].phase, Render(s.procs[r].phase.pc.cred.password);
            var w := WritingAt(s, r, ph.pc.cred, ph.pc.creating, temp, n, ph.view);
            var left := FileDone(s, r, false, if cleaned then s.disk else s.disk.(temps := s.disk.temps[temp := text[..n]]));
            && Reaches(w, [Fail(r, cleaned)], left)
            && (n == |text| ==> Reaches(w, [Step(r), Fail(r, cleaned)], left))
  {
    hide BuiltIn, LocalAdmin, IsInsecureDefault, Render;
    var ph, text := s.procs[r].phase, Render(s.procs[r].phase.pc.cred.password);
    var pc, view := ph.pc, ph.view;
    var w := WritingAt(s, r, pc.cred, pc.creating, temp, n, view);
    var left := FileDone(s, r, false, if cleaned then s.disk else w.disk);
    assert w.disk.temps - {temp} == s.disk.temps;
    assert w.procs - {r} == s.procs - {r};
    assert w.procs[r := Proc(s.procs[r].env, InTx(Committing, view))] == s.procs[r := Proc(s.procs[r].env, InTx(Committing, view))];
    assert Next(w, Fail(r, cleaned)) == left;
    Continue(w, Fail(r, cleaned), left, [], left);
    assert [Fail(r, cleaned)] + [] == [Fail(r, cleaned)];
    if n == |text| {
      var v := w.At(r, InTx(Renaming(pc.cred, pc.creating, temp), view));
      assert v.procs - {r} == s.procs - {r};
      assert v.procs[r := Proc(s.procs[r].env, InTx(Committing, view))] == s.procs[r := Proc(s.procs[r].env, InTx(Committing, view))];
      assert Next(v, Fail(r, cleaned)) == left;
      Continue(v, Fail(r, cleaned), left, [], left);
      Continue(w, Step(r), v, [Fail(r, cleaned)], left);
      assert [Step(r)] + [Fail(r, cleaned)] == [Step(r), Fail(r, cleaned)];
    }
  }

  lemma RenameAt(s: State, r: nat, temp: nat)
    requires Running(s, r) && s.procs[r].phase.pc.Opening? && temp !in s.disk.temps
    ensures var ph, text := s.procs[r].phase, Render(s.procs[r].phase.pc.cred.password);
            Reaches(WritingAt(s, r, ph.pc.cred, ph.pc.creating, temp, |text|, ph.view), [Step(r), Step(r)],
                    FileDone(s, r, true, Disk(Some(text), s.disk.temps)))
  {
    hide BuiltIn, LocalAdmin, IsInsecureDefault, Render;
    var ph, text := s.procs[r].phase, Render(s.procs[r].phase.pc.cred.password);
    var pc, view := ph.pc, ph.view;
    var w := WritingAt(s, r, pc.cred, pc.creating, temp, |text|, view);
    var v := w.At(r, InTx(Renaming(pc.cred, pc.creating, temp), view));
    var done := FileDone(s, r, true, Disk(Some(text), s.disk.temps));
    assert text[..|text|] == text && w.disk.temps - {temp} == s.disk.temps;
    var end := Proc(s.procs[r].env, InTx(if pc.creating then Upserting(pc.cred) else UpdatingHash(pc.cred), view));
    assert v.procs[r := end] == s.procs[r := end];
    assert Next(v, Step(r)) == done;
    Continue(v, Step(r), done, [], done);
    Continue(w, Step(r), v, [Step(r)], done);
  }

  /** For every point of failure, the machine has the run that `write_file_private` is. */
  lemma WriterRun(s: State, r: nat, temp: nat, limit: nat, renames: bool, removes: bool) returns (es: seq<Event>)
    requires Running(s, r) && s.procs[r].phase.pc.Opening?
    ensures var (ok, disk) := Written(s.disk, Render(s.procs[r].phase.pc.cred.password), temp, limit, renames, removes);
            Reaches(s, es, FileDone(s, r, ok, disk))
  {
    var ph, text := s.procs[r].phase, Render(s.procs[r].phase.pc.cred.password);
    var pc, view := ph.pc, ph.view;
    var (ok, disk) := Written(s.disk, text, temp, limit, renames, removes);
    var end := FileDone(s, r, ok, disk);
    if temp in s.disk.temps {
      NeverOpened(s, r);
      return [Fail(r, true)];
    }
    OpenFile(s, r, temp);
    var n := if |text| <= limit then |text| else limit;
    if ok { RenameAt(s, r, temp); } else { FailAt(s, r, temp, n, removes); }
    var last := if ok then [Step(r), Step(r)] else if |text| <= limit then [Step(r), Fail(r, removes)] else [Fail(r, removes)];
    assert |text| <= limit ==> text[..|text|] == text;
    hide Render, WritingAt, FileDone, Next, Reaches, Enabled;
    var rest := WriteBytes(s, r, pc.cred, pc.creating, temp, 0, n, view, last, end);
    Continue(s, Open(r, temp), WritingAt(s, r, pc.cred, pc.creating, temp, 0, view), rest, end);
    es := [Open(r, temp)] + rest;
  }

  lemma NeverOpened(s: State, r: nat)
    requires Running(s, r) && s.procs[r].phase.pc.Opening?
    ensures Reaches(s, [Fail(r, true)], FileDone(s, r, false, s.disk))
  {
    Continue(s, Fail(r, true), FileDone(s, r, false, s.disk), [], FileDone(s, r, false, s.disk));
  }

  // ----- the file matches the hash --------------------------------------------------------

  /** The target is only ever replaced as a whole, by the rendering of the acting replica's password. */
  lemma TargetOldOrNew(s: State, e: Event)
    requires Inv(s) && Enabled(s, e) && !e.Edit? && Next(s, e).disk.target != s.disk.target
    ensures e.Step? && Running(s, e.r) && s.procs[e.r].phase.pc.Renaming?
    ensures Next(s, e).disk.target == Some(Render(s.procs[e.r].phase.pc.cred.password))
  {
    assert TxOk(s.procs[e.r].env, s.users, s.disk, s.procs[e.r].phase.pc, s.procs[e.r].phase.view);
  }

  /** The one admin row this install creates. */
  function FirstAdmin(p: Password): User {
    User(Some(HashOf(p)), true, true, true, true, None)
  }

  /** The admin exists, and the file holds its password. */
  ghost predicate Sealed(s: State, p: Password) {
    s.users == map[ADMIN := FirstAdmin(p)] && s.disk.target == Some(Render(p))
  }

  /** Where a transaction of an unconfigured boot can stand. */
  ghost predicate FirstBootTx(s: State, pc: Pc, view: Users) {
    if s.users == map[] then
      match pc
      case Reading => view == map[]
      case Opening(cred, creating) => view == map[] && creating && cred.mustChange && !cred.preset
      case Writing(cred, creating, _, _) => view == map[] && creating && cred.mustChange && !cred.preset
      case Renaming(cred, creating, _) => view == map[] && creating && cred.mustChange && !cred.preset
      case Upserting(cred) => view == map[] && cred.mustChange && s.disk.target == Some(Render(cred.password))
      case Committing => exists p :: view == map[ADMIN := FirstAdmin(p)] && s.disk.target == Some(Render(p))
      case _ => false
    else view == s.users && (pc.Reading? || pc.FixingProvider? || pc.Arming? || pc.Committing?)
  }

  ghost predicate FirstInstall(s: State) {
    && Inv(s)
    && (s.users == map[] || exists p :: Sealed(s, p))
    && (forall r :: r in s.procs ==> s.procs[r].env.Unset())
    && (forall r :: Running(s, r) ==> FirstBootTx(s, s.procs[r].phase.pc, s.procs[r].phase.view))
  }

  lemma UnsetNeverTrips(env: Env)
    requires env.Unset()
    ensures !env.Trips() && Decide(env) == Some(Credential(env.generated, true, false))
  {
    if env.adminPassword.Some? {
      forall i | 0 <= i < |INSECURE_DEFAULTS| ensures !EqIgnoreCase(INSECURE_DEFAULTS[i], "") {}
    }
  }

  /** With nothing in the table yet, the acting replica creates the admin or leaves it so. */
  lemma EmptyTableActor(s: State, e: Event)
    requires FirstInstall(s) && Enabled(s, e) && !e.Edit? && e.r in s.procs && s.users == map[]
    ensures var s' := Next(s, e);
            && (s'.users == map[] || exists p :: Sealed(s', p))
            && (Running(s', e.r) ==> s'.users == map[] && FirstBootTx(s', s'.procs[e.r].phase.pc, s'.procs[e.r].phase.view))
  {
    var s' := Next(s, e);
    var p := s.procs[e.r];
    UnsetNeverTrips(p.env);
    if Running(s, e.r) {
      assert FirstBootTx(s, p.phase.pc, p.phase.view);
      assert TxOk(p.env, s.users, s.disk, p.phase.pc, p.phase.view);
      if e.Step? && p.phase.pc.Committing? {
        var q :| p.phase.view == map[ADMIN := FirstAdmin(q)] && s.disk.target == Some(Render(q));
        assert Sealed(s', q);
      } else if e.Step? && p.phase.pc.Upserting? {
        assert s'.procs[e.r].phase.view == map[ADMIN := FirstAdmin(p.phase.pc.cred.password)];
      }
    }
  }

  /** With the admin there, the acting replica changes nothing. */
  lemma SealedActor(s: State, e: Event, q: Password)
    requires FirstInstall(s) && Enabled(s, e) && !e.Edit? && e.r in s.procs && Sealed(s, q)
    ensures var s' := Next(s, e);
            && Sealed(s', q)
            && (Running(s', e.r) ==> FirstBootTx(s', s'.procs[e.r].phase.pc, s'.procs[e.r].phase.view))
  {
    var p := s.procs[e.r];
    UnsetNeverTrips(p.env);
    if Running(s, e.r) {
      assert FirstBootTx(s, p.phase.pc, p.phase.view);
      assert TxOk(p.env, s.users, s.disk, p.phase.pc, p.phase.view);
      assert s.users[ADMIN := s.users[ADMIN].(local := true)] == s.users;
    }
  }

  lemma FirstInstallStep(s: State, e: Event)
    requires FirstInstall(s) && Enabled(s, e) && !e.Edit? && (e.Boot? ==> e.env.Unset())
    ensures FirstInstall(Next(s, e))
    ensures s.users != map[] ==> Next(s, e).users == s.users && Next(s, e).disk.target == s.disk.target
  {
    InvStep(s, e);
    ActorOnly(s, e);
    hide Next, Inv, FirstBootTx, Env.Unset;
    var s' := Next(s, e);
    if s.users == map[] {
      if e.r in s.procs { EmptyTableActor(s, e); }
    } else {
      var q :| Sealed(s, q);
      if e.r in s.procs { SealedActor(s, e, q); }
      assert Sealed(s', q);
    }
    forall r | Running(s', r) && r != e.r ensures FirstBootTx(s', s'.procs[r].phase.pc, s'.procs[r].phase.view) {
      assert Running(s, r) && s'.procs[r] == s.procs[r];
      BystanderKept(s, e, r);
      SameTables(s, s', s.procs[r].phase);
    }
  }

  /** An event concerns one replica, and a boot nothing else. */
  lemma ActorOnly(s: State, e: Event)
    requires Enabled(s, e) && !e.Edit?
    ensures var s' := Next(s, e);
            && (forall r :: r != e.r ==> (r in s'.procs <==> r in s.procs) && (r in s'.procs ==> s'.procs[r] == s.procs[r]))
            && (e.r in s'.procs ==> s'.procs[e.r].env == if e.Boot? then e.env else s.procs[e.r].env)
            && (e.Boot? <==> e.r !in s.procs)
            && (e.Boot? ==> s'.users == s.users && s'.disk == s.disk && !Running(s', e.r))
  {
    hide IsInsecureDefault, LocalAdmin, BuiltIn, Render;
  }

  lemma SameTables(s: State, s': State, phase: Phase)
    requires phase.InTx? && FirstBootTx(s, phase.pc, phase.view) && s'.users == s.users && s'.disk == s.disk
    ensures FirstBootTx(s', phase.pc, phase.view)
  {
  }

  /** Only provisioning, and no boot has ADMIN_PASSWORD or a preset. */
  ghost predicate UnconfiguredBoots(es: seq<Event>) {
    ProvisioningOnly(es) && forall i :: 0 <= i < |es| && es[i].Boot? ==> es[i].env.Unset()
  }

  /**
   From an empty table, unconfigured boots crashing anywhere: the table stays
   empty or holds one admin whose password is in the file, and once it is there
   neither the row nor the file ever changes again.
   */
  lemma {:induction false} FirstInstallRun(s: State, es: seq<Event>)
    requires FirstInstall(s) && IsRun(s, es) && UnconfiguredBoots(es)
    ensures FirstInstall(After(s, es))
    ensures s.users != map[] ==> After(s, es).users == s.users && After(s, es).disk.target == s.disk.target
    decreases |es|
  {
    if es != [] {
      FirstInstallStep(s, es[0]);
      assert forall i :: 0 <= i < |es[1..]| ==> es[1..][i] == es[i + 1];
      FirstInstallRun(Next(s, es[0]), es[1..]);
    }
  }

  /** Nobody has provisioned anything and nobody is up; the volume may hold anything. */
  ghost predicate Untouched(s: State) {
    s.users == map[] && s.procs == map[] && s.lock.None?
  }

  /** At most one hash is ever committed, and the file holds its plaintext from that commit on. */
  lemma OneHashAndItsFile(s0: State, early: seq<Event>, s: State, later: seq<Event>)
    requires Untouched(s0)
    requires IsRun(s0, early) && UnconfiguredBoots(early) && s == After(s0, early)
    requires IsRun(s, later) && UnconfiguredBoots(later)
    ensures s.users == map[] || exists p :: s.users == map[ADMIN := FirstAdmin(p)] && s.disk.target.Some? && FirstLineIs(s.disk.target.value, p)
    ensures s.users != map[] ==> After(s, later).users == s.users && After(s, later).disk.target == s.disk.target
  {
    FirstInstallRun(s0, early);
    FirstInstallRun(s, later);
    if s.users != map[] {
      var p :| Sealed(s, p);
      RenderedFirst(p);
    }
  }

  /** The text starts with `p` and a newline. */
  ghost predicate FirstLineIs(text: string, p: Password) {
    |p| < |text| && text[..|p|] == p && text[|p|] == '\n'
  }

  lemma RenderedFirst(p: Password)
    ensures FirstLineIs(Render(p), p)
  {
  }

  // ----- installs whose credential is configured -----------------------------------------------

  function ConfiguredAdmin(cred: Credential): User {
    User(Some(HashOf(cred.password)), true, cred.mustChange, true, true, None)
  }

  /** The decision needs no password file: a refusal, a preset, or a password that need not be changed. */
  predicate FileFree(d: Option<Credential>) {
    d.Some? && d.value.mustChange ==> d.value.preset
  }

  /** Where a transaction of such a boot can stand. */
  ghost predicate ConfiguredTx(users: Users, d: Option<Credential>, pc: Pc, view: Users) {
    if users == map[] then
      match pc
      case Reading => view == map[]
      case Upserting(cred) => view == map[] && d == Some(cred)
      case Committing => d.Some? && view == map[ADMIN := ConfiguredAdmin(d.value)]
      case _ => false
    else view == users && (pc.Reading? || pc.FixingProvider? || pc.Arming? || pc.Committing?)
  }

  ghost predicate Configured(s: State, d: Option<Credential>) {
    && Inv(s) && FileFree(d)
    && (s.users == map[] || (d.Some? && s.users == map[ADMIN := ConfiguredAdmin(d.value)]))
    && (forall r :: r in s.procs ==> Decide(s.procs[r].env) == d)
    && (forall r :: Running(s, r) ==> ConfiguredTx(s.users, d, s.procs[r].phase.pc, s.procs[r].phase.view))
  }

  lemma ConfiguredNeverTrips(env: Env, d: Option<Credential>)
    requires Decide(env) == d && d.Some? && FileFree(d)
    ensures !env.Trips() && (d.value.mustChange ==> env.preset.Some?)
  {
    if env.adminPassword.Some? && env.adminPassword.value == "" {
      forall i | 0 <= i < |INSECURE_DEFAULTS| ensures !EqIgnoreCase(INSECURE_DEFAULTS[i], "") {}
    }
  }

  /** The acting replica creates the configured admin or leaves everything as it is; the volume is not touched. */
  lemma ConfiguredActor(s: State, e: Event, d: Option<Credential>)
    requires Configured(s, d) && Enabled(s, e) && !e.Edit? && e.r in s.procs
    ensures var s' := Next(s, e);
            && s'.disk == s.disk
            && (s'.users == s.users || (s.users == map[] && d.Some? && s'.users == map[ADMIN := ConfiguredAdmin(d.value)]))
            && (Running(s', e.r) ==> s'.users == s.users && ConfiguredTx(s'.users, d, s'.procs[e.r].phase.pc, s'.procs[e.r].phase.view))
  {
    hide IsInsecureDefault, Render, SparesOthers, SparesAdmin, TempHolds, LockDiscipline;
    var p := s.procs[e.r];
    if d.Some? { ConfiguredNeverTrips(p.env, d); }
    if Running(s, e.r) {
      assert ConfiguredTx(s.users, d, p.phase.pc, p.phase.view);
      assert TxOk(p.env, s.users, s.disk, p.phase.pc, p.phase.view);
      if s.users != map[] { assert s.users[ADMIN := s.users[ADMIN].(local := true)] == s.users; }
    }
  }

  lemma ConfiguredStep(s: State, e: Event, d: Option<Credential>)
    requires Configured(s, d) && Enabled(s, e) && !e.Edit? && (e.Boot? ==> Decide(e.env) == d)
    ensures Configured(Next(s, e), d) && Next(s, e).disk == s.disk
    ensures s.users != map[] ==> Next(s, e).users == s.users
  {
    InvStep(s, e);
    ActorOnly(s, e);
    hide Next, Inv, ConfiguredTx, Decide;
    var s' := Next(s, e);
    if e.r in s.procs { ConfiguredActor(s, e, d); }
    forall r | Running(s', r) && r != e.r ensures ConfiguredTx(s'.users, d, s'.procs[r].phase.pc, s'.procs[r].phase.view) {
      assert Running(s, r) && s'.procs[r] == s.procs[r];
      BystanderKept(s, e, r);
    }
  }

  lemma {:induction false} ConfiguredRun(s: State, es: seq<Event>, d: Option<Credential>)
    requires Configured(s, d) && IsRun(s, es) && ProvisioningOnly(es)
    requires forall i :: 0 <= i < |es| && es[i].Boot? ==> Decide(es[i].env) == d
    ensures Configured(After(s, es), d) && After(s, es).disk == s.disk
    ensures s.users != map[] ==> After(s, es).users == s.users
    decreases |es|
  {
    hide Configured, Decide;
    if es != [] {
      ConfiguredStep(s, es[0], d);
      assert forall i :: 0 <= i < |es[1..]| ==> es[1..][i] == es[i + 1];
      ConfiguredRun(Next(s, es[0]), es[1..], d);
    }
  }

  /**
   From an empty table with every boot deciding on the same credential without a file, over every run of
   replicas crashing anywhere: the table is empty or holds the admin with that credential, and the volume
   is never written.
   */
  lemma ConfiguredInstall(s: State, es: seq<Event>, d: Option<Credential>)
    requires Untouched(s) && IsRun(s, es) && ProvisioningOnly(es) && FileFree(d)
    requires forall i :: 0 <= i < |es| && es[i].Boot? ==> Decide(es[i].env) == d
    ensures After(s, es).disk == s.disk
    ensures After(s, es).users == map[] || (d.Some? && After(s, es).users == map[ADMIN := ConfiguredAdmin(d.value)])
  {
    ConfiguredRun(s, es, d);
  }

  /** So with one strong ADMIN_PASSWORD the admin gets exactly that password and need not change it. */
  lemma StrongPasswordInstall(s: State, es: seq<Event>, p: Password)
    requires Untouched(s) && IsRun(s, es) && ProvisioningOnly(es) && p != ""
    requires forall i :: 0 <= i < |es| && es[i].Boot? ==> es[i].env.adminPassword == Some(p) && !es[i].env.Trips()
    ensures After(s, es).disk == s.disk
    ensures After(s, es).users == map[] || After(s, es).users == map[ADMIN := User(Some(HashOf(p)), true, false, true, true, None)]
  {
    hide IsInsecureDefault;
    ConfiguredInstall(s, es, Some(Credential(p, false, false)));
  }

  /** And a preset that is refused installs nothing. */
  lemma WeakPresetInstallsNothing(s: State, es: seq<Event>)
    requires Untouched(s) && IsRun(s, es) && ProvisioningOnly(es)
    requires forall i :: 0 <= i < |es| && es[i].Boot? ==>
               es[i].env.adminPassword.None? && es[i].env.preset.Some? && (es[i].env.presetRejected || IsInsecureDefault(es[i].env.preset.value))
    ensures After(s, es).users == map[] && After(s, es).disk == s.disk
  {
    hide IsInsecureDefault;
    ConfiguredInstall(s, es, None);
  }

  // ----- an existing file keeps the hash -----------------------------------------------------------

  /** The file is there, nobody is replacing it, and no view has another hash. */
  ghost predicate FileThere(s: State, hash: Option<Hash>) {
    && Inv(s) && s.disk.target.Some? && BuiltIn(s.users) && s.users[ADMIN].hash == hash
    && (forall r :: Running(s, r) ==> KeepsHash(s.procs[r].phase.pc, s.procs[r].phase.view, hash))
  }

  predicate KeepsHash(pc: Pc, view: Users, hash: Option<Hash>) {
    !pc.OnFile() && !pc.UpdatingHash? && !pc.Upserting? && BuiltIn(view) && view[ADMIN].hash == hash
  }

  lemma FileThereActor(s: State, e: Event, hash: Option<Hash>)
    requires FileThere(s, hash) && Enabled(s, e) && !e.Edit? && e.r in s.procs
    ensures var s' := Next(s, e);
            && s'.disk == s.disk && BuiltIn(s'.users) && s'.users[ADMIN].hash == hash
            && (Running(s', e.r) ==> KeepsHash(s'.procs[e.r].phase.pc, s'.procs[e.r].phase.view, hash))
  {
    hide Inv, IsInsecureDefault, LocalAdmin, Render, Decide;
    if Running(s, e.r) { assert KeepsHash(s.procs[e.r].phase.pc, s.procs[e.r].phase.view, hash); }
  }

  lemma FileThereStep(s: State, e: Event, hash: Option<Hash>)
    requires FileThere(s, hash) && Enabled(s, e) && !e.Edit?
    ensures FileThere(Next(s, e), hash)
  {
    InvStep(s, e);
    ActorOnly(s, e);
    hide Next, Inv, KeepsHash;
    var s' := Next(s, e);
    if e.r in s.procs { FileThereActor(s, e, hash); }
    forall r | Running(s', r) && r != e.r ensures KeepsHash(s'.procs[r].phase.pc, s'.procs[r].phase.view, hash) {
      assert Running(s, r) && s'.procs[r] == s.procs[r];
    }
  }

  /** While the password file is there, the hash of an existing built-in admin never changes. */
  lemma {:induction false} FileKeepsHash(s: State, es: seq<Event>, hash: Option<Hash>)
    requires FileThere(s, hash) && IsRun(s, es) && ProvisioningOnly(es)
    ensures BuiltIn(After(s, es).users) && After(s, es).users[ADMIN].hash == hash
    decreases |es|
  {
    if es != [] {
      FileThereStep(s, es[0], hash);
      assert forall i :: 0 <= i < |es[1..]| ==> es[1..][i] == es[i + 1];
      FileKeepsHash(Next(s, es[0]), es[1..], hash);
    }
  }

  // ----- an undisturbed boot does what is to be done --------------------------------------------------

  /** Replica 0 alone, at `ph` with the lock if it is in its transaction. */
  function Solo(users: Users, disk: Disk, env: Env, ph: Phase): State {
    State(users, disk, if ph.InTx? then Some(0) else None, map[0 := Proc(env, ph)])
  }

  lemma SoloAt(users: Users, disk: Disk, env: Env, ph: Phase, disk': Disk, ph': Phase)
    requires ph.InTx? && ph'.InTx?
    ensures Solo(users, disk, env, ph).(disk := disk').At(0, ph') == Solo(users, disk', env, ph')
  {
  }

  /** It comes as far as its transaction. */
  lemma BootsIntoTransaction(users: Users, disk: Disk, env: Env, es: seq<Event>, end: State)
    requires !env.skip && !env.secretBroken && Reaches(Solo(users, disk, env, InTx(Reading, users)), es, end)
    ensures Reaches(State(users, disk, None, map[]), [Boot(0, env)] + ([Step(0)] + ([Step(0)] + es)), end)
  {
    hide Reaches;
    Continue(Solo(users, disk, env, WantsLock), Step(0), Solo(users, disk, env, InTx(Reading, users)), es, end);
    Continue(Solo(users, disk, env, Starting), Step(0), Solo(users, disk, env, WantsLock), [Step(0)] + es, end);
    Continue(State(users, disk, None, map[]), Boot(0, env), Solo(users, disk, env, Starting), [Step(0)] + ([Step(0)] + es), end);
  }

  lemma Commits(users: Users, disk: Disk, env: Env, view: Users)
    ensures Reaches(Solo(users, disk, env, InTx(Committing, view)), [Step(0)], State(view, disk, None, map[]))
  {
    var end := State(view, disk, None, map[]);
    Continue(Solo(users, disk, env, InTx(Committing, view)), Step(0), end, [], end);
  }

  /** The file is written, and then the transaction goes on. */
  lemma WritesThen(users: Users, disk: Disk, env: Env, cred: Credential, creating: bool, view: Users, temp: nat, es: seq<Event>, end: State)
    returns (all: seq<Event>)
    requires temp !in disk.temps
    requires Reaches(Solo(users, Disk(Some(Render(cred.password)), disk.temps), env, InTx(if creating then Upserting(cred) else UpdatingHash(cred), view)), es, end)
    ensures Reaches(Solo(users, disk, env, InTx(Opening(cred, creating), view)), all, end)
  {
    hide Render, IsRun, After;
    var s := Solo(users, disk, env, InTx(Opening(cred, creating), view));
    var text := Render(cred.password);
    var write := WriterRun(s, 0, temp, |text|, true, true);
    SoloAt(users, disk, env, InTx(Opening(cred, creating), view), Disk(Some(text), disk.temps), InTx(if creating then Upserting(cred) else UpdatingHash(cred), view));
    all := Joined(s, write, FileDone(s, 0, true, Disk(Some(text), disk.temps)), es, end);
  }

  lemma {:induction false} Joined(s: State, es: seq<Event>, s': State, more: seq<Event>, s'': State) returns (all: seq<Event>)
    requires Reaches(s, es, s') && Reaches(s', more, s'')
    ensures Reaches(s, all, s'')
    decreases |es|
  {
    if es == [] { return more; }
    var rest := Joined(Next(s, es[0]), es[1..], s', more, s'');
    Continue(s, es[0], Next(s, es[0]), rest, s'');
    all := [es[0]] + rest;
  }

  lemma Upserts(disk: Disk, env: Env, cred: Credential)
    ensures Reaches(Solo(map[], disk, env, InTx(Upserting(cred), map[])), [Step(0), Step(0)], State(map[ADMIN := ConfiguredAdmin(cred)], disk, None, map[]))
  {
    hide IsInsecureDefault, Render;
    var view := map[ADMIN := ConfiguredAdmin(cred)];
    Commits(map[], disk, env, view);
    Continue(Solo(map[], disk, env, InTx(Upserting(cred), map[])), Step(0), Solo(map[], disk, env, InTx(Committing, view)), [Step(0)], State(view, disk, None, map[]));
    assert [Step(0)] + [Step(0)] == [Step(0), Step(0)];
  }

  /** On an empty table an undisturbed boot creates the admin it decides on, and writes the file exactly for a
      generated password or one that is a well-known default. */
  lemma BootCreates(disk: Disk, env: Env, temp: nat) returns (es: seq<Event>)
    requires !env.skip && !env.secretBroken && Decide(env).Some? && temp !in disk.temps
    ensures var cred := Decide(env).value;
            var target := if cred.mustChange && !cred.preset then Some(Render(cred.password)) else disk.target;
            Reaches(State(map[], disk, None, map[]), es, State(map[ADMIN := ConfiguredAdmin(cred)], Disk(target, disk.temps), None, map[]))
  {
    hide Render, Reaches, IsInsecureDefault, Decide;
    var cred := Decide(env).value;
    var filed := cred.mustChange && !cred.preset;
    var disk' := Disk(if filed then Some(Render(cred.password)) else disk.target, disk.temps);
    var end := State(map[ADMIN := ConfiguredAdmin(cred)], disk', None, map[]);
    Upserts(disk', env, cred);
    var tx := [Step(0), Step(0)];
    if filed { tx := WritesThen(map[], disk, env, cred, true, map[], temp, tx, end); }
    var next := InTx(if filed then Opening(cred, true) else Upserting(cred), map[]);
    Continue(Solo(map[], disk, env, InTx(Reading, map[])), Step(0), Solo(map[], disk, env, next), tx, end);
    BootsIntoTransaction(map[], disk, env, [Step(0)] + tx, end);
    es := [Boot(0, env)] + ([Step(0)] + ([Step(0)] + ([Step(0)] + tx)));
  }

  /** With the file gone and no preset, an undisturbed boot gives an active admin that never changed its password a new
      one, and writes it down. */
  lemma BootRegenerates(users: Users, disk: Disk, env: Env, temp: nat) returns (es: seq<Event>)
    requires BuiltIn(users) && users[ADMIN].mustChange && users[ADMIN].isActive && disk.target.None? && env.preset.None?
    requires !env.skip && !env.secretBroken && temp !in disk.temps
    ensures Reaches(State(users, disk, None, map[]), es,
                    State(users[ADMIN := users[ADMIN].(local := true, hash := Some(HashOf(env.generated)))],
                          Disk(Some(Render(env.generated)), disk.temps), None, map[]))
  {
    hide Render, Reaches, IsInsecureDefault, LocalAdmin;
    var cred := Credential(env.generated, true, false);
    var fixed := users[ADMIN := users[ADMIN].(local := true)];
    var view := users[ADMIN := users[ADMIN].(local := true, hash := Some(HashOf(env.generated)))];
    assert view == fixed[ADMIN := fixed[ADMIN].(hash := Some(HashOf(env.generated)))];
    var disk' := Disk(Some(Render(env.generated)), disk.temps);
    var end := State(view, disk', None, map[]);
    Commits(users, disk', env, view);
    Continue(Solo(users, disk', env, InTx(UpdatingHash(cred), fixed)), Step(0), Solo(users, disk', env, InTx(Committing, view)), [Step(0)], end);
    var tx := WritesThen(users, disk, env, cred, false, fixed, temp, [Step(0)] + [Step(0)], end);
    Continue(Solo(users, disk, env, InTx(Arming(true, true), fixed)), Step(0), Solo(users, disk, env, InTx(Opening(cred, false), fixed)), tx, end);
    Continue(Solo(users, disk, env, InTx(FixingProvider(true, true), users)), Step(0), Solo(users, disk, env, InTx(Arming(true, true), fixed)), [Step(0)] + tx, end);
    Continue(Solo(users, disk, env, InTx(Reading, users)), Step(0), Solo(users, disk, env, InTx(FixingProvider(true, true), users)), [Step(0)] + ([Step(0)] + tx), end);
    BootsIntoTransaction(users, disk, env, [Step(0)] + ([Step(0)] + ([Step(0)] + tx)), end);
    es := [Boot(0, env)] + ([Step(0)] + ([Step(0)] + ([Step(0)] + ([Step(0)] + ([Step(0)] + tx)))));
  }
}
