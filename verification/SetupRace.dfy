/**
 First-run setup raced by any number of requests and command-line runs (`seed.go`,
 `makeSetupCallback` and `setupGate` in `app.go`).  Every SQL statement is one atomic
 step; the setup mutex is local to an operating-system process.
 */
module SetupRace {
  import opened Options

  /** One run of `Seed`: from a /setup request, under its process's mutex, or from the
      command line. */
  datatype Actor = Actor(process: nat, viaSetup: bool, name: string, samples: bool)

  type Actors = map<nat, Actor>

  datatype Outcome = Succeeded | AlreadyDone | AdminExists | StatementFailed

  /** The next thing an actor does. */
  datatype Phase =
    | Waiting               // for the mutex
    | CheckingAdmin
    | CheckingName
    | InsertingAdmin
    | SeedingWeblog
    | CheckingTemplate
    | InsertingTemplate
    | CountingCategories
    | CountingEntries(categories: nat)
    | InsertingCategory
    | LocatingAdmin
    | InsertingEntry(n: nat)
    | Finished(outcome: Outcome)

  datatype Admin = Admin(name: string, owner: nat)

  /** A request at the setup gate: whether its path is exempt, whether asking the
      database failed, whether an admin existed, and whether it was let through. */
  datatype Visit = Visit(exempt: bool, failed: bool, hadAdmin: bool, passed: bool)

  /** The phases, who wrote which rows, the processes whose gate flag is set, and the
      gate's record. */
  datatype State = State(
    phases: map<nat, Phase>, admins: seq<Admin>, weblog: Option<nat>, templates: seq<nat>,
    categories: seq<nat>, entries: seq<nat>, gates: set<nat>, visits: seq<Visit>)

  function Start(actors: Actors): State {
    State(map id | id in actors :: if actors[id].viaSetup then Waiting else CheckingName, [], None, [], [], [], {}, [])
  }

  predicate Inside(p: Phase) {
    !p.Waiting? && !p.Finished?
  }

  /** Past the name check or the insert: writing the rest of the installation. */
  predicate Writing(p: Phase) {
    Inside(p) && !p.CheckingAdmin? && !p.CheckingName? && !p.InsertingAdmin?
  }

  predicate SameMutex(a: Actor, b: Actor) {
    a.viaSetup && b.viaSetup && a.process == b.process
  }

  predicate MutexFree(actors: Actors, s: State, id: nat)
    requires id in actors
  {
    forall other :: other in actors && other in s.phases && other != id && SameMutex(actors[id], actors[other]) ==>
      !Inside(s.phases[other])
  }

  function Goto(s: State, id: nat, p: Phase): State {
    s.(phases := s.phases[id := p])
  }

  datatype Event =
    | Act(id: nat, fails: bool)
    | Serve(process: nat, exempt: bool, fails: bool)

  /** What the statement of actor `id` does when the database answers. */
  function Act1(actors: Actors, s: State, id: nat): State
    requires id in actors && id in s.phases
  {
    var a := actors[id];
    match s.phases[id]
    case Waiting => Goto(s, id, CheckingAdmin)
    case CheckingAdmin => Goto(s, id, if s.admins != [] then Finished(AlreadyDone) else CheckingName)
    case CheckingName => Goto(s, id, if exists u :: u in s.admins && u.name == a.name then SeedingWeblog else InsertingAdmin)
    case InsertingAdmin =>
      if s.admins == [] then Goto(s, id, SeedingWeblog).(admins := s.admins + [Admin(a.name, id)])
      else Goto(s, id, Finished(if a.viaSetup then AlreadyDone else AdminExists))
    case SeedingWeblog => Goto(s, id, CheckingTemplate).(weblog := if s.weblog == None then Some(id) else s.weblog)
    case CheckingTemplate => Goto(s, id, if s.templates != [] then AfterTemplate(a) else InsertingTemplate)
    case InsertingTemplate => Goto(s, id, AfterTemplate(a)).(templates := s.templates + [id])
    case CountingCategories => Goto(s, id, CountingEntries(|s.categories|))
    case CountingEntries(categories) =>
      Goto(s, id, if categories > 0 || s.entries != [] then Finished(Succeeded) else InsertingCategory)
    case InsertingCategory => Goto(s, id, LocatingAdmin).(categories := s.categories + [id])
    case LocatingAdmin => Goto(s, id, if s.admins == [] then Finished(StatementFailed) else InsertingEntry(0))
    case InsertingEntry(n) =>
      Goto(s, id, if n == 0 then InsertingEntry(1) else Finished(Succeeded)).(entries := s.entries + [id])
    case Finished(_) => s
  }

  function AfterTemplate(a: Actor): Phase {
    if a.samples then CountingCategories else Finished(Succeeded)
  }

  /** One atomic step: an actor's statement, or a request at a gate. */
  function Step(actors: Actors, s: State, e: Event): Option<State> {
    match e
    case Act(id, fails) =>
      if id !in actors || id !in s.phases || s.phases[id].Finished? then None
      else if s.phases[id].Waiting? then
        if MutexFree(actors, s, id) && !fails then Some(Act1(actors, s, id)) else None
      else if fails then Some(Goto(s, id, Finished(StatementFailed)))
      else Some(Act1(actors, s, id))
    case Serve(process, exempt, fails) =>
      var hadAdmin := s.admins != [];
      if process in s.gates then Some(s.(visits := s.visits + [Visit(exempt, false, hadAdmin, true)]))
      else if exempt then Some(s.(visits := s.visits + [Visit(true, false, hadAdmin, true)]))
      else if fails then Some(s.(visits := s.visits + [Visit(false, true, hadAdmin, true)]))
      else if !hadAdmin then Some(s.(visits := s.visits + [Visit(false, false, false, false)]))
      else Some(s.(gates := s.gates + {process}, visits := s.visits + [Visit(false, false, true, true)]))
  }

  ghost predicate Reaches(actors: Actors, s: State, n: nat)
    decreases n
  {
    if n == 0 then s == Start(actors)
    else exists t, e :: Reaches(actors, t, n - 1) && Step(actors, t, e) == Some(s)
  }

  /** Some interleaving leads to `s`. */
  ghost predicate Reachable(actors: Actors, s: State) {
    exists n: nat :: Reaches(actors, s, n)
  }

  // ---------------------------------------------------------------------------
  // What every interleaving keeps
  // ---------------------------------------------------------------------------

  /** The only name that may be written for. */
  predicate Winner(actors: Actors, s: State, id: nat) {
    id in actors && |s.admins| == 1 && actors[id].name == s.admins[0].name
  }

  ghost predicate PhasesFit(actors: Actors, s: State) {
    && s.phases.Keys == actors.Keys && |s.admins| <= 1
    && (forall id :: id in s.phases && Writing(s.phases[id]) ==> Winner(actors, s, id))
    && (forall id :: id in s.phases && s.phases[id] in {Finished(AlreadyDone), Finished(AdminExists)} ==> s.admins != [])
  }

  ghost predicate WritersWon(actors: Actors, s: State) {
    && (s.weblog.Some? ==> Winner(actors, s, s.weblog.value))
    && (forall id :: id in s.templates || id in s.categories || id in s.entries ==> Winner(actors, s, id))
  }

  ghost predicate MutexHeld(actors: Actors, s: State) {
    forall i, j :: i in actors && j in actors && i != j && i in s.phases && j in s.phases && SameMutex(actors[i], actors[j]) ==>
      !(Inside(s.phases[i]) && Inside(s.phases[j]))
  }

  ghost predicate GateIsHonest(s: State) {
    && (s.gates != {} ==> s.admins != [])
    && forall v :: v in s.visits ==> (v.passed <==> v.exempt || v.failed || v.hadAdmin)
  }

  ghost predicate Invariant(actors: Actors, s: State) {
    PhasesFit(actors, s) && WritersWon(actors, s) && MutexHeld(actors, s) && GateIsHonest(s)
  }

  lemma PhasesFitKept(actors: Actors, s: State, e: Event)
    requires PhasesFit(actors, s) && Step(actors, s, e).Some?
    ensures PhasesFit(actors, Step(actors, s, e).value)
    ensures s.admins <= Step(actors, s, e).value.admins
  {
    hide MutexFree;
  }

  lemma WritersWonKept(actors: Actors, s: State, e: Event)
    requires PhasesFit(actors, s) && WritersWon(actors, s) && Step(actors, s, e).Some?
    ensures WritersWon(actors, Step(actors, s, e).value)
  {
    hide MutexFree;
  }

  /** Only taking the mutex brings an actor inside. */
  lemma WhoIsInside(actors: Actors, s: State, e: Event, id: nat)
    requires Step(actors, s, e).Some?
    ensures var t := Step(actors, s, e).value;
      && t.phases.Keys == s.phases.Keys
      && (id in t.phases && Inside(t.phases[id]) && !Inside(s.phases[id]) ==> e == Act(id, false) && MutexFree(actors, s, id))
      && (e.Act? && id != e.id && id in s.phases ==> t.phases[id] == s.phases[id])
      && (e.Serve? ==> t.phases == s.phases)
  {
    hide MutexFree;
  }

  lemma MutexHeldKept(actors: Actors, s: State, e: Event)
    requires MutexHeld(actors, s) && Step(actors, s, e).Some?
    ensures MutexHeld(actors, Step(actors, s, e).value)
  {
    hide Step;
    var t := Step(actors, s, e).value;
    forall i, j | i in actors && j in actors && i != j && i in t.phases && j in t.phases && SameMutex(actors[i], actors[j])
      ensures !(Inside(t.phases[i]) && Inside(t.phases[j]))
    {
      WhoIsInside(actors, s, e, i);
      WhoIsInside(actors, s, e, j);
    }
  }

  lemma GateIsHonestKept(actors: Actors, s: State, e: Event)
    requires PhasesFit(actors, s) && GateIsHonest(s) && Step(actors, s, e).Some?
    ensures GateIsHonest(Step(actors, s, e).value)
  {
    PhasesFitKept(actors, s, e);
    hide MutexFree, PhasesFit;
  }

  lemma StartIsFine(actors: Actors)
    ensures Invariant(actors, Start(actors)) && Single(Start(actors)) && SingleSamples(actors, Start(actors))
  {
  }

  lemma {:induction false} ReachesKeepsInvariant(actors: Actors, s: State, n: nat)
    requires Reaches(actors, s, n)
    ensures Invariant(actors, s)
    decreases n
  {
    hide Step, PhasesFit, WritersWon, MutexHeld, GateIsHonest, Single, SingleSamples, Start;
    if n == 0 {
      StartIsFine(actors);
    } else {
      var t, e :| Reaches(actors, t, n - 1) && Step(actors, t, e) == Some(s);
      hide Reaches;
      ReachesKeepsInvariant(actors, t, n - 1);
      PhasesFitKept(actors, t, e);
      WritersWonKept(actors, t, e);
      MutexHeldKept(actors, t, e);
      GateIsHonestKept(actors, t, e);
    }
  }

  /** At most one administrator is ever inserted. */
  lemma AtMostOneAdmin(actors: Actors, s: State)
    requires Reachable(actors, s)
    ensures |s.admins| <= 1
  {
    hide Reaches, WritersWon, MutexHeld, GateIsHonest;
    var n: nat :| Reaches(actors, s, n);
    ReachesKeepsInvariant(actors, s, n);
  }

  /** Being told that setup is done means that an administrator exists. */
  lemma LosersSawAnAdmin(actors: Actors, s: State, id: nat)
    requires Reachable(actors, s) && id in s.phases
    requires s.phases[id] == Finished(AlreadyDone) || s.phases[id] == Finished(AdminExists)
    ensures s.admins != []
  {
    hide Reaches, WritersWon, MutexHeld, GateIsHonest;
    var n: nat :| Reaches(actors, s, n);
    ReachesKeepsInvariant(actors, s, n);
  }

  /** Only actors with the winner's name write anything of the installation, or
      succeed. */
  lemma OnlyWinnersWrite(actors: Actors, s: State, id: nat)
    requires Reachable(actors, s)
    requires s.weblog == Some(id) || id in s.templates || id in s.categories || id in s.entries
    ensures id in actors && |s.admins| == 1 && actors[id].name == s.admins[0].name
  {
    hide Reaches, PhasesFit, MutexHeld, GateIsHonest;
    var n: nat :| Reaches(actors, s, n);
    ReachesKeepsInvariant(actors, s, n);
  }

  /** The gate lets a request through exactly when its path is exempt, the database
      could not be asked, or an administrator exists: the sticky flag never answers
      differently from the database. */
  lemma GateFollowsDatabase(actors: Actors, s: State, v: Visit)
    requires Reachable(actors, s) && v in s.visits
    ensures v.passed <==> v.exempt || v.failed || v.hadAdmin
  {
    hide Reaches, PhasesFit, MutexHeld, WritersWon;
    var n: nat :| Reaches(actors, s, n);
    ReachesKeepsInvariant(actors, s, n);
  }

  // ---------------------------------------------------------------------------
  // Check-then-insert: when the template and the samples stay single
  // ---------------------------------------------------------------------------

  /** Runs that submit the same name share a mutex. */
  predicate Exclusive(actors: Actors) {
    forall i, j :: i in actors && j in actors && i != j && actors[i].name == actors[j].name ==> SameMutex(actors[i], actors[j])
  }

  ghost predicate Single(s: State) {
    && |s.templates| <= 1
    && forall id :: id in s.phases && s.phases[id].InsertingTemplate? ==> s.templates == []
  }

  /** With exclusive names, one actor writes at a time. */
  lemma OneWrites(actors: Actors, s: State, i: nat, j: nat)
    requires Exclusive(actors) && PhasesFit(actors, s) && MutexHeld(actors, s)
    requires i in s.phases && j in s.phases && i != j && Writing(s.phases[i])
    ensures !Writing(s.phases[j])
  {
    assert Winner(actors, s, i);
    assert Writing(s.phases[j]) ==> Winner(actors, s, j);
  }

  /** The step of an actor that is not writing yet leaves the rows alone. */
  lemma SingleBefore(actors: Actors, s: State, e: Event)
    requires Single(s) && Step(actors, s, e).Some? && (e.Serve? || !Writing(s.phases[e.id]))
    ensures Single(Step(actors, s, e).value)
  {
    hide MutexFree;
    var t := Step(actors, s, e).value;
    assert t.templates == s.templates;
    forall id | id in t.phases && t.phases[id].InsertingTemplate? ensures t.templates == [] {
      if e.Serve? || id != e.id { assert t.phases[id] == s.phases[id]; }
    }
  }

  /** The step of the one that is writing. */
  lemma SingleWriting(actors: Actors, s: State, e: Event)
    requires Single(s) && Step(actors, s, e).Some? && e.Act? && Writing(s.phases[e.id])
    requires forall id :: id in s.phases && id != e.id ==> !Writing(s.phases[id])
    ensures Single(Step(actors, s, e).value)
  {
    hide MutexFree;
    var t := Step(actors, s, e).value;
    assert forall id :: id in t.phases && id != e.id ==> t.phases[id] == s.phases[id];
  }

  lemma SingleKept(actors: Actors, s: State, e: Event)
    requires Exclusive(actors) && Invariant(actors, s) && Single(s) && Step(actors, s, e).Some?
    ensures Single(Step(actors, s, e).value)
  {
    hide Single, Exclusive, PhasesFit, MutexHeld;
    if e.Act? && Writing(s.phases[e.id]) {
      forall id | id in s.phases && id != e.id ensures !Writing(s.phases[id]) {
        OneWrites(actors, s, e.id, id);
      }
      SingleWriting(actors, s, e);
    } else {
      SingleBefore(actors, s, e);
    }
  }

  lemma {:induction false} ExclusiveStaysSingle(actors: Actors, s: State, n: nat)
    requires Exclusive(actors) && Reaches(actors, s, n)
    ensures Single(s)
    decreases n
  {
    hide Exclusive, Step, Invariant, Single, SingleSamples, Start;
    if n == 0 {
      StartIsFine(actors);
    } else {
      var t, e :| Reaches(actors, t, n - 1) && Step(actors, t, e) == Some(s);
      hide Reaches;
      ExclusiveStaysSingle(actors, t, n - 1);
      ReachesKeepsInvariant(actors, t, n - 1);
      SingleKept(actors, t, e);
    }
  }

  lemma OneStepOn(actors: Actors, s: State, id: nat)
    requires Reachable(actors, s) && Step(actors, s, Act(id, false)).Some?
    ensures Reachable(actors, Step(actors, s, Act(id, false)).value)
  {
    hide Step;
    var n: nat :| Reaches(actors, s, n);
    assert Reaches(actors, Step(actors, s, Act(id, false)).value, n + 1);
  }

  /** Up to the name check, through the mutex if need be, while no one has won yet. */
  lemma GetReady(actors: Actors, s: State, id: nat) returns (t: State)
    requires Reachable(actors, s) && id in actors && id in s.phases && s.admins == []
    requires s.phases[id] == Start(actors).phases[id] && MutexFree(actors, s, id)
    ensures Reachable(actors, t) && t == Goto(s, id, CheckingName)
  {
    hide Reachable, MutexFree;
    t := s;
    if actors[id].viaSetup {
      OneStepOn(actors, t, id);
      t := Goto(t, id, CheckingAdmin);
      OneStepOn(actors, t, id);
      t := Goto(t, id, CheckingName);
      assert t.phases == s.phases[id := CheckingName];
    } else {
      assert s.phases == s.phases[id := CheckingName];
    }
  }

  lemma BothReady(actors: Actors, i: nat, j: nat) returns (t: State)
    requires i in actors && j in actors && i != j && !SameMutex(actors[i], actors[j])
    ensures Reachable(actors, t) && t.phases.Keys == actors.Keys && t.phases[i] == t.phases[j] == CheckingName
    ensures t.admins == [] && t.templates == [] && t.categories == [] && t.entries == []
  {
    var s := Start(actors);
    assert Reachable(actors, s) by { assert Reaches(actors, s, 0); }
    hide Reachable;
    t := GetReady(actors, s, i);
    t := GetReady(actors, t, j);
  }

  /** The next step of `id` is not the mutex. */
  lemma Proceed(actors: Actors, s: State, id: nat) returns (t: State)
    requires Reachable(actors, s) && id in actors && id in s.phases && Inside(s.phases[id])
    ensures Reachable(actors, t) && t == Act1(actors, s, id)
  {
    hide Reachable, Act1;
    OneStepOn(actors, s, id);
    t := Act1(actors, s, id);
  }

  /** Two runs with one name and no common mutex: the second passes the name check
      once the first has inserted its row. */
  lemma BothWrite(actors: Actors, i: nat, j: nat) returns (t: State)
    requires i in actors && j in actors && i != j && actors[i].name == actors[j].name && !SameMutex(actors[i], actors[j])
    ensures Reachable(actors, t) && t.phases.Keys == actors.Keys && t.phases[i] == CheckingTemplate && t.phases[j] == SeedingWeblog
    ensures t.templates == [] && t.categories == [] && t.entries == []
  {
    hide Reachable;
    t := BothReady(actors, i, j);
    t := Proceed(actors, t, i);
    t := Proceed(actors, t, i);
    assert t.admins == [Admin(actors[i].name, i)] && t.phases[i] == SeedingWeblog && t.phases[j] == CheckingName;
    t := Proceed(actors, t, i);
    t := Proceed(actors, t, j) by { assert t.admins[0] in t.admins; }
  }

  /** And both find no template. */
  lemma TemplateDoubles(actors: Actors, i: nat, j: nat) returns (t: State)
    requires i in actors && j in actors && i != j && actors[i].name == actors[j].name && !SameMutex(actors[i], actors[j])
    ensures Reachable(actors, t) && t.templates == [i, j] && t.categories == [] && t.entries == []
    ensures t.phases.Keys == actors.Keys && t.phases[i] == AfterTemplate(actors[i]) && t.phases[j] == AfterTemplate(actors[j])
  {
    hide Reachable;
    t := BothWrite(actors, i, j);
    t := Proceed(actors, t, j);
    t := Proceed(actors, t, i);
    t := Proceed(actors, t, j);
    t := Proceed(actors, t, i);
    t := Proceed(actors, t, j);
  }

  /** The default template is inserted at most once in every interleaving exactly when
      runs that submit the same name share a mutex. */
  lemma TemplateIsSingleIff(actors: Actors)
    ensures (forall s :: Reachable(actors, s) ==> |s.templates| <= 1) <==> Exclusive(actors)
  {
    if Exclusive(actors) {
      forall s | Reachable(actors, s) ensures |s.templates| <= 1 {
        var n: nat :| Reaches(actors, s, n);
        ExclusiveStaysSingle(actors, s, n);
      }
    } else {
      var i, j :| i in actors && j in actors && i != j && actors[i].name == actors[j].name && !SameMutex(actors[i], actors[j]);
      var t := TemplateDoubles(actors, i, j);
    }
  }

  /** Of the runs that write samples, those that submit the same name share a mutex. */
  predicate SampleExclusive(actors: Actors) {
    forall i, j :: i in actors && j in actors && i != j && actors[i].samples && actors[j].samples && actors[i].name == actors[j].name ==>
      SameMutex(actors[i], actors[j])
  }

  predicate Sampling(p: Phase) {
    p.CountingCategories? || p.CountingEntries? || p.InsertingCategory? || p.LocatingAdmin? || p.InsertingEntry?
  }

  /** What the one that writes samples knows. */
  predicate SamplesFit(s: State, p: Phase) {
    match p
    case CountingEntries(categories) => categories == |s.categories|
    case InsertingCategory => s.categories == [] && s.entries == []
    case LocatingAdmin => |s.categories| == 1 && s.entries == []
    case InsertingEntry(n) => n <= 1 && |s.categories| == 1 && |s.entries| == n
    case _ => true
  }

  ghost predicate SingleSamples(actors: Actors, s: State) {
    && |s.categories| <= 1 && |s.entries| <= 2 && (s.categories == [] ==> s.entries == [])
    && forall id :: id in s.phases && Sampling(s.phases[id]) ==> id in actors && actors[id].samples && SamplesFit(s, s.phases[id])
  }

  lemma OneSamples(actors: Actors, s: State, i: nat, j: nat)
    requires SampleExclusive(actors) && PhasesFit(actors, s) && MutexHeld(actors, s) && SingleSamples(actors, s)
    requires i in s.phases && j in s.phases && i != j && Sampling(s.phases[i])
    ensures !Sampling(s.phases[j])
  {
    assert Writing(s.phases[i]) && Winner(actors, s, i);
    assert Sampling(s.phases[j]) ==> Writing(s.phases[j]) && Winner(actors, s, j);
  }

  lemma SamplesElsewhere(actors: Actors, s: State, e: Event)
    requires SingleSamples(actors, s) && Step(actors, s, e).Some? && (e.Serve? || !Sampling(s.phases[e.id]))
    ensures SingleSamples(actors, Step(actors, s, e).value)
  {
    hide MutexFree;
    var t := Step(actors, s, e).value;
    assert t.categories == s.categories && t.entries == s.entries;
    forall id | id in t.phases && Sampling(t.phases[id])
      ensures id in actors && actors[id].samples && SamplesFit(t, t.phases[id])
    {
      if e.Serve? || id != e.id { assert t.phases[id] == s.phases[id]; }
    }
  }

  lemma SamplesWritten(actors: Actors, s: State, e: Event)
    requires SingleSamples(actors, s) && Step(actors, s, e).Some? && e.Act? && Sampling(s.phases[e.id])
    requires forall id :: id in s.phases && id != e.id ==> !Sampling(s.phases[id])
    ensures SingleSamples(actors, Step(actors, s, e).value)
  {
    hide MutexFree;
    var t := Step(actors, s, e).value;
    assert forall id :: id in t.phases && id != e.id ==> t.phases[id] == s.phases[id];
    assert SamplesFit(s, s.phases[e.id]);
  }

  lemma SingleSamplesKept(actors: Actors, s: State, e: Event)
    requires SampleExclusive(actors) && Invariant(actors, s) && SingleSamples(actors, s) && Step(actors, s, e).Some?
    ensures SingleSamples(actors, Step(actors, s, e).value)
  {
    hide SingleSamples, SampleExclusive, PhasesFit, MutexHeld;
    if e.Act? && Sampling(s.phases[e.id]) {
      forall id | id in s.phases && id != e.id ensures !Sampling(s.phases[id]) {
        OneSamples(actors, s, e.id, id);
      }
      SamplesWritten(actors, s, e);
    } else {
      SamplesElsewhere(actors, s, e);
    }
  }

  lemma {:induction false} SamplesStaySingle(actors: Actors, s: State, n: nat)
    requires SampleExclusive(actors) && Reaches(actors, s, n)
    ensures SingleSamples(actors, s)
    decreases n
  {
    hide SampleExclusive, Step, Invariant, Single, SingleSamples, Start;
    if n == 0 {
      StartIsFine(actors);
    } else {
      var t, e :| Reaches(actors, t, n - 1) && Step(actors, t, e) == Some(s);
      hide Reaches;
      SamplesStaySingle(actors, t, n - 1);
      ReachesKeepsInvariant(actors, t, n - 1);
      SingleSamplesKept(actors, t, e);
    }
  }

  /** Two such runs with one name and no common mutex: both find no category and no
      entry. */
  lemma SamplesDouble(actors: Actors, i: nat, j: nat) returns (t: State)
    requires i in actors && j in actors && i != j && actors[i].name == actors[j].name && !SameMutex(actors[i], actors[j])
    requires actors[i].samples && actors[j].samples
    ensures Reachable(actors, t) && t.categories == [i, j]
  {
    hide Reachable;
    t := TemplateDoubles(actors, i, j);
    t := Proceed(actors, t, i);
    t := Proceed(actors, t, j);
    t := Proceed(actors, t, i);
    t := Proceed(actors, t, j);
    t := Proceed(actors, t, i);
    t := Proceed(actors, t, j);
  }

  /** There is at most one sample category and at most two sample entries in every
      interleaving exactly when runs that write samples under the same name share a
      mutex. */
  lemma SamplesAreSingleIff(actors: Actors)
    ensures (forall s :: Reachable(actors, s) ==> |s.categories| <= 1 && |s.entries| <= 2) <==> SampleExclusive(actors)
  {
    if SampleExclusive(actors) {
      forall s | Reachable(actors, s) ensures |s.categories| <= 1 && |s.entries| <= 2 {
        hide SampleExclusive;
        var n: nat :| Reaches(actors, s, n);
        hide Reaches;
        SamplesStaySingle(actors, s, n);
      }
    } else {
      var i, j :| i in actors && j in actors && i != j && actors[i].samples && actors[j].samples
                  && actors[i].name == actors[j].name && !SameMutex(actors[i], actors[j]);
      var t := SamplesDouble(actors, i, j);
    }
  }

  // ---------------------------------------------------------------------------
  // One run of Seed on its own
  // ---------------------------------------------------------------------------

  datatype Tables = Tables(admins: seq<Admin>, weblog: Option<nat>, templates: seq<nat>, categories: seq<nat>, entries: seq<nat>)

  predicate HasName(t: Tables, name: string) {
    exists u :: u in t.admins && u.name == name
  }

  /** What `Seed` makes of the tables when nothing else runs and no statement fails. */
  function Seeded(t: Tables, a: Actor, id: nat): Tables {
    var t1 := if HasName(t, a.name) then t else t.(admins := t.admins + [Admin(a.name, id)]);
    var t2 := if t1.weblog == None then t1.(weblog := Some(id)) else t1;
    var t3 := if t2.templates == [] then t2.(templates := [id]) else t2;
    if a.samples && t3.categories == [] && t3.entries == [] then t3.(categories := [id], entries := [id, id]) else t3
  }

  /** The database as one run of `Seed` changes it. */
  class Database {
    var tables: Tables

    constructor (t: Tables)
      ensures tables == t
    {
      tables := t;
    }

    method SeedAdminUser(a: Actor, id: nat) returns (ok: bool)
      modifies this
      ensures ok <==> HasName(old(tables), a.name) || old(tables).admins == []
      ensures tables == if ok && !HasName(old(tables), a.name) then old(tables).(admins := [Admin(a.name, id)]) else old(tables)
    {
      if exists u :: u in tables.admins && u.name == a.name {
        return true;
      }
      var inserted := 0;
      if tables.admins == [] {
        tables := tables.(admins := tables.admins + [Admin(a.name, id)]);
        inserted := 1;
      }
      if inserted == 0 {
        return false;
      }
      return true;
    }

    method SeedWeblog(id: nat)
      modifies this
      ensures tables == if old(tables).weblog == None then old(tables).(weblog := Some(id)) else old(tables)
    {
      if tables.weblog == None {
        tables := tables.(weblog := Some(id));
      }
    }

    method SeedDefaultTemplate(id: nat)
      modifies this
      ensures tables == if old(tables).templates == [] then old(tables).(templates := [id]) else old(tables)
    {
      if tables.templates != [] {
        return;
      }
      tables := tables.(templates := tables.templates + [id]);
    }

    method SeedSampleContent(id: nat)
      modifies this
      ensures tables == if old(tables).categories == [] && old(tables).entries == []
                        then old(tables).(categories := [id], entries := [id, id]) else old(tables)
    {
      if |tables.categories| > 0 || |tables.entries| > 0 {
        return;
      }
      tables := tables.(categories := tables.categories + [id]);
      var n := 0;
      while n < 2
        invariant n <= 2 && tables == old(tables).(categories := [id], entries := if n == 0 then [] else if n == 1 then [id] else [id, id])
      {
        tables := tables.(entries := tables.entries + [id]);
        n := n + 1;
      }
    }

    /** Either the run is refused and changes nothing, or everything missing is there
        afterwards. */
    method Seed(a: Actor, id: nat) returns (outcome: Outcome)
      modifies this
      // a run that succeeds leaves an administrator of its name, a weblog, a template and,
      // if asked for, samples
      ensures outcome == Succeeded ==> exists u :: u in tables.admins && u.name == a.name
      ensures outcome == Succeeded ==> tables.weblog.Some? && tables.templates != []
      ensures outcome == Succeeded && a.samples ==> tables.categories != [] || tables.entries != []
      // what was there stays, and nothing is added to what was
      ensures old(tables).admins != [] ==> tables.admins == old(tables).admins
      ensures old(tables).admins == [] && outcome == Succeeded ==> tables.admins == [Admin(a.name, id)]
      ensures old(tables).weblog.Some? ==> tables.weblog == old(tables).weblog
      ensures old(tables).templates != [] ==> tables.templates == old(tables).templates
      ensures old(tables).categories != [] || old(tables).entries != [] || !a.samples ==>
                tables.categories == old(tables).categories && tables.entries == old(tables).entries
      ensures outcome == AdminExists ==> tables == old(tables)
      ensures outcome == if HasName(old(tables), a.name) || old(tables).admins == [] then Succeeded else AdminExists
      ensures tables == if outcome == Succeeded then Seeded(old(tables), a, id) else old(tables)
    {
      var ok := SeedAdminUser(a, id);
      if !ok {
        return AdminExists;
      }
      SeedWeblog(id);
      SeedDefaultTemplate(id);
      if a.samples {
        SeedSampleContent(id);
      }
      return Succeeded;
    }
  }

  /** Running it again, whoever does, changes nothing more. */
  lemma SeedingAgainChangesNothing(t: Tables, a: Actor, id: nat, again: nat)
    ensures Seeded(Seeded(t, a, id), a, again) == Seeded(t, a, id)
  {
    var s := Seeded(t, a, id);
    assert HasName(s, a.name) by {
      if !HasName(t, a.name) { assert s.admins[|t.admins|] == Admin(a.name, id) && s.admins[|t.admins|] in s.admins; }
    }
  }

  function TablesOf(s: State): Tables {
    Tables(s.admins, s.weblog, s.templates, s.categories, s.entries)
  }

  /** `k` undisturbed steps of one actor. */
  function Alone(actors: Actors, s: State, id: nat, k: nat): State
    requires id in actors && id in s.phases
    decreases k
  {
    if k == 0 then s else Alone(actors, Act1(actors, s, id), id, k - 1)
  }

  /** In the race, an actor that is not disturbed does the same. */
  lemma AloneIsSeeded(actors: Actors, s: State, id: nat)
    requires id in actors && id in s.phases && s.phases[id] == CheckingName
    requires s.admins == [] || exists u :: u in s.admins && u.name == actors[id].name
    ensures var t := Alone(actors, s, id, 11);
      && id in t.phases && t.phases[id] == Finished(Succeeded)
      && TablesOf(t) == Seeded(TablesOf(s), actors[id], id)
  {
    hide Alone;
    var a := actors[id];
    var s1 := Act1(actors, s, id);
    var won := s1.phases[id] == SeedingWeblog;
    var s2 := if won then s1 else Act1(actors, s1, id);
    AloneWrites(actors, s2, id, if won then 10 else 9);
    AloneStep(actors, s, id, 11);
    if !won { AloneStep(actors, s1, id, 10); }
  }

  lemma AloneStep(actors: Actors, s: State, id: nat, k: nat)
    requires id in actors && id in s.phases && 0 < k
    ensures id in Act1(actors, s, id).phases
    ensures Alone(actors, s, id, k) == Alone(actors, Act1(actors, s, id), id, k - 1)
  {
  }

  lemma {:induction false} AloneDone(actors: Actors, s: State, id: nat, k: nat)
    requires id in actors && id in s.phases && s.phases[id].Finished?
    ensures Alone(actors, s, id, k) == s
    decreases k
  {
    if k > 0 { AloneDone(actors, s, id, k - 1); }
  }

  lemma AloneWrites(actors: Actors, s: State, id: nat, k: nat)
    requires id in actors && id in s.phases && s.phases[id] == SeedingWeblog && 9 <= k && HasName(TablesOf(s), actors[id].name)
    ensures var t := Alone(actors, s, id, k);
      && id in t.phases && t.phases[id] == Finished(Succeeded)
      && TablesOf(t) == Seeded(TablesOf(s), actors[id], id)
  {
    hide Alone;
    var a := actors[id];
    AloneStep(actors, s, id, k);
    var s1 := Act1(actors, s, id);
    AloneStep(actors, s1, id, k - 1);
    var s2 := Act1(actors, s1, id);
    if s1.templates == [] { AloneStep(actors, s2, id, k - 2); }
    var s3, left := if s1.templates == [] then Act1(actors, s2, id) else s2, if s1.templates == [] then k - 3 else k - 2;
    assert s3.phases[id] == AfterTemplate(a);
    if a.samples { AloneSamples(actors, s3, id, left); } else { AloneDone(actors, s3, id, left); }
  }

  lemma AloneSamples(actors: Actors, s: State, id: nat, k: nat)
    requires id in actors && id in s.phases && s.phases[id] == CountingCategories && 6 <= k && s.admins != []
    ensures var t := Alone(actors, s, id, k);
      && id in t.phases && t.phases[id] == Finished(Succeeded)
      && TablesOf(t) == if s.categories == [] && s.entries == [] then TablesOf(s).(categories := [id], entries := [id, id])
                        else TablesOf(s)
  {
    hide Alone;
    AloneStep(actors, s, id, k);
    var s1 := Act1(actors, s, id);
    AloneStep(actors, s1, id, k - 1);
    var s2 := Act1(actors, s1, id);
    if s2.phases[id].Finished? {
      AloneDone(actors, s2, id, k - 2);
    } else {
      AloneStep(actors, s2, id, k - 2);
      var s3 := Act1(actors, s2, id);
      AloneStep(actors, s3, id, k - 3);
      var s4 := Act1(actors, s3, id);
      AloneStep(actors, s4, id, k - 4);
      var s5 := Act1(actors, s4, id);
      AloneStep(actors, s5, id, k - 5);
      AloneDone(actors, Act1(actors, s5, id), id, k - 6);
    }
  }
}
