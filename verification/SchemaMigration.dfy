/** Applying migrations step by step: what every attempt keeps, and why a rerun completes. */
module SchemaMigration {
  import opened Sequences
  import opened MigrationSteps
  import opened MigrationGate

  const MIGRATOR_ROLE := "qmtool_migrator"

  datatype Schema = Missing | Schema(owner: string, objects: set<string>)

  /** The part of the database a migration touches. */
  datatype Db = Db(schema: Schema, history: seq<AppliedMigration>)

  /**
   What the database server does: running a script, the role and catalogue contracts, the catalogue fingerprint,
   and at which steps the connection breaks before the step's transaction commits.
   */
  datatype Server = Server(
    execute: (Schema, string) -> Option<Schema>,
    contracts: (Schema, bool, bool, Option<nat>) -> bool,
    fingerprint: Schema -> Digest,
    breaksAt: nat -> bool)

  // --- Reference meaning ---

  /** One step, all or nothing. The script is the file's text as read in text mode. */
  function ApplyStep(db: Db, step: Step, server: Server): Result<Db> {
    if server.breaksAt(step.version) then Err(ConnectionLost)
    else match server.execute(db.schema, UniversalNewlines(step.file.content))
      case None => Err(ScriptFailed(step.version))
      case Some(schema) =>
        if !server.contracts(schema, step.version >= 3, step.version >= 2, Some(step.version)) then
          Err(ContractViolated)
        else Ok(Db(schema, db.history + [AppliedMigration(step.version, step.name, Checksum(step.file.content),
                                                          server.fingerprint(schema))]))
  }

  /** The pending steps from position `at` on; a failing step leaves what was committed before it. */
  function ApplyPending(db: Db, steps: seq<Step>, at: nat, server: Server): (Db, Result<()>)
    requires at <= |steps|
    decreases |steps| - at
  {
    if at == |steps| then (db, Ok(()))
    else match ApplyStep(db, steps[at], server)
      case Err(e) => (db, Err(e))
      case Ok(next) => ApplyPending(next, steps, at + 1, server)
  }

  predicate IsBootstrap(schema: Schema) {
    schema.Schema? && schema.owner == MIGRATOR_ROLE && schema.objects == {}
  }

  predicate FingerprintMatches(db: Db, server: Server) {
    db.history != [] ==> db.history[|db.history| - 1].fingerprint == server.fingerprint(db.schema)
  }

  /** What a database between any two attempts looks like. */
  ghost predicate Consistent(db: Db, steps: seq<Step>, server: Server) {
    && IsHistoryOf(db.history, steps)
    && FingerprintMatches(db, server)
    && (db.history == [] ==> IsBootstrap(db.schema))
  }

  function CheckBefore(db: Db, steps: seq<Step>, server: Server): Result<()> {
    var valid := CheckHistory(db.history, steps);
    if valid.Err? then valid
    else if db.history == [] && !IsBootstrap(db.schema) then Err(BootstrapRefused)
    else if !FingerprintMatches(db, server) then Err(FingerprintDrift)
    else Ok(())
  }

  function CheckAfter(db: Db, steps: seq<Step>, server: Server): Result<nat>
    requires steps != []
  {
    var target := steps[|steps| - 1].version;
    var valid := CheckHistory(db.history, steps);
    if valid.Err? then Err(valid.error)
    else if db.history == [] || db.history[|db.history| - 1].version != target then Err(NotReady)
    else if !FingerprintMatches(db, server) then Err(FingerprintDrift)
    else if !server.contracts(db.schema, target >= 3, target >= 2, None) then Err(ContractViolated)
    else Ok(target)
  }

  /** One attempt on an unlocked database. */
  function Attempt(db: Db, steps: seq<Step>, server: Server): (Db, Result<nat>)
    requires steps != []
  {
    var before := CheckBefore(db, steps, server);
    if before.Err? then (db, Err(before.error))
    else
      var (after, outcome) := ApplyPending(db, steps, |db.history|, server);
      if outcome.Err? then (after, Err(outcome.error)) else (after, CheckAfter(after, steps, server))
  }

  class Database {
    var schema: Schema
    var history: seq<AppliedMigration>
    var lockedElsewhere: bool

    function State(): Db
      reads this
    {
      Db(schema, history)
    }

    constructor (schema: Schema)
      ensures State() == Db(schema, []) && !lockedElsewhere
    {
      this.schema := schema;
      history := [];
      lockedElsewhere := false;
    }

    method Migrate(files: seq<MigrationFile>, server: Server) returns (r: Result<nat>)
      modifies this`schema, this`history
      ensures Discover(files).Err? ==> r == Err(Discover(files).error) && State() == old(State())
      ensures Discover(files).Ok? && lockedElsewhere ==> r == Err(MigrationInProgress) && State() == old(State())
      ensures Discover(files).Ok? && !lockedElsewhere ==>
                Discover(files).value != [] && (State(), r) == Attempt(old(State()), Discover(files).value, server)
    {
      var discovered := DiscoverMigrations(files);
      if discovered.Err? {
        return Err(discovered.error);
      }
      var steps := discovered.value;
      if lockedElsewhere {
        return Err(MigrationInProgress);
      }
      var before := CheckBeforeMigrating(steps, server);
      if before.Err? {
        return Err(before.error);
      }
      assert |history| <= |steps|;
      var applied := ApplyPendingSteps(steps, server);
      if applied.Err? {
        return Err(applied.error);
      }
      r := CheckAfterMigrating(steps, server);
    }

    method CheckBeforeMigrating(steps: seq<Step>, server: Server) returns (r: Result<()>)
      ensures r == CheckBefore(State(), steps, server)
    {
      var valid := ValidateHistoryPrefix(history, steps);
      if valid.Err? {
        return valid;
      }
      if history == [] && !IsBootstrap(schema) {
        return Err(BootstrapRefused);
      }
      if history != [] && server.fingerprint(schema) != history[|history| - 1].fingerprint {
        return Err(FingerprintDrift);
      }
      r := Ok(());
    }

    method ApplyPendingSteps(steps: seq<Step>, server: Server) returns (r: Result<()>)
      requires |history| <= |steps|
      modifies this`schema, this`history
      ensures (State(), r) == ApplyPending(old(State()), steps, |old(history)|, server)
    {
      for index := |history| to |steps|
        invariant ApplyPending(old(State()), steps, |old(history)|, server)
                == ApplyPending(State(), steps, index, server)
      {
        var step := steps[index];
        // One transaction: nothing is assigned to the database before the step is complete.
        if server.breaksAt(step.version) {
          return Err(ConnectionLost);
        }
        var executed := server.execute(schema, UniversalNewlines(step.file.content));
        if executed.None? {
          return Err(ScriptFailed(step.version));
        }
        if !server.contracts(executed.value, step.version >= 3, step.version >= 2, Some(step.version)) {
          return Err(ContractViolated);
        }
        var row := AppliedMigration(step.version, step.name, Checksum(step.file.content),
                                    server.fingerprint(executed.value));
        schema, history := executed.value, history + [row];
      }
      r := Ok(());
    }

    method CheckAfterMigrating(steps: seq<Step>, server: Server) returns (r: Result<nat>)
      requires steps != []
      ensures r == CheckAfter(State(), steps, server)
    {
      var target := steps[|steps| - 1].version;
      var valid := ValidateHistoryPrefix(history, steps);
      if valid.Err? {
        return Err(valid.error);
      }
      if history == [] || history[|history| - 1].version != target {
        return Err(NotReady);
      }
      if server.fingerprint(schema) != history[|history| - 1].fingerprint {
        return Err(FingerprintDrift);
      }
      if !server.contracts(schema, target >= 3, target >= 2, None) {
        return Err(ContractViolated);
      }
      r := Ok(target);
    }

    /** The readiness check of the running program, on a connection without migration rights. */
    method AssertRuntimeSchemaReady(files: seq<MigrationFile>, server: Server) returns (r: Result<nat>)
      ensures Discover(files).Err? ==> r == Err(Discover(files).error)
      ensures Discover(files).Ok? ==>
              Discover(files).value != [] && r == Readiness(State(), Discover(files).value, server)
    {
      var discovered := DiscoverMigrations(files);
      if discovered.Err? {
        return Err(discovered.error);
      }
      var steps := discovered.value;
      var target := steps[|steps| - 1].version;
      if history == [] {
        return Err(HistoryMissing);
      }
      var valid := ValidateHistoryPrefix(history, steps);
      if valid.Err? {
        return Err(valid.error);
      }
      if history[|history| - 1].version != target {
        return Err(NotReady);
      }
      if server.fingerprint(schema) != history[|history| - 1].fingerprint {
        return Err(FingerprintDrift);
      }
      if !server.contracts(schema, true, target >= 2, None) {
        return Err(ContractViolated);
      }
      r := Ok(target);
    }
  }

  function Readiness(db: Db, steps: seq<Step>, server: Server): Result<nat>
    requires steps != []
  {
    var target := steps[|steps| - 1].version;
    if db.history == [] then Err(HistoryMissing)
    else
      var valid := CheckHistory(db.history, steps);
      if valid.Err? then Err(valid.error)
      else if db.history[|db.history| - 1].version != target then Err(NotReady)
      else if !FingerprintMatches(db, server) then Err(FingerprintDrift)
      else if !server.contracts(db.schema, true, target >= 2, None) then Err(ContractViolated)
      else Ok(target)
  }

  /** The history, target-version and fingerprint parts of readiness. */
  ghost predicate IsReady(db: Db, steps: seq<Step>, server: Server) {
    |db.history| == |steps| > 0 && IsHistoryOf(db.history, steps) && FingerprintMatches(db, server)
  }

  // --- What every attempt keeps ---

  lemma {:induction false} PendingKeepsConsistency(db: Db, steps: seq<Step>, server: Server)
    requires Consistent(db, steps, server)
    ensures var (after, outcome) := ApplyPending(db, steps, |db.history|, server);
            && Consistent(after, steps, server)
            && db.history <= after.history
            && (outcome.Ok? ==> |after.history| == |steps|)
    decreases |steps| - |db.history|
  {
    if |db.history| < |steps| {
      var step := ApplyStep(db, steps[|db.history|], server);
      if step.Ok? {
        PendingKeepsConsistency(step.value, steps, server);
      }
    }
  }

  /** Any attempt, wherever it breaks off, leaves a consistent database; a successful one leaves it ready. */
  lemma AttemptKeepsConsistency(db: Db, steps: seq<Step>, server: Server)
    requires Consistent(db, steps, server) && steps != [] && ContiguousFromOne(steps)
    ensures var (after, outcome) := Attempt(db, steps, server);
            && Consistent(after, steps, server) && db.history <= after.history
            && (outcome.Ok? ==> IsReady(after, steps, server) && outcome.value == |steps|)
  {
    HistoryCheckAcceptsPrefixes(db.history, steps);
    PendingKeepsConsistency(db, steps, server);
  }

  /** On a ready database only the contracts of the serving role can still fail. */
  lemma ReadyMeansReady(db: Db, steps: seq<Step>, server: Server)
    requires steps != [] && ContiguousFromOne(steps)
    ensures IsReady(db, steps, server) <==>
              Readiness(db, steps, server)
              == if server.contracts(db.schema, true, |steps| >= 2, None) then Ok(|steps|) else Err(ContractViolated)
  {
    HistoryCheckAcceptsPrefixes(db.history, steps);
    if db.history != [] && IsHistoryOf(db.history, steps) {
      assert Records(db.history[|db.history| - 1], steps[|db.history| - 1]);
    }
  }

  lemma CalmStepIsSame(db: Db, step: Step, server: Server, calm: nat -> bool)
    requires ApplyStep(db, step, server).Ok? && forall v :: !calm(v)
    ensures ApplyStep(db, step, server.(breaksAt := calm)) == ApplyStep(db, step, server)
  {
  }

  lemma {:induction false} PendingResumes(db: Db, steps: seq<Step>, server: Server, calm: nat -> bool)
    requires Consistent(db, steps, server) && forall v :: !calm(v)
    ensures var stopped := ApplyPending(db, steps, |db.history|, server).0;
            && |stopped.history| <= |steps|
            && ApplyPending(stopped, steps, |stopped.history|, server.(breaksAt := calm))
               == ApplyPending(db, steps, |db.history|, server.(breaksAt := calm))
    decreases |steps| - |db.history|
  {
    if |db.history| < |steps| {
      var step := ApplyStep(db, steps[|db.history|], server);
      if step.Ok? {
        CalmStepIsSame(db, steps[|db.history|], server, calm);
        PendingKeepsConsistency(db, steps, server);
        PendingResumes(step.value, steps, server, calm);
      }
    }
  }

  /** Rerunning, with a connection that holds, after an attempt that broke off anywhere is one such attempt. */
  lemma RerunCompletes(db: Db, steps: seq<Step>, server: Server, calm: nat -> bool)
    requires Consistent(db, steps, server) && steps != [] && ContiguousFromOne(steps) && forall v :: !calm(v)
    ensures Attempt(Attempt(db, steps, server).0, steps, server.(breaksAt := calm))
            == Attempt(db, steps, server.(breaksAt := calm))
  {
    AttemptKeepsConsistency(db, steps, server);
    HistoryCheckAcceptsPrefixes(db.history, steps);
    HistoryCheckAcceptsPrefixes(Attempt(db, steps, server).0.history, steps);
    PendingResumes(db, steps, server, calm);
  }

  /** A database that is not ready is refused for the first thing that is wrong with it. */
  lemma UnreadySaysWhy(db: Db, steps: seq<Step>, server: Server)
    requires steps != [] && ContiguousFromOne(steps)
    ensures var r := Readiness(db, steps, server);
            if db.history == [] then r == Err(HistoryMissing)
            else if !IsHistoryOf(db.history, steps) then
              r.Err? && (r.error == HistoryNotContiguous || r.error == DatabaseIsNewer || r.error.HistoryMismatch?)
            else if |db.history| < |steps| then r == Err(NotReady)
            else if db.history[|steps| - 1].fingerprint != server.fingerprint(db.schema) then r == Err(FingerprintDrift)
            else r == if server.contracts(db.schema, true, |steps| >= 2, None) then Ok(|steps|)
                      else Err(ContractViolated)
  {
    HistoryCheckAcceptsPrefixes(db.history, steps);
    if db.history != [] && IsHistoryOf(db.history, steps) {
      assert Records(db.history[|db.history| - 1], steps[|db.history| - 1]);
    }
  }

  /** After a successful attempt, a further one applies nothing and succeeds. */
  lemma FurtherRunAppliesNothing(db: Db, steps: seq<Step>, server: Server, later: nat -> bool)
    requires Consistent(db, steps, server) && steps != [] && ContiguousFromOne(steps)
    requires Attempt(db, steps, server).1.Ok?
    ensures var after := Attempt(db, steps, server).0;
            Attempt(after, steps, server.(breaksAt := later)) == (after, Ok(|steps|))
  {
    AttemptKeepsConsistency(db, steps, server);
  }

  // --- What an attempt has run, and why it stopped ---

  /** One step done: its script, as read in text mode, was executed, the contracts hold, and one row says so. */
  ghost predicate StepDone(before: Db, step: Step, server: Server, after: Db) {
    && !server.breaksAt(step.version)
    && server.execute(before.schema, UniversalNewlines(step.file.content)) == Some(after.schema)
    && server.contracts(after.schema, step.version >= 3, step.version >= 2, Some(step.version))
    && after.history == before.history + [AppliedMigration(step.version, step.name,
                                                           Sha256(UniversalNewlines(step.file.content)),
                                                           server.fingerprint(after.schema))]
  }

  /** Why a run stopped before this step: the connection, the script or the contracts, in this order. */
  ghost predicate StoppedAt(db: Db, step: Step, server: Server, error: SchemaError) {
    if server.breaksAt(step.version) then error == ConnectionLost
    else match server.execute(db.schema, UniversalNewlines(step.file.content))
      case None => error == ScriptFailed(step.version)
      case Some(after) =>
        error == ContractViolated && !server.contracts(after, step.version >= 3, step.version >= 2, Some(step.version))
  }

  /** Databases a run went through, step after step. */
  ghost predicate IsRunOf(run: seq<Db>, steps: seq<Step>, server: Server) {
    && run != []
    && forall i :: 0 < i < |run| ==> IsNext(run[i - 1], steps, server, run[i])
  }

  ghost predicate IsNext(before: Db, steps: seq<Step>, server: Server, after: Db) {
    |before.history| < |steps| && StepDone(before, steps[|before.history|], server, after)
  }

  lemma OneMoreInFront(db: Db, run: seq<Db>, steps: seq<Step>, server: Server)
    requires IsRunOf(run, steps, server) && IsNext(db, steps, server, run[0])
    ensures IsRunOf([db] + run, steps, server)
  {
    var all := [db] + run;
    forall i | 0 < i < |all| ensures IsNext(all[i - 1], steps, server, all[i]) {
      assert i > 1 ==> all[i - 1] == run[i - 2] && all[i] == run[i - 1];
    }
  }

  lemma AppliedIsDone(db: Db, step: Step, server: Server)
    ensures match ApplyStep(db, step, server)
            case Ok(after) => StepDone(db, step, server, after)
            case Err(error) => StoppedAt(db, step, server, error)
  {
    ReadingFactorsThroughReplacement(step.file.content);
  }

  lemma {:induction false} PendingIsRun(db: Db, steps: seq<Step>, server: Server) returns (run: seq<Db>)
    requires |db.history| <= |steps|
    ensures var (after, outcome) := ApplyPending(db, steps, |db.history|, server);
            && IsRunOf(run, steps, server) && run[0] == db && run[|run| - 1] == after
            && |after.history| <= |steps| && (outcome.Ok? <==> |after.history| == |steps|)
            && (outcome.Err? ==> StoppedAt(after, steps[|after.history|], server, outcome.error))
    decreases |steps| - |db.history|
  {
    run := [db];
    if |db.history| < |steps| {
      AppliedIsDone(db, steps[|db.history|], server);
      var step := ApplyStep(db, steps[|db.history|], server);
      if step.Ok? {
        var rest := PendingIsRun(step.value, steps, server);
        OneMoreInFront(db, rest, steps, server);
        run := [db] + rest;
      }
    }
  }

  /** What an attempt asks of the database before it runs a script. */
  ghost predicate MayStart(db: Db, steps: seq<Step>, server: Server) {
    && IsHistoryOf(db.history, steps)
    && (db.history == [] ==> db.schema == Schema("qmtool_migrator", {}))
    && (db.history != [] ==> db.history[|db.history| - 1].fingerprint == server.fingerprint(db.schema))
  }

  lemma FullHistoryPasses(db: Db, steps: seq<Step>, server: Server)
    requires steps != [] && ContiguousFromOne(steps) && Consistent(db, steps, server) && |db.history| == |steps|
    ensures CheckAfter(db, steps, server)
            == if server.contracts(db.schema, |steps| >= 3, |steps| >= 2, None) then Ok(|steps|)
               else Err(ContractViolated)
  {
    HistoryCheckAcceptsPrefixes(db.history, steps);
    assert Records(db.history[|steps| - 1], steps[|steps| - 1]);
  }

  lemma RefusedIsUntouched(db: Db, steps: seq<Step>, server: Server)
    requires steps != [] && ContiguousFromOne(steps)
    ensures CheckBefore(db, steps, server).Ok? <==> MayStart(db, steps, server)
    ensures !MayStart(db, steps, server) ==>
              Attempt(db, steps, server).0 == db && Attempt(db, steps, server).1.Err?
  {
    HistoryCheckAcceptsPrefixes(db.history, steps);
  }

  /**
   Every attempt: it refuses a database that is not its own and leaves it as it is. Otherwise the scripts of the steps
   it records have been executed one on the other, from the schema it found to the schema it leaves, and it stops
   before the first step whose connection, script or contracts fail; with all of them applied it is Ok or fails on the
   contracts of the finished schema.
   */
  lemma AttemptExecutesScripts(db: Db, steps: seq<Step>, server: Server) returns (run: seq<Db>)
    requires steps != [] && ContiguousFromOne(steps)
    ensures !MayStart(db, steps, server) ==>
              Attempt(db, steps, server).0 == db && Attempt(db, steps, server).1.Err?
    ensures MayStart(db, steps, server) ==>
              var (after, outcome) := Attempt(db, steps, server);
              && IsRunOf(run, steps, server) && run[0] == db && run[|run| - 1] == after
              && |after.history| <= |steps|
              && (|after.history| < |steps| ==>
                    outcome.Err? && StoppedAt(after, steps[|after.history|], server, outcome.error))
              && (|after.history| == |steps| ==>
                    outcome == if server.contracts(after.schema, |steps| >= 3, |steps| >= 2, None) then Ok(|steps|)
                               else Err(ContractViolated))
  {
    run := [];
    RefusedIsUntouched(db, steps, server);
    if MayStart(db, steps, server) {
      run := PendingIsRun(db, steps, server);
      PendingKeepsConsistency(db, steps, server);
      var after := ApplyPending(db, steps, |db.history|, server).0;
      if |after.history| == |steps| {
        FullHistoryPasses(after, steps, server);
      }
    }
  }

  /** What is wrong with a database that is refused, in the order it is asked. */
  lemma RefusalsSayWhy(db: Db, steps: seq<Step>, server: Server)
    requires steps != [] && ContiguousFromOne(steps) && !MayStart(db, steps, server)
    ensures var outcome := Attempt(db, steps, server).1;
            outcome.Err?
            && if exists i :: 0 <= i < |db.history| && db.history[i].version != i + 1 then
                 outcome.error == HistoryNotContiguous
               else if |db.history| > |steps| then outcome.error == DatabaseIsNewer
               else if !IsHistoryOf(db.history, steps) then outcome.error.HistoryMismatch?
               else outcome.error == if db.history == [] then BootstrapRefused else FingerprintDrift
  {
    RefusedIsUntouched(db, steps, server);
    HistoryCheckAcceptsPrefixes(db.history, steps);
  }

  // --- Releases over time ---

  datatype Run = Run(release: nat, breaksAt: nat -> bool)

  ghost function Runs(db: Db, releases: seq<seq<Step>>, runs: seq<Run>, server: Server): Db
    requires forall r :: r in runs ==> r.release < |releases|
    requires forall k :: 0 <= k < |releases| ==> releases[k] != []
    decreases |runs|
  {
    if runs == [] then db
    else
      var before := Runs(db, releases, runs[..|runs| - 1], server);
      var last := runs[|runs| - 1];
      Attempt(before, releases[last.release], server.(breaksAt := last.breaksAt)).0
  }

  lemma {:induction false} ExtensionIsTransitive(a: seq<Step>, b: seq<Step>, c: seq<Step>)
    requires ExtendsRelease(a, b) && ExtendsRelease(b, c)
    ensures ExtendsRelease(a, c)
  {
  }

  /** Every release a gate has passed against its predecessor. */
  ghost predicate GatedReleases(releases: seq<seq<Step>>) {
    && (forall k :: 0 <= k < |releases| ==> releases[k] != [] && ContiguousFromOne(releases[k]))
    && (forall k, i :: 0 <= k < |releases| && 0 <= i < |releases[k]| ==> ParsedFrom(releases[k][i]))
    && (forall k :: 0 < k < |releases| ==> ExtendsRelease(releases[k - 1], releases[k]))
  }

  lemma {:induction false} EarlierReleaseIsPrefix(releases: seq<seq<Step>>, k: nat, n: nat)
    requires GatedReleases(releases) && k <= n < |releases|
    ensures ExtendsRelease(releases[k], releases[n])
  {
    if k < n {
      EarlierReleaseIsPrefix(releases, k, n - 1);
      ExtensionIsTransitive(releases[k], releases[n - 1], releases[n]);
    }
  }

  lemma AgreeOnHistories(a: seq<Step>, b: seq<Step>, applied: seq<AppliedMigration>)
    requires ExtendsRelease(a, b) && |applied| <= |a|
    requires forall i :: 0 <= i < |a| ==> ParsedFrom(a[i])
    requires forall i :: 0 <= i < |b| ==> ParsedFrom(b[i])
    ensures IsHistoryOf(applied, a) <==> IsHistoryOf(applied, b)
  {
    forall i | 0 <= i < |applied| ensures Records(applied[i], a[i]) <==> Records(applied[i], b[i]) {
      assert ParsedFrom(a[i]) && ParsedFrom(b[i]);
      SameGateTextSameChecksum(a[i].file.content, b[i].file.content);
    }
  }

  /**
   Over any sequence of attempts, by any of the gated releases, in any order, breaking off anywhere: the database
   stays consistent with the newest release, so the newest release can always take it over.
   */
  lemma {:induction false} GatedReleasesNeverStrandADatabase(db: Db, releases: seq<seq<Step>>, runs: seq<Run>,
                                                             server: Server)
    requires GatedReleases(releases) && releases != []
    requires db.history == [] && IsBootstrap(db.schema)
    requires forall r :: r in runs ==> r.release < |releases|
    ensures Consistent(Runs(db, releases, runs, server), releases[|releases| - 1], server)
    decreases |runs|
  {
    if runs != [] {
      var front, last := runs[..|runs| - 1], runs[|runs| - 1];
      GatedReleasesNeverStrandADatabase(db, releases, front, server);
      OneMoreRun(Runs(db, releases, front, server), releases, last, server);
    }
  }

  lemma OneMoreRun(before: Db, releases: seq<seq<Step>>, run: Run, server: Server)
    requires GatedReleases(releases) && run.release < |releases|
    requires Consistent(before, releases[|releases| - 1], server)
    ensures Consistent(Attempt(before, releases[run.release], server.(breaksAt := run.breaksAt)).0,
                       releases[|releases| - 1], server)
  {
    EarlierReleaseIsPrefix(releases, run.release, |releases| - 1);
    RunOfReleaseKeepsConsistency(before, releases[run.release], releases[|releases| - 1],
                                 server.(breaksAt := run.breaksAt));
  }

  lemma RunOfReleaseKeepsConsistency(db: Db, used: seq<Step>, newest: seq<Step>, server: Server)
    requires used != [] && newest != [] && ContiguousFromOne(used) && ContiguousFromOne(newest)
    requires ExtendsRelease(used, newest)
    requires forall i :: 0 <= i < |used| ==> ParsedFrom(used[i])
    requires forall i :: 0 <= i < |newest| ==> ParsedFrom(newest[i])
    requires Consistent(db, newest, server)
    ensures Consistent(Attempt(db, used, server).0, newest, server)
  {
    HistoryCheckAcceptsPrefixes(db.history, used);
    if IsHistoryOf(db.history, used) {
      AttemptKeepsConsistency(db, used, server);
      AgreeOnHistories(used, newest, Attempt(db, used, server).0.history);
    }
  }

  // --- From gates to releases ---

  /**
   Trees of migration files, each of which passed the gate against the one before, the first against an empty base.
   */
  ghost predicate PassedGates(trees: seq<seq<MigrationFile>>, readable: seq<set<string>>) {
    && |readable| == |trees|
    && (forall k :: 0 <= k < |trees| ==> DistinctNames(trees[k]))
    && (forall k :: 0 <= k < |trees| ==> Passes(BaseOf(trees, readable, k), trees[k]))
  }

  function BaseOf(trees: seq<seq<MigrationFile>>, readable: seq<set<string>>, k: nat): BaseRef
    requires |readable| == |trees| && k <= |trees|
  {
    if k == 0 then BaseRef(true, true, [], {}) else BaseRef(true, true, trees[k - 1], readable[k - 1])
  }

  /** The steps each tree registers. */
  ghost function ReleasesOf(trees: seq<seq<MigrationFile>>): (releases: seq<seq<Step>>)
    ensures |releases| == |trees| && forall k :: 0 <= k < |trees| ==> releases[k] == StepsOf(trees[k])
  {
    seq(|trees|, k requires 0 <= k < |trees| => StepsOf(trees[k]))
  }

  ghost function StepsOf(tree: seq<MigrationFile>): seq<Step> {
    if Discover(tree).Ok? then Discover(tree).value else []
  }

  lemma PassedTreeIsAChain(base: BaseRef, tree: seq<MigrationFile>)
    requires Passes(base, tree)
    ensures Discover(tree).Ok? && StepsOf(tree) != [] && ContiguousFromOne(StepsOf(tree))
    ensures forall i :: 0 <= i < |StepsOf(tree)| ==> ParsedFrom(StepsOf(tree)[i])
  {
    DiscoveredSteps(tree);
  }

  lemma PassedTreeExtends(base: BaseRef, tree: seq<MigrationFile>)
    requires DistinctNames(base.files) && DistinctNames(tree) && Passes(base, tree) && StepsOf(base.files) != []
    ensures ExtendsRelease(StepsOf(base.files), StepsOf(tree))
  {
    GateMeansExtension(base, tree);
    DiscoveredSteps(base.files);
  }

  lemma PassedGatesAreReleases(trees: seq<seq<MigrationFile>>, readable: seq<set<string>>)
    requires PassedGates(trees, readable)
    ensures GatedReleases(ReleasesOf(trees))
  {
    forall k | 0 <= k < |trees|
      ensures StepsOf(trees[k]) != [] && ContiguousFromOne(StepsOf(trees[k]))
      ensures forall i :: 0 <= i < |StepsOf(trees[k])| ==> ParsedFrom(StepsOf(trees[k])[i])
    {
      PassedTreeIsAChain(BaseOf(trees, readable, k), trees[k]);
    }
    forall k | 0 < k < |trees| ensures ExtendsRelease(StepsOf(trees[k - 1]), StepsOf(trees[k])) {
      PassedTreeExtends(BaseOf(trees, readable, k), trees[k]);
    }
  }

  /** So the gate's checks, from the first release on, are all it takes. */
  lemma PassedGatesNeverStrandADatabase(db: Db, trees: seq<seq<MigrationFile>>, readable: seq<set<string>>,
                                        runs: seq<Run>, server: Server)
    requires PassedGates(trees, readable) && trees != []
    requires db.history == [] && IsBootstrap(db.schema)
    requires forall r :: r in runs ==> r.release < |trees|
    ensures forall k :: 0 <= k < |trees| ==> ReleasesOf(trees)[k] != []
    ensures Consistent(Runs(db, ReleasesOf(trees), runs, server), StepsOf(trees[|trees| - 1]), server)
  {
    var releases := ReleasesOf(trees);
    PassedGatesAreReleases(trees, readable);
    ConsistentWithNewest(db, releases, runs, server, StepsOf(trees[|trees| - 1]));
  }

  lemma ConsistentWithNewest(db: Db, releases: seq<seq<Step>>, runs: seq<Run>, server: Server, newest: seq<Step>)
    requires GatedReleases(releases) && releases != [] && newest == releases[|releases| - 1]
    requires db.history == [] && IsBootstrap(db.schema)
    requires forall r :: r in runs ==> r.release < |releases|
    ensures Consistent(Runs(db, releases, runs, server), newest, server)
  {
    GatedReleasesNeverStrandADatabase(db, releases, runs, server);
  }
}
