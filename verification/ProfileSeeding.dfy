/** Concurrent seeding of workflow profiles: one lock, one transaction, any interleaving, any crash. */
module ProfileSeeding {
  import opened Sequences
  import opened Contracts
  import opened WorkflowProfiles

  const DOCUMENT_TYPES: seq<DocumentType> := [VA, AA, FB, LS, EXT, OTHER]

  /** Rows of the tables one import writes; a version row stands for the payload it was made from. */
  datatype Row =
    | Definition(code: string)
    | Version(code: string, payload: ProfileDefinition)
    | Transition(code: string, transition: TransitionDefinition)
    | Binding(docType: DocumentType, code: string)
    | ImportRow(seeder: nat)

  /** A seed file: its profiles in file order, and whether every one can be validated and stored. */
  datatype Seed = Seed(profiles: seq<ProfileDefinition>, profilesValid: bool)

  /** An import succeeds only if all profiles validate and every type binding names an imported profile. */
  predicate Importable(seed: Seed) {
    seed.profilesValid && HasCode(seed.profiles, BoundCode(VA)) && HasCode(seed.profiles, BoundCode(EXT))
  }

  function Transitions(code: string, ts: seq<TransitionDefinition>): (rows: seq<Row>)
    ensures |rows| == |ts| && forall i :: 0 <= i < |ts| ==> rows[i] == Transition(code, ts[i])
  {
    seq(|ts|, i requires 0 <= i < |ts| => Transition(code, ts[i]))
  }

  /** Definition, version and transitions of each profile, profile by profile. */
  function ProfileRows(profiles: seq<ProfileDefinition>): (rows: seq<Row>)
    ensures profiles != [] ==> rows != [] && rows[0] == Definition(profiles[0].profileCode)
  {
    if profiles == [] then []
    else
      var p := profiles[0];
      [Definition(p.profileCode), Version(p.profileCode, p)] + Transitions(p.profileCode, p.transitions)
      + ProfileRows(profiles[1..])
  }

  function Bindings(): seq<Row> {
    seq(6, i requires 0 <= i < 6 => Binding(DOCUMENT_TYPES[i], BoundCode(DOCUMENT_TYPES[i])))
  }

  /** All rows one import writes, in order. */
  function SeedRows(seed: Seed, seeder: nat): seq<Row> {
    ProfileRows(seed.profiles) + Bindings() + [ImportRow(seeder)]
  }

  datatype Outcome = Seeded | AlreadySeeded | RefusedReseed | Inconsistent | Rejected | Crashed

  datatype Phase =
    | Idle
    | Waiting
    | Locked
    | EmptyStock
    | Importing
    | Checking
    | Done(outcome: Outcome)

  /** A seeder: where it stands and what its open transaction has written. */
  datatype Seeder = Seeder(seed: Seed, phase: Phase, written: seq<Row>)

  datatype System = System(committed: seq<Row>, holder: Option<nat>, seeders: seq<Seeder>)

  predicate HasDefinitions(rows: seq<Row>) {
    exists i :: 0 <= i < |rows| && rows[i].Definition?
  }

  /** The observed stock counts imports and type bindings besides definitions, and nothing else. */
  predicate HasOtherStock(rows: seq<Row>) {
    exists i :: 0 <= i < |rows| && (rows[i].ImportRow? || rows[i].Binding?)
  }

  predicate AllTypesBound(rows: seq<Row>) {
    forall t :: t in DOCUMENT_TYPES ==> exists i :: 0 <= i < |rows| && rows[i].Binding? && rows[i].docType == t
  }

  datatype Action = Begin | Acquire | Observe | Recheck | Write | Commit | Check | Reject | Crash

  function Moved(sys: System, i: nat, s: Seeder): System
    requires i < |sys.seeders|
  {
    sys.(seeders := sys.seeders[i := s])
  }

  /** End of the transaction: the lock goes with it, and without a commit so do its rows. */
  function Ended(sys: System, i: nat, outcome: Outcome): System
    requires i < |sys.seeders|
  {
    Moved(sys, i, sys.seeders[i].(phase := Done(outcome), written := []))
      .(holder := if sys.holder == Some(i) then None else sys.holder)
  }

  /**
   What one action does, or nothing if it is not possible. Every statement sees what is committed when it runs,
   plus the transaction's own rows.
   */
  function Act(sys: System, i: nat, action: Action): Option<System>
    requires i < |sys.seeders|
  {
    var s := sys.seeders[i];
    var visible := sys.committed + s.written;
    match (action, s.phase)
    case (Begin, Idle) => Some(Moved(sys, i, s.(phase := Waiting)))
    case (Acquire, Waiting) =>
      if sys.holder.Some? then None else Some(Moved(sys, i, s.(phase := Locked)).(holder := Some(i)))
    case (Observe, Locked) =>
      if HasDefinitions(visible) then Some(Moved(sys, i, s.(phase := Checking)))
      else if HasOtherStock(visible) then Some(Ended(sys, i, RefusedReseed))
      else Some(Moved(sys, i, s.(phase := EmptyStock)))
    case (Recheck, EmptyStock) =>
      Some(Moved(sys, i, s.(phase := if HasDefinitions(visible) then Checking else Importing)))
    case (Write, Importing) =>
      if |s.written| < |SeedRows(s.seed, i)| && Importable(s.seed) then
        Some(Moved(sys, i, s.(written := s.written + [SeedRows(s.seed, i)[|s.written|]])))
      else None
    case (Reject, Importing) => if Importable(s.seed) then None else Some(Ended(sys, i, Rejected))
    case (Commit, Importing) =>
      if |s.written| == |SeedRows(s.seed, i)| then
        Some(Ended(sys, i, Seeded).(committed := sys.committed + s.written))
      else None
    case (Check, Checking) => Some(Ended(sys, i, if AllTypesBound(visible) then AlreadySeeded else Inconsistent))
    case (Crash, _) => if s.phase.Done? then None else Some(Ended(sys, i, Crashed))
    case _ => None
  }

  predicate InTransaction(p: Phase) {
    p.Locked? || p.EmptyStock? || p.Importing? || p.Checking?
  }

  /** The committed stock is empty, or exactly what one seeder's import writes. */
  ghost predicate WholeSeedOrNothing(sys: System) {
    sys.committed == [] || exists k :: 0 <= k < |sys.seeders| && IsWinner(sys, k)
  }

  ghost predicate IsWinner(sys: System, k: nat)
    requires k < |sys.seeders|
  {
    var s := sys.seeders[k];
    s.phase == Done(Seeded) && Importable(s.seed) && sys.committed == SeedRows(s.seed, k)
  }

  ghost predicate SeederFits(sys: System, i: nat)
    requires i < |sys.seeders|
  {
    var s := sys.seeders[i];
    && (InTransaction(s.phase) <==> sys.holder == Some(i))
    && (s.phase.Importing? || s.written == [])
    && (s.phase.EmptyStock? ==> sys.committed == [])
    && (s.phase.Importing? ==>
          sys.committed == [] && s.written <= SeedRows(s.seed, i) && (s.written != [] ==> Importable(s.seed)))
    && (s.phase.Checking? ==> sys.committed != [])
    && s.phase != Done(RefusedReseed) && s.phase != Done(Inconsistent)
    && (s.phase == Done(Seeded) ==> sys.committed == SeedRows(s.seed, i))
    && (s.phase == Done(AlreadySeeded) ==> sys.committed != [])
    && (s.phase == Done(Rejected) ==> !Importable(s.seed))
  }

  ghost predicate Invariant(sys: System) {
    WholeSeedOrNothing(sys) && forall i :: 0 <= i < |sys.seeders| ==> SeederFits(sys, i)
  }

  lemma SeedIsVisible(seed: Seed, k: nat)
    requires Importable(seed)
    ensures HasDefinitions(SeedRows(seed, k)) && AllTypesBound(SeedRows(seed, k))
  {
    var rows := SeedRows(seed, k);
    assert rows[0] == Definition(seed.profiles[0].profileCode);
    forall t | t in DOCUMENT_TYPES ensures exists i :: 0 <= i < |rows| && rows[i].Binding? && rows[i].docType == t {
      var j :| 0 <= j < |DOCUMENT_TYPES| && DOCUMENT_TYPES[j] == t;
      assert rows[|ProfileRows(seed.profiles)| + j] == Bindings()[j];
    }
  }

  /** A change to one seeder that leaves the stock alone and the lock to the others. */
  lemma LocalChange(sys: System, next: System, i: nat)
    requires i < |sys.seeders| && Invariant(sys)
    requires next.committed == sys.committed && |next.seeders| == |sys.seeders|
    requires forall k :: 0 <= k < |sys.seeders| && k != i ==>
               next.seeders[k] == sys.seeders[k] && (next.holder == Some(k) <==> sys.holder == Some(k))
    requires next.seeders[i].seed == sys.seeders[i].seed && SeederFits(next, i) && !sys.seeders[i].phase.Done?
    ensures Invariant(next)
  {
    forall k | 0 <= k < |next.seeders| ensures SeederFits(next, k) {
      assert SeederFits(sys, k);
    }
    if sys.committed != [] {
      var k :| 0 <= k < |sys.seeders| && IsWinner(sys, k);
      assert IsWinner(next, k);
    }
  }

  lemma StockIsVisible(sys: System)
    requires Invariant(sys)
    ensures sys.committed != [] ==> HasDefinitions(sys.committed) && AllTypesBound(sys.committed)
  {
    if sys.committed != [] {
      var k :| 0 <= k < |sys.seeders| && IsWinner(sys, k);
      SeedIsVisible(sys.seeders[k].seed, k);
    }
  }

  /** Committing: the stock was empty and the writes are the whole import. */
  lemma CommitKeepsInvariant(sys: System, i: nat)
    requires i < |sys.seeders| && Invariant(sys) && Act(sys, i, Commit).Some?
    ensures Invariant(Act(sys, i, Commit).value) && sys.committed == []
  {
    var s := sys.seeders[i];
    var next := Act(sys, i, Commit).value;
    assert SeederFits(sys, i);
    assert s.written == SeedRows(s.seed, i) && next.committed == s.written;
    assert IsWinner(next, i);
    forall k | 0 <= k < |next.seeders| ensures SeederFits(next, k) {
      assert SeederFits(sys, k);
    }
  }

  lemma WriteExtendsPrefix(written: seq<Row>, rows: seq<Row>)
    requires written <= rows && |written| < |rows|
    ensures written + [rows[|written|]] <= rows
  {
  }

  /** Any possible action of any seeder keeps the invariant, and never changes a stock once committed. */
  lemma ActKeepsInvariant(sys: System, i: nat, action: Action)
    requires i < |sys.seeders| && Invariant(sys) && Act(sys, i, action).Some?
    ensures var next := Act(sys, i, action).value;
            && Invariant(next) && SameSeeders(sys, next)
            && (sys.committed != [] ==> next.committed == sys.committed)
  {
    var s := sys.seeders[i];
    var next := Act(sys, i, action).value;
    assert SeederFits(sys, i);
    if action == Commit {
      CommitKeepsInvariant(sys, i);
    } else {
      StockIsVisible(sys);
      assert sys.committed + [] == sys.committed;
      if action == Write {
        WriteExtendsPrefix(s.written, SeedRows(s.seed, i));
      }
      SeederStillFits(sys, i, action);
      LocalChange(sys, next, i);
    }
  }

  ghost predicate SameSeeders(a: System, b: System) {
    |a.seeders| == |b.seeders| && forall k :: 0 <= k < |a.seeders| ==> a.seeders[k].seed == b.seeders[k].seed
  }

  lemma SeederStillFits(sys: System, i: nat, action: Action)
    requires i < |sys.seeders| && Invariant(sys) && Act(sys, i, action).Some? && action != Commit
    ensures SeederFits(Act(sys, i, action).value, i)
  {
    var s := sys.seeders[i];
    assert SeederFits(sys, i);
    StockIsVisible(sys);
    assert sys.committed + [] == sys.committed;
    if action == Write {
      WriteExtendsPrefix(s.written, SeedRows(s.seed, i));
    }
  }

  // --- Runs ---

  /** A run: each seeder starts idle with its own seed on an empty stock, then actions in any order. */
  ghost predicate IsStart(sys: System) {
    sys.committed == [] && sys.holder == None
    && forall i :: 0 <= i < |sys.seeders| ==> sys.seeders[i].phase == Idle && sys.seeders[i].written == []
  }

  ghost predicate IsRun(run: seq<System>) {
    && run != [] && IsStart(run[0])
    && forall n :: 0 < n < |run| ==> StepAt(run, n)
  }

  ghost predicate StepAt(run: seq<System>, n: nat)
    requires 0 < n < |run|
  {
    IsStep(run[n - 1], run[n])
  }

  ghost predicate IsStep(a: System, b: System) {
    exists i, action :: 0 <= i < |a.seeders| && Act(a, i, action) == Some(b)
  }

  lemma {:induction false} RunKeepsInvariant(run: seq<System>, n: nat)
    requires IsRun(run) && n < |run|
    ensures Invariant(run[n]) && SameSeeders(run[0], run[n])
  {
    if n == 0 {
      forall i | 0 <= i < |run[0].seeders| ensures SeederFits(run[0], i) {
      }
    } else {
      RunKeepsInvariant(run, n - 1);
      assert StepAt(run, n);
      var i, action :| 0 <= i < |run[n - 1].seeders| && Act(run[n - 1], i, action) == Some(run[n]);
      ActKeepsInvariant(run[n - 1], i, action);
    }
  }

  lemma {:induction false} CommittedStockStays(run: seq<System>, m: nat, n: nat)
    requires IsRun(run) && m <= n < |run| && run[m].committed != []
    ensures run[n].committed == run[m].committed
  {
    if m < n {
      CommittedStockStays(run, m, n - 1);
      RunKeepsInvariant(run, n - 1);
      assert StepAt(run, n);
      var i, action :| 0 <= i < |run[n - 1].seeders| && Act(run[n - 1], i, action) == Some(run[n]);
      ActKeepsInvariant(run[n - 1], i, action);
    }
  }

  // --- What the committed stock can be ---

  function IsImport(): Row -> bool {
    (r: Row) => r.ImportRow?
  }

  lemma {:induction false} NoImportRow(rows: seq<Row>)
    requires forall i :: 0 <= i < |rows| ==> !rows[i].ImportRow?
    ensures Keep(rows, IsImport()) == []
  {
    if rows != [] {
      NoImportRow(rows[1..]);
    }
  }

  lemma SeedHasOneImportRow(seed: Seed, k: nat)
    ensures Keep(SeedRows(seed, k), IsImport()) == [ImportRow(k)]
  {
    var front := ProfileRows(seed.profiles) + Bindings();
    NoImportAmongProfiles(seed.profiles);
    NoImportRow(front);
    KeepConcat(front, [ImportRow(k)], IsImport());
  }

  lemma {:induction false} NoImportAmongProfiles(profiles: seq<ProfileDefinition>)
    ensures forall i :: 0 <= i < |ProfileRows(profiles)| ==> !ProfileRows(profiles)[i].ImportRow?
  {
    if profiles != [] {
      NoImportAmongProfiles(profiles[1..]);
    }
  }

  /**
   At every point of every run the committed stock is empty or one seeder's complete seed with its one import row;
   that seeder is the only one that reports having seeded, and nobody is refused or finds the stock inconsistent.
   */
  lemma SeedingIsAtomic(run: seq<System>, n: nat)
    requires IsRun(run) && n < |run|
    ensures var sys := run[n];
            && (sys.committed == [] || exists k :: 0 <= k < |sys.seeders| && IsWinner(sys, k))
            && (sys.committed != [] ==> |Keep(sys.committed, IsImport())| == 1)
            && (forall i :: 0 <= i < |sys.seeders| ==>
                  && (sys.seeders[i].phase == Done(Seeded) <==> sys.committed == SeedRows(sys.seeders[i].seed, i))
                  && sys.seeders[i].phase != Done(RefusedReseed) && sys.seeders[i].phase != Done(Inconsistent))
  {
    RunKeepsInvariant(run, n);
    var sys := run[n];
    if sys.committed != [] {
      var k :| 0 <= k < |sys.seeders| && IsWinner(sys, k);
      SeedHasOneImportRow(sys.seeders[k].seed, k);
    }
    forall i | 0 <= i < |sys.seeders|
      ensures sys.seeders[i].phase == Done(Seeded) <==> sys.committed == SeedRows(sys.seeders[i].seed, i)
      ensures sys.seeders[i].phase != Done(RefusedReseed) && sys.seeders[i].phase != Done(Inconsistent)
    {
      assert SeederFits(sys, i);
      if sys.committed == SeedRows(sys.seeders[i].seed, i) {
        var k :| 0 <= k < |sys.seeders| && IsWinner(sys, k);
        assert sys.committed[|sys.committed| - 1] == ImportRow(i) == ImportRow(k);
      }
    }
  }

  predicate LateComer(p: Phase) {
    p in {Idle, Waiting, Locked, Checking, Done(AlreadySeeded), Done(Crashed)}
  }

  /**
   A seeder that has not looked at the stock when a seed is committed can only end on the consistency path, or die.
   */
  lemma {:induction false} LaterSeedersOnlyCheck(run: seq<System>, m: nat, n: nat, i: nat)
    requires IsRun(run) && m <= n < |run| && run[m].committed != []
    requires i < |run[m].seeders| && run[m].seeders[i].phase in {Idle, Waiting, Locked}
    ensures |run[n].seeders| == |run[m].seeders| && LateComer(run[n].seeders[i].phase)
  {
    if m < n {
      LaterSeedersOnlyCheck(run, m, n - 1, i);
      CommittedStockStays(run, m, n - 1);
      LateComersStayLateInRun(run, n, i);
    }
  }

  lemma LateComersStayLateInRun(run: seq<System>, n: nat, i: nat)
    requires IsRun(run) && 0 < n < |run| && run[n - 1].committed != []
    requires i < |run[n - 1].seeders| && LateComer(run[n - 1].seeders[i].phase)
    ensures |run[n].seeders| == |run[n - 1].seeders| && LateComer(run[n].seeders[i].phase)
  {
    RunKeepsInvariant(run, n - 1);
    assert StepAt(run, n);
    LateComersStayLate(run[n - 1], run[n], i);
  }

  lemma LateComersStayLate(a: System, b: System, i: nat)
    requires Invariant(a) && IsStep(a, b) && a.committed != [] && i < |a.seeders| && LateComer(a.seeders[i].phase)
    ensures |b.seeders| == |a.seeders| && LateComer(b.seeders[i].phase)
  {
    var k, action :| 0 <= k < |a.seeders| && Act(a, k, action) == Some(b);
    StockIsVisible(a);
    assert SeederFits(a, i);
    OthersDoNotMove(a, k, action, i);
    if k == i {
      LateComerActs(a, i, action);
    }
  }

  lemma OthersDoNotMove(sys: System, k: nat, action: Action, i: nat)
    requires k < |sys.seeders| && i < |sys.seeders| && Act(sys, k, action).Some?
    ensures var next := Act(sys, k, action).value;
            |next.seeders| == |sys.seeders| && (i != k ==> next.seeders[i] == sys.seeders[i])
  {
  }

  lemma LateComerActs(sys: System, i: nat, action: Action)
    requires i < |sys.seeders| && Act(sys, i, action).Some? && LateComer(sys.seeders[i].phase)
    requires sys.seeders[i].written == [] && HasDefinitions(sys.committed) && AllTypesBound(sys.committed)
    ensures LateComer(Act(sys, i, action).value.seeders[i].phase)
  {
    assert sys.committed + [] == sys.committed;
  }

  /** As long as one seeder is unfinished, some seeder can go on without crashing. */
  lemma NoDeadlock(run: seq<System>, n: nat, i: nat) returns (who: nat, action: Action)
    requires IsRun(run) && n < |run| && i < |run[n].seeders| && !run[n].seeders[i].phase.Done?
    ensures who < |run[n].seeders| && action != Crash && Act(run[n], who, action).Some?
  {
    RunKeepsInvariant(run, n);
    var sys := run[n];
    assert SeederFits(sys, i);
    if sys.holder.None? {
      who, action := i, if sys.seeders[i].phase.Idle? then Begin else Acquire;
    } else {
      who := HolderIsSeeder(run, n);
      assert SeederFits(sys, who);
      var s := sys.seeders[who];
      action := match s.phase
        case Locked => Observe
        case EmptyStock => Recheck
        case Checking => Check
        case _ =>
          if !Importable(s.seed) then Reject
          else if |s.written| < |SeedRows(s.seed, who)| then Write
          else Commit;
    }
  }

  lemma {:induction false} HolderIsSeeder(run: seq<System>, n: nat) returns (who: nat)
    requires IsRun(run) && n < |run| && run[n].holder.Some?
    ensures who < |run[n].seeders| && run[n].holder == Some(who)
  {
    who := run[n].holder.value;
    if n > 0 {
      assert StepAt(run, n);
      var i, action :| 0 <= i < |run[n - 1].seeders| && Act(run[n - 1], i, action) == Some(run[n]);
      if run[n - 1].holder == run[n].holder {
        var same := HolderIsSeeder(run, n - 1);
      }
    }
  }

  // --- What an import can do, row by row ---

  /** A seed can be imported if its profiles are valid and it has the two profiles the types are bound to. */
  lemma ImportableByFields(seed: Seed)
    ensures Importable(seed) <==>
            && seed.profilesValid
            && (exists p :: p in seed.profiles && p.profileCode == "long_release")
            && (exists p :: p in seed.profiles && p.profileCode == "external_control")
  {
    HasCodeIffIn(seed.profiles, "long_release");
    HasCodeIffIn(seed.profiles, "external_control");
  }

  lemma HasCodeIffIn(profiles: seq<ProfileDefinition>, code: string)
    ensures HasCode(profiles, code) <==> exists p :: p in profiles && p.profileCode == code
  {
    if p :| p in profiles && p.profileCode == code {
      var i :| 0 <= i < |profiles| && profiles[i] == p;
    }
    forall i | 0 <= i < |profiles| && profiles[i].profileCode == code
      ensures exists p :: p in profiles && p.profileCode == code
    {
      assert profiles[i] in profiles;
    }
  }

  /** A row of one of the profiles: its definition, its version, or one of its transitions. */
  ghost predicate IsRowOf(row: Row, p: ProfileDefinition) {
    || row == Definition(p.profileCode) || row == Version(p.profileCode, p)
    || (exists t :: t in p.transitions && row == Transition(p.profileCode, t))
  }

  /** What an import writes: the rows of its profiles, one binding for each type, and its own row. */
  lemma SeedRowsByFields(seed: Seed, seeder: nat, row: Row)
    ensures row in SeedRows(seed, seeder) <==>
            || (exists p :: p in seed.profiles && IsRowOf(row, p))
            || row == ImportRow(seeder) || row == Binding(EXT, "external_control")
            || (row.Binding? && row.docType != EXT && row.code == "long_release")
  {
    RowsOfProfiles(seed.profiles, row);
    BindingsSpelled(row);
  }

  lemma {:induction false} RowsOfProfiles(profiles: seq<ProfileDefinition>, row: Row)
    ensures row in ProfileRows(profiles) <==> exists p :: p in profiles && IsRowOf(row, p)
  {
    if profiles != [] {
      var p, rest := profiles[0], profiles[1..];
      RowsOfProfiles(rest, row);
      RowsOfOne(p, row);
      assert ProfileRows(profiles) == [Definition(p.profileCode), Version(p.profileCode, p)]
                                      + Transitions(p.profileCode, p.transitions) + ProfileRows(rest);
      assert forall q :: q in profiles <==> q == p || q in rest;
    }
  }

  lemma RowsOfOne(p: ProfileDefinition, row: Row)
    ensures row in [Definition(p.profileCode), Version(p.profileCode, p)] + Transitions(p.profileCode, p.transitions)
            <==> IsRowOf(row, p)
  {
    var rows := Transitions(p.profileCode, p.transitions);
    if t :| t in p.transitions && row == Transition(p.profileCode, t) {
      var i :| 0 <= i < |p.transitions| && p.transitions[i] == t;
      assert rows[i] == row;
    }
    if row in rows {
      var i :| 0 <= i < |rows| && rows[i] == row;
      assert p.transitions[i] in p.transitions;
    }
  }

  lemma BindingsSpelled(row: Row)
    ensures row in Bindings() <==>
            row == Binding(EXT, "external_control")
            || (row.Binding? && row.docType != EXT && row.code == "long_release")
  {
    var rows := Bindings();
    assert rows == [Binding(VA, "long_release"), Binding(AA, "long_release"), Binding(FB, "long_release"),
                    Binding(LS, "long_release"), Binding(EXT, "external_control"), Binding(OTHER, "long_release")];
    if row.Binding? {
      assert row.docType.VA? || row.docType.AA? || row.docType.FB? || row.docType.LS? || row.docType.EXT?
             || row.docType.OTHER?;
    }
  }

  /** What a seeder does on finding the stock: any definition sends it to the check, any import or binding without one
      refuses the seeding, and otherwise it goes on to import. */
  lemma ObservingByFields(sys: System, i: nat)
    requires i < |sys.seeders| && sys.seeders[i].phase.Locked?
    ensures var visible, next := sys.committed + sys.seeders[i].written, Act(sys, i, Observe);
            next.Some? && next.value.committed == sys.committed
            && next.value.seeders[i].phase
               == if exists row :: row in visible && row.Definition? then Checking
                  else if exists row :: row in visible && (row.ImportRow? || row.Binding?) then Done(RefusedReseed)
                  else EmptyStock
  {
    var visible := sys.committed + sys.seeders[i].written;
    forall k | 0 <= k < |visible| ensures visible[k] in visible {
    }
    if row :| row in visible && row.Definition? {
      var k :| 0 <= k < |visible| && visible[k] == row;
    }
    if row :| row in visible && (row.ImportRow? || row.Binding?) {
      var k :| 0 <= k < |visible| && visible[k] == row;
    }
  }

  ghost predicate IsBoundIn(rows: seq<Row>, d: DocumentType) {
    exists row :: row in rows && row.Binding? && row.docType == d
  }

  /** The check passes exactly if each of the six types is bound. */
  lemma CheckingByFields(sys: System, i: nat)
    requires i < |sys.seeders| && sys.seeders[i].phase.Checking?
    ensures var visible, next := sys.committed + sys.seeders[i].written, Act(sys, i, Check);
            next.Some? && next.value.committed == sys.committed
            && (next.value.seeders[i].phase == Done(AlreadySeeded) <==>
                  && IsBoundIn(visible, VA) && IsBoundIn(visible, AA) && IsBoundIn(visible, FB)
                  && IsBoundIn(visible, LS) && IsBoundIn(visible, EXT) && IsBoundIn(visible, OTHER))
            && (next.value.seeders[i].phase != Done(AlreadySeeded) ==>
                  next.value.seeders[i].phase == Done(Inconsistent))
  {
    AllBoundMeansEach(sys.committed + sys.seeders[i].written);
  }

  lemma AllBoundMeansEach(rows: seq<Row>)
    ensures AllTypesBound(rows) <==>
            && IsBoundIn(rows, VA) && IsBoundIn(rows, AA) && IsBoundIn(rows, FB)
            && IsBoundIn(rows, LS) && IsBoundIn(rows, EXT) && IsBoundIn(rows, OTHER)
  {
    assert VA in DOCUMENT_TYPES && AA in DOCUMENT_TYPES && FB in DOCUMENT_TYPES;
    assert LS in DOCUMENT_TYPES && EXT in DOCUMENT_TYPES && OTHER in DOCUMENT_TYPES;
    forall d | d in DOCUMENT_TYPES
      ensures IsBoundIn(rows, d) <==> exists k :: 0 <= k < |rows| && rows[k].Binding? && rows[k].docType == d
    {
      BoundIffIn(rows, d);
    }
  }

  lemma BoundIffIn(rows: seq<Row>, d: DocumentType)
    ensures IsBoundIn(rows, d) <==> exists k :: 0 <= k < |rows| && rows[k].Binding? && rows[k].docType == d
  {
    if row :| row in rows && row.Binding? && row.docType == d {
      var k :| 0 <= k < |rows| && rows[k] == row;
    }
    forall k | 0 <= k < |rows| && rows[k].Binding? && rows[k].docType == d ensures IsBoundIn(rows, d) {
      assert rows[k] in rows;
    }
  }

  // --- Every run ends ---

  /** How many actions a seeder has left at most. */
  function StepsLeft(s: Seeder, i: nat): nat {
    match s.phase
    case Idle => |SeedRows(s.seed, i)| + 5
    case Waiting => |SeedRows(s.seed, i)| + 4
    case Locked => |SeedRows(s.seed, i)| + 3
    case EmptyStock => |SeedRows(s.seed, i)| + 2
    case Importing => if |s.written| <= |SeedRows(s.seed, i)| then |SeedRows(s.seed, i)| - |s.written| + 1 else 0
    case Checking => 1
    case Done(_) => 0
  }

  function TotalLeft(seeders: seq<Seeder>): nat {
    if seeders == [] then 0
    else TotalLeft(seeders[..|seeders| - 1]) + StepsLeft(seeders[|seeders| - 1], |seeders| - 1)
  }

  lemma {:induction false} OneMovesOn(a: seq<Seeder>, b: seq<Seeder>, i: nat)
    requires i < |a| == |b| && StepsLeft(b[i], i) < StepsLeft(a[i], i)
    requires forall k :: 0 <= k < |a| && k != i ==> b[k] == a[k]
    ensures TotalLeft(b) < TotalLeft(a)
  {
    var n := |a| - 1;
    if i < n {
      OneMovesOn(a[..n], b[..n], i);
    } else {
      assert a[..n] == b[..n];
    }
  }

  lemma ActMovesOn(sys: System, i: nat, action: Action)
    requires i < |sys.seeders| && Invariant(sys) && Act(sys, i, action).Some?
    ensures var next := Act(sys, i, action).value;
            |next.seeders| == |sys.seeders| && StepsLeft(next.seeders[i], i) < StepsLeft(sys.seeders[i], i)
            && forall k :: 0 <= k < |sys.seeders| && k != i ==> next.seeders[k] == sys.seeders[k]
  {
    assert SeederFits(sys, i);
  }

  /** Every action brings the end nearer, so no run is longer than what its seeders have to do. */
  lemma {:induction false} RunsEnd(run: seq<System>, n: nat)
    requires IsRun(run) && n < |run|
    ensures n + TotalLeft(run[n].seeders) <= TotalLeft(run[0].seeders)
  {
    if n > 0 {
      RunsEnd(run, n - 1);
      RunKeepsInvariant(run, n - 1);
      assert StepAt(run, n);
      var i, action :| 0 <= i < |run[n - 1].seeders| && Act(run[n - 1], i, action) == Some(run[n]);
      ActMovesOn(run[n - 1], i, action);
      OneMovesOn(run[n - 1].seeders, run[n].seeders, i);
    }
  }

  /** When all have ended and none has died, there is a seed if one of them could be imported; only seeds that cannot be
      are rejected. */
  lemma SeededWhenAllHaveEnded(run: seq<System>, n: nat, i: nat)
    requires IsRun(run) && n < |run| && i < |run[n].seeders| && run[n].seeders[i].phase.Done?
    ensures var sys, s := run[n], run[n].seeders[i];
            && (s.phase == Done(Rejected) ==> !Importable(s.seed))
            && (Importable(s.seed) && s.phase != Done(Crashed) ==> sys.committed != [])
  {
    RunKeepsInvariant(run, n);
    assert SeederFits(run[n], i);
    var s := run[n].seeders[i];
    assert ImportRow(i) in SeedRows(s.seed, i);
    var outcome := s.phase.outcome;
    assert s.phase == Done(outcome);
    assert outcome.Seeded? || outcome.AlreadySeeded? || outcome.RefusedReseed? || outcome.Inconsistent?
           || outcome.Rejected? || outcome.Crashed?;
  }
}
