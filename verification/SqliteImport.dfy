/** Equal-skip, diverge-fail import from SQLite: commits row by row, so it must survive being cut off. */
module SqliteImport {
  import opened Sequences

  datatype Key =
    | Header(documentId: string)
    | Version(documentId: string, version: int)
    | Artifact(artifactId: string)
    | ReadReceipt(userId: string, documentId: string, version: int)
    | Comment(commentId: string)
    | PdfSession(sessionId: string)
    | PdfPage(sessionId: string, page: int)
    | ProfileRow(table: string, primaryKey: string)

  /** Unique indexes beside the key a row is looked up by. */
  datatype Unique =
    | ReceiptId(id: string)
    | ApprovedVersionOf(documentId: string)
    | CommentSource(documentId: string, version: int, context: string, sourceKey: string)
    | ProfileIndex(index: string, columns: string)

  /** `payload` is the canonical text compared between source and target; `updatedAt` is not part of it. */
  datatype Record = Record(key: Key, payload: string, uniques: set<Unique>, updatedAt: string)

  type Table = map<Key, Record>

  datatype ImportError =
    | ManifestCorrupt
    | ManifestMismatch
    | ProfileTargetMissing
    | ProfileGraphIncomplete
    | ArtifactsUnavailable
    | Conflict(key: Key)
    | UniqueViolation(key: Key)
    | SourceMutated
    | Killed

  datatype Result<+T> = Ok(value: T) | Err(error: ImportError)

  datatype Status = InProgress | Completed | Failed
  datatype Manifest = NoManifest | Unreadable | Manifest(fingerprint: string, status: Status, inserted: nat,
                                                         skipped: nat)

  datatype Counts = Counts(inserted: nat, skipped: nat)

  /** A source snapshot: rows in the order the import visits them, what its files hash to before and after, and the two
      checks made before any write: a complete profile graph, and every artifact's file in place. */
  datatype Source = Source(core: seq<Record>, profiles: seq<Record>, fingerprint: string, fingerprintAfter: string,
                           profileGraphFits: bool, artifactsFit: bool)

  /** Where the process dies: before the n-th core row, inside the profile transaction, or after all commits. */
  datatype Death = Survives | BeforeCoreRow(n: nat) | InProfileTransaction | BeforeFinalManifest

  // --- One row ---

  /** Header and version upserts write their own modification time. */
  function Stored(rec: Record, now: string): Record {
    if rec.key.Header? || rec.key.Version? then rec.(updatedAt := now) else rec
  }

  predicate UniqueHeld(rows: Table, rec: Record) {
    exists k :: k in rows && rows[k].uniques * rec.uniques != {}
  }

  /** The row cannot be imported into this table. */
  predicate Clashes(rows: Table, rec: Record) {
    if rec.key in rows then rows[rec.key].payload != rec.payload else UniqueHeld(rows, rec)
  }

  function ImportOne(rows: Table, rec: Record, now: string): Result<Table> {
    if rec.key in rows then
      if rows[rec.key].payload == rec.payload then Ok(rows) else Err(Conflict(rec.key))
    else if UniqueHeld(rows, rec) then Err(UniqueViolation(rec.key))
    else Ok(rows[rec.key := Stored(rec, now)])
  }

  // --- A sequence of rows ---

  datatype Progress = Progress(rows: Table, counts: Counts)

  function Advance(p: Progress, rec: Record, rows: Table): Progress {
    Progress(rows, if rec.key in p.rows then p.counts.(skipped := p.counts.skipped + 1)
                   else p.counts.(inserted := p.counts.inserted + 1))
  }

  /** Rows from position `at` on; `killAt` is the position before which the process dies, if any. */
  function ImportFrom(p: Progress, recs: seq<Record>, at: nat, now: string, killAt: Option<nat>): (Progress, Result<()>)
    requires at <= |recs|
    decreases |recs| - at
  {
    if killAt == Some(at) then (p, Err(Killed))
    else if at == |recs| then (p, Ok(()))
    else match ImportOne(p.rows, recs[at], now)
      case Err(e) => (p, Err(e))
      case Ok(rows) => ImportFrom(Advance(p, recs[at], rows), recs, at + 1, now, killAt)
  }

  const NONE := Counts(0, 0)

  function ImportAll(rows: Table, recs: seq<Record>, now: string): (Progress, Result<()>) {
    ImportFrom(Progress(rows, NONE), recs, 0, now, None)
  }

  // --- The whole import ---

  datatype State = State(rows: Table, manifest: Manifest)

  function CheckResume(manifest: Manifest, source: Source): Result<()> {
    match manifest
    case NoManifest => Ok(())
    case Unreadable => Err(ManifestCorrupt)
    case Manifest(fingerprint, _, _, _) => if fingerprint == source.fingerprint then Ok(()) else Err(ManifestMismatch)
  }

  /** The table after the import and its outcome, without the manifest. */
  function Transfer(rows: Table, source: Source, hasDsn: bool, now: string, death: Death): (Table, Result<Counts>) {
    if !source.profileGraphFits then (rows, Err(ProfileGraphIncomplete))
    else if source.profiles != [] && !hasDsn then (rows, Err(ProfileTargetMissing))
    else if !source.artifactsFit then (rows, Err(ArtifactsUnavailable))
    else
      var killAt := if death.BeforeCoreRow? then Some(death.n) else None;
      var (core, coreOutcome) := ImportFrom(Progress(rows, NONE), source.core, 0, now, killAt);
      if coreOutcome.Err? then (core.rows, Err(coreOutcome.error))
      else
        // The profile tables are one transaction: a failure or death inside it leaves the core rows only.
        var (profiles, profileOutcome) := ImportFrom(core, source.profiles, 0, now, None);
        if profileOutcome.Err? then (core.rows, Err(profileOutcome.error))
        else if death.InProfileTransaction? then (core.rows, Err(Killed))
        else if source.fingerprintAfter != source.fingerprint then (profiles.rows, Err(SourceMutated))
        else if death.BeforeFinalManifest? then (profiles.rows, Err(Killed))
        else (profiles.rows, Ok(profiles.counts))
  }

  function Import(state: State, source: Source, hasDsn: bool, now: string, death: Death): (State, Result<Counts>) {
    var resume := CheckResume(state.manifest, source);
    if resume.Err? then (state, Err(resume.error))
    else
      var (rows, outcome) := Transfer(state.rows, source, hasDsn, now, death);
      var manifest :=
        match outcome
        case Ok(counts) => Manifest(source.fingerprint, Completed, counts.inserted, counts.skipped)
        case Err(Killed) => Manifest(source.fingerprint, InProgress, 0, 0)
        case Err(_) => Manifest(source.fingerprint, Failed, 0, 0);
      (State(rows, manifest), outcome)
  }

  class Importer {
    var rows: Table
    var manifest: Manifest

    constructor (rows: Table)
      ensures this.rows == rows && manifest == NoManifest
    {
      this.rows := rows;
      manifest := NoManifest;
    }

    method ImportSqliteToPostgres(source: Source, hasDsn: bool, now: string, death: Death) returns (r: Result<Counts>)
      modifies this
      ensures (State(rows, manifest), r) == Import(State(old(rows), old(manifest)), source, hasDsn, now, death)
    {
      var resume := CheckResume(manifest, source);
      if resume.Err? {
        return Err(resume.error);
      }
      manifest := Manifest(source.fingerprint, InProgress, 0, 0);
      r := TransferRows(source, hasDsn, now, death);
      match r {
        case Ok(counts) => manifest := Manifest(source.fingerprint, Completed, counts.inserted, counts.skipped);
        case Err(Killed) =>
        case Err(_) => manifest := Manifest(source.fingerprint, Failed, 0, 0);
      }
    }

    method TransferRows(source: Source, hasDsn: bool, now: string, death: Death) returns (r: Result<Counts>)
      modifies this`rows
      ensures (rows, r) == Transfer(old(rows), source, hasDsn, now, death)
    {
      if !source.profileGraphFits {
        return Err(ProfileGraphIncomplete);
      }
      if source.profiles != [] && !hasDsn {
        return Err(ProfileTargetMissing);
      }
      if !source.artifactsFit {
        return Err(ArtifactsUnavailable);
      }
      var killAt := if death.BeforeCoreRow? then Some(death.n) else None;
      var counts, outcome := ImportCore(source.core, now, killAt);
      if outcome.Err? {
        return Err(outcome.error);
      }
      var applied;
      applied, outcome := ApplyProfiles(rows, counts, source.profiles, now);
      if outcome.Err? {
        return Err(outcome.error);
      }
      if death.InProfileTransaction? {
        return Err(Killed);
      }
      rows := applied.rows;
      if source.fingerprintAfter != source.fingerprint {
        return Err(SourceMutated);
      }
      if death.BeforeFinalManifest? {
        return Err(Killed);
      }
      r := Ok(applied.counts);
    }

    /** Core and read-tracking rows: every insert is its own commit. */
    method ImportCore(recs: seq<Record>, now: string, killAt: Option<nat>) returns (counts: Counts, outcome: Result<()>)
      modifies this`rows
      ensures (Progress(rows, counts), outcome) == ImportFrom(Progress(old(rows), NONE), recs, 0, now, killAt)
    {
      counts := NONE;
      for at := 0 to |recs|
        invariant ImportFrom(Progress(old(rows), NONE), recs, 0, now, killAt)
                  == ImportFrom(Progress(rows, counts), recs, at, now, killAt)
      {
        if killAt == Some(at) {
          return counts, Err(Killed);
        }
        var rec := recs[at];
        if rec.key !in rows {
          if UniqueHeld(rows, rec) {
            return counts, Err(UniqueViolation(rec.key));
          }
          rows := rows[rec.key := Stored(rec, now)];
          counts := counts.(inserted := counts.inserted + 1);
        } else if rows[rec.key].payload == rec.payload {
          counts := counts.(skipped := counts.skipped + 1);
        } else {
          return counts, Err(Conflict(rec.key));
        }
      }
      outcome := if killAt == Some(|recs|) then Err(Killed) else Ok(());
    }

    /** Profile tables inside one transaction, on a private view of the rows. */
    method ApplyProfiles(committed: Table, before: Counts, recs: seq<Record>, now: string)
      returns (applied: Progress, outcome: Result<()>)
      ensures (applied, outcome) == ImportFrom(Progress(committed, before), recs, 0, now, None)
    {
      applied := Progress(committed, before);
      for at := 0 to |recs|
        invariant ImportFrom(Progress(committed, before), recs, 0, now, None)
                == ImportFrom(applied, recs, at, now, None)
      {
        var imported := ImportOne(applied.rows, recs[at], now);
        if imported.Err? {
          return applied, Err(imported.error);
        }
        applied := Advance(applied, recs[at], imported.value);
      }
      outcome := Ok(());
    }
  }

  // --- Nothing that was there changes ---

  /** The position at which a run stops: the row it fails on or dies before, or the end. */
  function StopAt(p: Progress, recs: seq<Record>, at: nat, now: string, killAt: Option<nat>): (stop: nat)
    requires at <= |recs|
    ensures at <= stop <= |recs|
    decreases |recs| - at
  {
    if killAt == Some(at) || at == |recs| then at
    else match ImportOne(p.rows, recs[at], now)
      case Err(_) => at
      case Ok(rows) => StopAt(Advance(p, recs[at], rows), recs, at + 1, now, killAt)
  }

  /** The outcome is decided by the row at the stopping point alone. */
  lemma {:induction false} OutcomeAtStop(p: Progress, recs: seq<Record>, at: nat, now: string, killAt: Option<nat>)
    requires at <= |recs|
    ensures var (q, outcome) := ImportFrom(p, recs, at, now, killAt);
            var stop := StopAt(p, recs, at, now, killAt);
            && (q, outcome) == ImportFrom(q, recs, stop, now, killAt)
            && q.counts.inserted + q.counts.skipped == p.counts.inserted + p.counts.skipped + (stop - at)
            && (outcome.Ok? ==> stop == |recs|)
            && (outcome == Err(Killed) ==> killAt == Some(stop))
    decreases |recs| - at
  {
    if killAt != Some(at) && at < |recs| && ImportOne(p.rows, recs[at], now).Ok? {
      OutcomeAtStop(Advance(p, recs[at], ImportOne(p.rows, recs[at], now).value), recs, at + 1, now, killAt);
    }
  }

  /** However a run ends, the rows that were there are unchanged. */
  lemma {:induction false} ExistingRowsUnchanged(p: Progress, recs: seq<Record>, at: nat, now: string,
                                                 killAt: Option<nat>)
    requires at <= |recs|
    ensures var q := ImportFrom(p, recs, at, now, killAt).0;
            forall k :: k in p.rows ==> k in q.rows && q.rows[k] == p.rows[k]
    decreases |recs| - at
  {
    if killAt != Some(at) && at < |recs| && ImportOne(p.rows, recs[at], now).Ok? {
      ExistingRowsUnchanged(Advance(p, recs[at], ImportOne(p.rows, recs[at], now).value), recs, at + 1, now, killAt);
    }
  }

  /** Every row before the stopping point is in the table, and every added row is one of them. */
  lemma {:induction false} AddedRowsAreSourceRows(p: Progress, recs: seq<Record>, at: nat, now: string,
                                                  killAt: Option<nat>)
    requires at <= |recs|
    ensures var q, stop := ImportFrom(p, recs, at, now, killAt).0, StopAt(p, recs, at, now, killAt);
            && (forall i :: at <= i < stop ==> recs[i].key in q.rows && q.rows[recs[i].key].payload == recs[i].payload)
            && (forall k :: k in q.rows && k !in p.rows ==>
                  exists i :: at <= i < stop && recs[i].key == k && q.rows[k] == Stored(recs[i], now))
    decreases |recs| - at
  {
    if killAt != Some(at) && at < |recs| && ImportOne(p.rows, recs[at], now).Ok? {
      var next := Advance(p, recs[at], ImportOne(p.rows, recs[at], now).value);
      AddedRowsAreSourceRows(next, recs, at + 1, now, killAt);
      ExistingRowsUnchanged(next, recs, at + 1, now, killAt);
      OneRowAtMostIsAdded(p.rows, recs[at], now);
      var q := ImportFrom(p, recs, at, now, killAt).0;
      forall k | k in q.rows && k !in p.rows
        ensures exists i :: at <= i < StopAt(p, recs, at, now, killAt) && recs[i].key == k
                            && q.rows[k] == Stored(recs[i], now)
      {
        if k in next.rows {
          assert recs[at].key == k && q.rows[k] == Stored(recs[at], now);
        }
      }
    }
  }

  lemma OneRowAtMostIsAdded(rows: Table, rec: Record, now: string)
    requires ImportOne(rows, rec, now).Ok?
    ensures var after := ImportOne(rows, rec, now).value;
            && rec.key in after && after[rec.key].payload == rec.payload
            && forall k :: k in after && k !in rows ==> k == rec.key && after[k] == Stored(rec, now)
  {
  }

  // --- Crash and resume ---

  ghost predicate SameRecord(a: Record, b: Record) {
    a.key == b.key && a.payload == b.payload && a.uniques == b.uniques
  }

  /** Equal tables up to modification times. */
  ghost predicate SameRows(a: Table, b: Table) {
    a.Keys == b.Keys && forall k :: k in a ==> SameRecord(a[k], b[k])
  }

  lemma ImportOneRespectsSameRows(a: Table, b: Table, rec: Record, now: string, later: string)
    requires SameRows(a, b)
    ensures Clashes(a, rec) <==> Clashes(b, rec)
    ensures var x, y := ImportOne(a, rec, now), ImportOne(b, rec, later);
            if x.Ok? then y.Ok? && SameRows(x.value, y.value) else y == x
  {
    if exists k :: k in a && a[k].uniques * rec.uniques != {} {
      var k :| k in a && a[k].uniques * rec.uniques != {};
      assert SameRecord(a[k], b[k]) && b[k].uniques * rec.uniques != {};
    }
    if exists k :: k in b && b[k].uniques * rec.uniques != {} {
      var k :| k in b && b[k].uniques * rec.uniques != {};
      assert SameRecord(a[k], b[k]) && a[k].uniques * rec.uniques != {};
    }
  }

  lemma {:induction false} ImportRespectsSameRows(a: Progress, b: Progress, recs: seq<Record>, at: nat,
                                                  now: string, later: string)
    requires at <= |recs| && SameRows(a.rows, b.rows)
    ensures var (x, outcome), (y, outcome') := ImportFrom(a, recs, at, now, None), ImportFrom(b, recs, at, later, None);
            SameRows(x.rows, y.rows) && outcome == outcome'
    decreases |recs| - at
  {
    if at < |recs| {
      ImportOneRespectsSameRows(a.rows, b.rows, recs[at], now, later);
      var x, y := ImportOne(a.rows, recs[at], now), ImportOne(b.rows, recs[at], later);
      if x.Ok? {
        ImportRespectsSameRows(Advance(a, recs[at], x.value), Advance(b, recs[at], y.value), recs, at + 1, now, later);
      }
    }
  }

  /** Rows that are already there with an equal payload are passed over. */
  lemma {:induction false} PresentRowsAreSkipped(p: Progress, recs: seq<Record>, at: nat, stop: nat, now: string)
    requires at <= stop <= |recs|
    requires forall i :: at <= i < stop ==> recs[i].key in p.rows && p.rows[recs[i].key].payload == recs[i].payload
    ensures ImportFrom(p, recs, at, now, None)
            == ImportFrom(Progress(p.rows, p.counts.(skipped := p.counts.skipped + (stop - at))), recs, stop, now, None)
    decreases stop - at
  {
    if at < stop {
      PresentRowsAreSkipped(Advance(p, recs[at], p.rows), recs, at + 1, stop, now);
    }
  }

  lemma {:induction false} KilledRunIsPrefix(p: Progress, recs: seq<Record>, at: nat, now: string, kill: nat)
    requires at <= kill <= |recs| && ImportFrom(p, recs, at, now, Some(kill)).1 == Err(Killed)
    ensures ImportFrom(p, recs, at, now, None)
            == ImportFrom(ImportFrom(p, recs, at, now, Some(kill)).0, recs, kill, now, None)
    decreases |recs| - at
  {
    if at < kill {
      KilledRunIsPrefix(Advance(p, recs[at], ImportOne(p.rows, recs[at], now).value), recs, at + 1, now, kill);
    }
  }

  lemma {:induction false} LiveRunIgnoresKill(p: Progress, recs: seq<Record>, at: nat, now: string, killAt: Option<nat>)
    requires at <= |recs| && ImportFrom(p, recs, at, now, killAt).1 != Err(Killed)
    ensures ImportFrom(p, recs, at, now, killAt) == ImportFrom(p, recs, at, now, None)
    ensures StopAt(p, recs, at, now, killAt) == StopAt(p, recs, at, now, None)
    decreases |recs| - at
  {
    if at < |recs| && ImportOne(p.rows, recs[at], now).Ok? {
      LiveRunIgnoresKill(Advance(p, recs[at], ImportOne(p.rows, recs[at], now).value), recs, at + 1, now, killAt);
    }
  }

  /** An uninterrupted run is the stopped run continued at its stopping row. */
  lemma ContinuesAtStop(p: Progress, recs: seq<Record>, now: string, killAt: Option<nat>)
    ensures var stopped, stop := ImportFrom(p, recs, 0, now, killAt).0, StopAt(p, recs, 0, now, killAt);
            ImportFrom(p, recs, 0, now, None) == ImportFrom(stopped, recs, stop, now, None)
  {
    OutcomeAtStop(p, recs, 0, now, killAt);
    if ImportFrom(p, recs, 0, now, killAt).1 == Err(Killed) {
      KilledRunIsPrefix(p, recs, 0, now, killAt.value);
    } else {
      LiveRunIgnoresKill(p, recs, 0, now, killAt);
      OutcomeAtStop(p, recs, 0, now, None);
    }
  }

  /** Rerunning a row sequence after a run that stopped anywhere ends like one uninterrupted run. */
  lemma ResumeRows(rows: Table, recs: seq<Record>, now: string, later: string, killAt: Option<nat>)
    ensures var stopped := ImportFrom(Progress(rows, NONE), recs, 0, now, killAt).0.rows;
            var (x, outcome), (y, outcome') := ImportAll(rows, recs, now), ImportAll(stopped, recs, later);
            SameRows(x.rows, y.rows) && outcome == outcome'
  {
    var start := Progress(rows, NONE);
    var stopped := ImportFrom(start, recs, 0, now, killAt).0;
    var stop := StopAt(start, recs, 0, now, killAt);
    assert ImportAll(rows, recs, now) == ImportFrom(stopped, recs, stop, now, None) by {
      ContinuesAtStop(start, recs, now, killAt);
    }
    var skipped := Progress(stopped.rows, Counts(0, stop));
    assert ImportAll(stopped.rows, recs, later) == ImportFrom(skipped, recs, stop, later, None) by {
      AddedRowsAreSourceRows(start, recs, 0, now, killAt);
      PresentRowsAreSkipped(Progress(stopped.rows, NONE), recs, 0, stop, later);
    }
    ImportRespectsSameRows(stopped, skipped, recs, stop, now, later);
  }

  /** A table that has all rows with equal payloads takes none of them. */
  lemma CompleteTableSkipsAll(rows: Table, recs: seq<Record>, before: Counts, now: string)
    requires forall i :: 0 <= i < |recs| ==> recs[i].key in rows && rows[recs[i].key].payload == recs[i].payload
    ensures ImportFrom(Progress(rows, before), recs, 0, now, None)
            == (Progress(rows, before.(skipped := before.skipped + |recs|)), Ok(()))
  {
    PresentRowsAreSkipped(Progress(rows, before), recs, 0, |recs|, now);
  }

  lemma FinishedRowsArePresent(p: Progress, recs: seq<Record>, now: string)
    requires ImportFrom(p, recs, 0, now, None).1.Ok?
    ensures var rows := ImportFrom(p, recs, 0, now, None).0.rows;
            forall i :: 0 <= i < |recs| ==> recs[i].key in rows && rows[recs[i].key].payload == recs[i].payload
  {
    AddedRowsAreSourceRows(p, recs, 0, now, None);
    OutcomeAtStop(p, recs, 0, now, None);
  }

  /**
   The transfer of an interrupted import, repeated, has the rows and the verdict of one that was never interrupted.
   */
  lemma TransferResumes(rows: Table, source: Source, hasDsn: bool, now: string, later: string, death: Death)
    requires source.fingerprintAfter == source.fingerprint
    ensures var stopped := Transfer(rows, source, hasDsn, now, death).0;
            var (x, r) := Transfer(rows, source, hasDsn, now, Survives);
            var (y, r') := Transfer(stopped, source, hasDsn, later, Survives);
            && SameRows(x, y)
            && (if r.Ok? then r'.Ok? else r' == r)
            && (r.Ok? ==> r.value.inserted + r.value.skipped == r'.value.inserted + r'.value.skipped
                          == |source.core| + |source.profiles|)
  {
    if !(source.profiles != [] && !hasDsn) && source.profileGraphFits && source.artifactsFit {
      var start := Progress(rows, NONE);
      var killAt := if death.BeforeCoreRow? then Some(death.n) else None;
      var (core, coreOutcome) := ImportFrom(start, source.core, 0, now, killAt);
      var (whole, wholeOutcome) := ImportFrom(start, source.core, 0, now, None);
      CountsAddUp(start, source.core, now);
      CountsAddUp(whole, source.profiles, now);
      if coreOutcome.Err? {
        ResumeRows(rows, source.core, now, later, killAt);
        var (again, againOutcome) := ImportFrom(Progress(core.rows, NONE), source.core, 0, later, None);
        if againOutcome.Ok? {
          ImportRespectsSameRows(whole, again, source.profiles, 0, now, later);
          CountsAddUp(Progress(core.rows, NONE), source.core, later);
          CountsAddUp(again, source.profiles, later);
        }
      } else {
        LiveRunIgnoresKill(start, source.core, 0, now, killAt);
        TransferResumesAfterCore(rows, source, now, later, death);
        var stopped := Transfer(rows, source, true, now, death).0;
        assert Transfer(rows, source, hasDsn, now, death).0 == stopped;
        assert Transfer(rows, source, hasDsn, now, Survives) == Transfer(rows, source, true, now, Survives);
        assert Transfer(stopped, source, hasDsn, later, Survives) == Transfer(stopped, source, true, later, Survives);
      }
    }
  }

  lemma CountsAddUp(p: Progress, recs: seq<Record>, now: string)
    ensures var (q, outcome) := ImportFrom(p, recs, 0, now, None);
            outcome.Ok? ==> q.counts.inserted + q.counts.skipped == p.counts.inserted + p.counts.skipped + |recs|
  {
    OutcomeAtStop(p, recs, 0, now, None);
  }

  lemma TransferResumesAfterCore(rows: Table, source: Source, now: string, later: string, death: Death)
    requires source.fingerprintAfter == source.fingerprint && source.profileGraphFits && source.artifactsFit
    requires ImportFrom(Progress(rows, NONE), source.core, 0, now,
                        if death.BeforeCoreRow? then Some(death.n) else None)
             == ImportFrom(Progress(rows, NONE), source.core, 0, now, None)
    requires ImportFrom(Progress(rows, NONE), source.core, 0, now, None).1.Ok?
    ensures var stopped := Transfer(rows, source, true, now, death).0;
            var (x, r) := Transfer(rows, source, true, now, Survives);
            var (y, r') := Transfer(stopped, source, true, later, Survives);
            && SameRows(x, y)
            && (if r.Ok? then r'.Ok? else r' == r)
            && (r.Ok? ==> r.value.inserted + r.value.skipped == r'.value.inserted + r'.value.skipped
                          == |source.core| + |source.profiles|)
  {
    var core := ImportFrom(Progress(rows, NONE), source.core, 0, now, None).0;
    var (profiles, outcome) := ImportFrom(core, source.profiles, 0, now, None);
    var stopped := Transfer(rows, source, true, now, death).0;
    FinishedRowsArePresent(Progress(rows, NONE), source.core, now);
    ExistingRowsUnchanged(core, source.profiles, 0, now, None);
    CompleteTableSkipsAll(stopped, source.core, NONE, later);
    var again := Progress(stopped, Counts(0, |source.core|));
    CountsAddUp(Progress(rows, NONE), source.core, now);
    CountsAddUp(core, source.profiles, now);
    CountsAddUp(again, source.profiles, later);
    if stopped == core.rows {
      ImportRespectsSameRows(core, again, source.profiles, 0, now, later);
    } else {
      FinishedRowsArePresent(core, source.profiles, now);
      CompleteTableSkipsAll(stopped, source.profiles, again.counts, later);
    }
  }

  // --- What one import does, on the snapshot, the rows and the manifest ---

  /** There is no manifest, or a readable one of this snapshot; how that import ended does not matter. */
  ghost predicate MayResume(manifest: Manifest, fingerprint: string) {
    manifest == NoManifest || exists status, i, s :: manifest == Manifest(fingerprint, status, i, s)
  }

  lemma ResumableManifest(manifest: Manifest, source: Source)
    ensures MayResume(manifest, source.fingerprint) <==> CheckResume(manifest, source).Ok?
  {
    if manifest.Manifest? && manifest.fingerprint == source.fingerprint {
      assert manifest == Manifest(source.fingerprint, manifest.status, manifest.inserted, manifest.skipped);
    }
  }

  /** Next to a manifest of another snapshot, or one that cannot be read, nothing is done, and only then. */
  lemma OtherSnapshotsAreRefused(state: State, source: Source, hasDsn: bool, now: string, death: Death)
    ensures var (after, r) := Import(state, source, hasDsn, now, death);
            if state.manifest == Unreadable then after == state && r == Err(ManifestCorrupt)
            else if state.manifest.Manifest? && state.manifest.fingerprint != source.fingerprint then
              after == state && r == Err(ManifestMismatch)
            else && r != Err(ManifestCorrupt) && r != Err(ManifestMismatch)
                 && MayResume(state.manifest, source.fingerprint)
  {
    ResumableManifest(state.manifest, source);
    if CheckResume(state.manifest, source).Ok? {
      TransferErrors(state.rows, source, hasDsn, now, death);
    }
  }

  /** The errors rows can cause, and the killing of the process. */
  ghost predicate IsRowError(e: ImportError) {
    e.Conflict? || e.UniqueViolation? || e == Killed
  }

  lemma {:induction false} RowErrors(p: Progress, recs: seq<Record>, at: nat, now: string, killAt: Option<nat>)
    requires at <= |recs|
    ensures var r := ImportFrom(p, recs, at, now, killAt).1; r.Err? ==> IsRowError(r.error)
    decreases |recs| - at
  {
    if killAt != Some(at) && at < |recs| && ImportOne(p.rows, recs[at], now).Ok? {
      RowErrors(Advance(p, recs[at], ImportOne(p.rows, recs[at], now).value), recs, at + 1, now, killAt);
    }
  }

  /** A conflict is with a row of another payload under the record's key, a violation with another row's uniques. */
  lemma {:induction false} RowErrorsNameTheRow(p: Progress, recs: seq<Record>, at: nat, now: string,
                                               killAt: Option<nat>)
    requires at <= |recs|
    ensures var (q, r) := ImportFrom(p, recs, at, now, killAt);
            match r
            case Err(Conflict(key)) =>
              && key in q.rows
              && exists i :: at <= i < |recs| && recs[i].key == key && recs[i].payload != q.rows[key].payload
            case Err(UniqueViolation(key)) =>
              key !in q.rows
              && exists i, k :: && at <= i < |recs| && recs[i].key == key && k in q.rows
                                && q.rows[k].uniques * recs[i].uniques != {}
            case Err(Killed) => killAt.Some? && at <= killAt.value <= |recs|
            case _ => true
    decreases |recs| - at
  {
    if killAt != Some(at) && at < |recs| && ImportOne(p.rows, recs[at], now).Ok? {
      RowErrorsNameTheRow(Advance(p, recs[at], ImportOne(p.rows, recs[at], now).value), recs, at + 1, now, killAt);
    }
  }

  lemma TransferErrors(rows: Table, source: Source, hasDsn: bool, now: string, death: Death)
    ensures var (after, r) := Transfer(rows, source, hasDsn, now, death);
            if !source.profileGraphFits then after == rows && r == Err(ProfileGraphIncomplete)
            else if source.profiles != [] && !hasDsn then after == rows && r == Err(ProfileTargetMissing)
            else if !source.artifactsFit then after == rows && r == Err(ArtifactsUnavailable)
            else r.Err? ==> IsRowError(r.error) || r.error == SourceMutated
  {
    var killAt := if death.BeforeCoreRow? then Some(death.n) else None;
    RowErrors(Progress(rows, NONE), source.core, 0, now, killAt);
    RowErrors(ImportFrom(Progress(rows, NONE), source.core, 0, now, killAt).0, source.profiles, 0, now, None);
  }

  /** The manifest an import leaves names its snapshot and says how it ended. */
  lemma ManifestSaysHowItEnded(state: State, source: Source, hasDsn: bool, now: string, death: Death)
    requires MayResume(state.manifest, source.fingerprint)
    ensures var (after, r) := Import(state, source, hasDsn, now, death);
            after.manifest == (match r
                               case Ok(c) => Manifest(source.fingerprint, Completed, c.inserted, c.skipped)
                               case Err(e) =>
                                  Manifest(source.fingerprint, if e == Killed then InProgress else Failed, 0, 0))
  {
    ResumableManifest(state.manifest, source);
  }

  /** What is checked before the first row is written, in this order. */
  lemma ChecksBeforeWriting(state: State, source: Source, hasDsn: bool, now: string, death: Death)
    requires MayResume(state.manifest, source.fingerprint)
    ensures var (after, r) := Import(state, source, hasDsn, now, death);
            if !source.profileGraphFits then after.rows == state.rows && r == Err(ProfileGraphIncomplete)
            else if source.profiles != [] && !hasDsn then after.rows == state.rows && r == Err(ProfileTargetMissing)
            else if !source.artifactsFit then after.rows == state.rows && r == Err(ArtifactsUnavailable)
            else r.Err? ==> IsRowError(r.error) || r.error == SourceMutated
  {
    ResumableManifest(state.manifest, source);
    TransferErrors(state.rows, source, hasDsn, now, death);
  }

  /** A row as the target holds it: key, payload and uniques as in the source; headers and versions are dated now. */
  ghost predicate HoldsRecord(row: Record, rec: Record, now: string) {
    && row.key == rec.key && row.payload == rec.payload && row.uniques == rec.uniques
    && (rec.key.Header? || rec.key.Version? ==> row.updatedAt == now)
    && (!rec.key.Header? && !rec.key.Version? ==> row.updatedAt == rec.updatedAt)
  }

  /** One table after another: nothing that was there has changed, and what is new are records of this list. */
  ghost predicate AddsFrom(before: Table, after: Table, recs: seq<Record>, now: string) {
    && (forall k :: k in before ==> k in after && after[k] == before[k])
    && (forall k :: k in after && k !in before ==>
          exists i :: 0 <= i < |recs| && recs[i].key == k && HoldsRecord(after[k], recs[i], now))
  }

  lemma StoredHoldsRecord(rec: Record, now: string)
    ensures HoldsRecord(Stored(rec, now), rec, now)
  {
  }

  lemma {:induction false} InsertedRowsAreCounted(p: Progress, recs: seq<Record>, at: nat, now: string,
                                                  killAt: Option<nat>)
    requires at <= |recs|
    ensures var q := ImportFrom(p, recs, at, now, killAt).0;
            |q.rows| - q.counts.inserted == |p.rows| - p.counts.inserted
    decreases |recs| - at
  {
    if killAt != Some(at) && at < |recs| && ImportOne(p.rows, recs[at], now).Ok? {
      var rows := ImportOne(p.rows, recs[at], now).value;
      if recs[at].key !in p.rows {
        assert rows == p.rows[recs[at].key := Stored(recs[at], now)];
        assert rows.Keys == p.rows.Keys + {recs[at].key};
        assert |rows| == |p.rows| + 1;
      }
      InsertedRowsAreCounted(Advance(p, recs[at], rows), recs, at + 1, now, killAt);
    }
  }

  lemma AddsFromCore(p: Progress, recs: seq<Record>, now: string, killAt: Option<nat>)
    ensures AddsFrom(p.rows, ImportFrom(p, recs, 0, now, killAt).0.rows, recs, now)
  {
    var q := ImportFrom(p, recs, 0, now, killAt).0;
    ExistingRowsUnchanged(p, recs, 0, now, killAt);
    AddedRowsAreSourceRows(p, recs, 0, now, killAt);
    forall k | k in q.rows && k !in p.rows
      ensures exists i :: 0 <= i < |recs| && recs[i].key == k && HoldsRecord(q.rows[k], recs[i], now)
    {
      var i :| 0 <= i < |recs| && recs[i].key == k && q.rows[k] == Stored(recs[i], now);
      StoredHoldsRecord(recs[i], now);
    }
  }

  lemma AddsFromBoth(a: Table, b: Table, c: Table, core: seq<Record>, profiles: seq<Record>, now: string)
    requires AddsFrom(a, b, core, now) && AddsFrom(b, c, profiles, now)
    ensures AddsFrom(a, c, core + profiles, now)
  {
    forall k | k in c && k !in a
      ensures exists i :: 0 <= i < |core + profiles| && (core + profiles)[i].key == k
                          && HoldsRecord(c[k], (core + profiles)[i], now)
    {
      if k in b {
        var i :| 0 <= i < |core| && core[i].key == k && HoldsRecord(b[k], core[i], now);
        assert (core + profiles)[i] == core[i];
      } else {
        var i :| 0 <= i < |profiles| && profiles[i].key == k && HoldsRecord(c[k], profiles[i], now);
        assert (core + profiles)[|core| + i] == profiles[i];
      }
    }
  }

  /**
   Every import only adds records of its snapshot, profile rows only if all of it has come to be there, and a completed
   one has each record there with its payload; it reports as inserted just what was not there.
   */
  lemma ImportAddsTheSnapshot(state: State, source: Source, hasDsn: bool, now: string, death: Death)
    ensures var (after, r) := Import(state, source, hasDsn, now, death);
            && (AddsFrom(state.rows, after.rows, source.core, now)
                || (AddsFrom(state.rows, after.rows, source.core + source.profiles, now)
                    && Present(source.core + source.profiles, after.rows)))
            && (r.Ok? ==>
                  && Present(source.core + source.profiles, after.rows)
                  && source.fingerprintAfter == source.fingerprint
                  && r.value.inserted == |after.rows| - |state.rows|
                  && r.value.skipped == |source.core| + |source.profiles| - r.value.inserted)
  {
    if CheckResume(state.manifest, source).Ok? {
      TransferAddsTheSnapshot(state.rows, source, hasDsn, now, death);
    }
  }

  /** Every record of the list is in the table, with its payload. */
  ghost predicate Present(recs: seq<Record>, rows: Table) {
    forall i :: 0 <= i < |recs| ==> recs[i].key in rows && rows[recs[i].key].payload == recs[i].payload
  }

  /** The rows a transfer ends with: those it found, those with the core records, or those with all of them. */
  lemma TransferEndsWith(rows: Table, source: Source, hasDsn: bool, now: string, death: Death)
    ensures var (after, r) := Transfer(rows, source, hasDsn, now, death);
            var killAt := if death.BeforeCoreRow? then Some(death.n) else None;
            var (core, coreOutcome) := ImportFrom(Progress(rows, NONE), source.core, 0, now, killAt);
            var (all, outcome) := ImportFrom(core, source.profiles, 0, now, None);
            || (after == rows && r.Err?)
            || (after == core.rows && r.Err?)
            || (after == all.rows && coreOutcome.Ok? && outcome.Ok?
                && (r.Ok? ==> r.value == all.counts && source.fingerprintAfter == source.fingerprint))
  {
    var killAt := if death.BeforeCoreRow? then Some(death.n) else None;
    var (core, coreOutcome) := ImportFrom(Progress(rows, NONE), source.core, 0, now, killAt);
    var (all, outcome) := ImportFrom(core, source.profiles, 0, now, None);
    if source.profileGraphFits && !(source.profiles != [] && !hasDsn) && source.artifactsFit && coreOutcome.Ok? {
      var (after, r) := Transfer(rows, source, hasDsn, now, death);
      if outcome.Ok? && !death.InProfileTransaction? {
        assert after == all.rows;
      }
    }
  }

  lemma TransferAddsTheSnapshot(rows: Table, source: Source, hasDsn: bool, now: string, death: Death)
    ensures var (after, r) := Transfer(rows, source, hasDsn, now, death);
            && (AddsFrom(rows, after, source.core, now)
                || (AddsFrom(rows, after, source.core + source.profiles, now)
                    && Present(source.core + source.profiles, after)))
            && (r.Ok? ==>
                  && Present(source.core + source.profiles, after)
                  && source.fingerprintAfter == source.fingerprint
                  && r.value.inserted == |after| - |rows|
                  && r.value.skipped == |source.core| + |source.profiles| - r.value.inserted)
  {
    var after := Transfer(rows, source, hasDsn, now, death).0;
    var killAt := if death.BeforeCoreRow? then Some(death.n) else None;
    var start := Progress(rows, NONE);
    TransferEndsWith(rows, source, hasDsn, now, death);
    var (core, coreOutcome) := ImportFrom(start, source.core, 0, now, killAt);
    if after == rows && Transfer(rows, source, hasDsn, now, death).1.Err? {
      AddsNothing(rows, source.core, now);
    } else {
      AddsFromCore(start, source.core, now, killAt);
      if coreOutcome.Ok? {
        BothPartsArePresent(start, core, source, now, killAt);
      }
    }
  }

  lemma AddsNothing(rows: Table, recs: seq<Record>, now: string)
    ensures AddsFrom(rows, rows, recs, now)
  {
  }

  lemma CountsOfBoth(start: Progress, core: Progress, source: Source, now: string, killAt: Option<nat>)
    requires ImportFrom(start, source.core, 0, now, killAt).0 == core && start.counts == NONE
    requires ImportFrom(start, source.core, 0, now, killAt).1.Ok?
    ensures var (profiles, outcome) := ImportFrom(core, source.profiles, 0, now, None);
            outcome.Ok? ==>
              && profiles.counts.inserted == |profiles.rows| - |start.rows|
              && profiles.counts.skipped == |source.core| + |source.profiles| - profiles.counts.inserted
  {
    OutcomeAtStop(start, source.core, 0, now, killAt);
    OutcomeAtStop(core, source.profiles, 0, now, None);
    InsertedRowsAreCounted(start, source.core, 0, now, killAt);
    InsertedRowsAreCounted(core, source.profiles, 0, now, None);
  }

  lemma FinishedListIsPresent(p: Progress, recs: seq<Record>, now: string, killAt: Option<nat>)
    requires ImportFrom(p, recs, 0, now, killAt).1.Ok?
    ensures Present(recs, ImportFrom(p, recs, 0, now, killAt).0.rows)
  {
    OutcomeAtStop(p, recs, 0, now, killAt);
    AddedRowsAreSourceRows(p, recs, 0, now, killAt);
  }

  lemma BothPartsArePresent(start: Progress, core: Progress, source: Source, now: string, killAt: Option<nat>)
    requires ImportFrom(start, source.core, 0, now, killAt).0 == core && start.counts == NONE
    requires ImportFrom(start, source.core, 0, now, killAt).1.Ok?
    requires AddsFrom(start.rows, core.rows, source.core, now)
    ensures var (profiles, outcome) := ImportFrom(core, source.profiles, 0, now, None);
            outcome.Ok? ==>
              && AddsFrom(start.rows, profiles.rows, source.core + source.profiles, now)
              && Present(source.core + source.profiles, profiles.rows)
              && profiles.counts.inserted == |profiles.rows| - |start.rows|
              && profiles.counts.skipped == |source.core| + |source.profiles| - profiles.counts.inserted
  {
    var (profiles, outcome) := ImportFrom(core, source.profiles, 0, now, None);
    if outcome.Ok? {
      CountsOfBoth(start, core, source, now, killAt);
      AddsFromCore(core, source.profiles, now, None);
      AddsFromBoth(start.rows, core.rows, profiles.rows, source.core, source.profiles, now);
      FinishedListIsPresent(start, source.core, now, killAt);
      FinishedListIsPresent(core, source.profiles, now, None);
      PresentInBoth(source.core, source.profiles, core.rows, profiles.rows);
    }
  }

  lemma PresentInBoth(a: seq<Record>, b: seq<Record>, before: Table, after: Table)
    requires Present(a, before) && Present(b, after) && forall k :: k in before ==> k in after && after[k] == before[k]
    ensures Present(a + b, after)
  {
    forall i | 0 <= i < |a + b| ensures (a + b)[i].key in after && after[(a + b)[i].key].payload == (a + b)[i].payload {
      assert i < |a| ==> (a + b)[i] == a[i] && a[i].key in before;
      assert i >= |a| ==> (a + b)[i] == b[i - |a|];
    }
  }

  /**
   Crash and resume: an import that dies anywhere and is then rerun on the same snapshot leaves the same rows (up to
   modification times), the same verdict and the same manifest status as an import that was never cut off.
   */
  lemma CrashThenRerun(state: State, source: Source, hasDsn: bool, now: string, later: string, death: Death)
    requires source.fingerprintAfter == source.fingerprint && MayResume(state.manifest, source.fingerprint)
    ensures var (stopped, _) := Import(state, source, hasDsn, now, death);
            var (again, r') := Import(stopped, source, hasDsn, later, Survives);
            var (once, r) := Import(state, source, hasDsn, now, Survives);
            && SameRows(once.rows, again.rows)
            && (if r.Ok? then r'.Ok? else r' == r)
            && (r.Ok? ==> r.value.inserted + r.value.skipped == r'.value.inserted + r'.value.skipped
                          == |source.core| + |source.profiles|)
            && again.manifest.Manifest? && once.manifest.Manifest? && again.manifest.status == once.manifest.status
  {
    ResumableManifest(state.manifest, source);
    ResumableManifest(Import(state, source, hasDsn, now, death).0.manifest, source);
    TransferResumes(state.rows, source, hasDsn, now, later, death);
  }

  /** The same rows up to modification times, and the same verdict. */
  ghost predicate SameEnd(x: (Table, Result<Counts>), y: (Table, Result<Counts>)) {
    SameRows(x.0, y.0) && (if x.1.Ok? then y.1.Ok? else y.1 == x.1)
  }

  lemma SameEndTwice(x: (Table, Result<Counts>), y: (Table, Result<Counts>), z: (Table, Result<Counts>))
    requires SameEnd(x, y) && SameEnd(y, z)
    ensures SameEnd(x, z)
  {
  }

  /** The time an import runs at shows in modification times only. */
  lemma TransferIgnoresTime(rows: Table, source: Source, hasDsn: bool, now: string, later: string)
    ensures SameEnd(Transfer(rows, source, hasDsn, now, Survives), Transfer(rows, source, hasDsn, later, Survives))
  {
    var start := Progress(rows, NONE);
    ImportRespectsSameRows(start, start, source.core, 0, now, later);
    var a, b := ImportFrom(start, source.core, 0, now, None).0, ImportFrom(start, source.core, 0, later, None).0;
    ImportRespectsSameRows(a, b, source.profiles, 0, now, later);
  }

  /** One attempt of an import: when it ran, and where it died, if it did. */
  datatype AttemptAt = AttemptAt(now: string, death: Death)

  function Attempts(state: State, source: Source, hasDsn: bool, attempts: seq<AttemptAt>): State
    decreases |attempts|
  {
    if attempts == [] then state
    else
      var before, last := Attempts(state, source, hasDsn, attempts[..|attempts| - 1]), attempts[|attempts| - 1];
      Import(before, source, hasDsn, last.now, last.death).0
  }

  /** However often it was cut off before, an import ends with the rows and the verdict of one that never was. */
  lemma {:induction false} CrashesThenTransfer(state: State, source: Source, hasDsn: bool, attempts: seq<AttemptAt>,
                                               later: string)
    requires source.fingerprintAfter == source.fingerprint && MayResume(state.manifest, source.fingerprint)
    ensures var stopped := Attempts(state, source, hasDsn, attempts);
            && MayResume(stopped.manifest, source.fingerprint)
            && SameEnd(Transfer(state.rows, source, hasDsn, later, Survives),
                       Transfer(stopped.rows, source, hasDsn, later, Survives))
    decreases |attempts|
  {
    if attempts == [] {
      TransferIgnoresTime(state.rows, source, hasDsn, later, later);
    } else {
      var front, last := attempts[..|attempts| - 1], attempts[|attempts| - 1];
      var before := Attempts(state, source, hasDsn, front);
      CrashesThenTransfer(state, source, hasDsn, front, last.now);
      TransferResumes(before.rows, source, hasDsn, last.now, later, last.death);
      TransferIgnoresTime(state.rows, source, hasDsn, later, last.now);
      var once := Transfer(state.rows, source, hasDsn, last.now, Survives);
      var again := Transfer(before.rows, source, hasDsn, last.now, Survives);
      SameEndTwice(Transfer(state.rows, source, hasDsn, later, Survives), once, again);
      SameEndTwice(Transfer(state.rows, source, hasDsn, later, Survives), again,
                   Transfer(Attempts(state, source, hasDsn, attempts).rows, source, hasDsn, later, Survives));
    }
  }

  /**
   Any number of attempts on the same snapshot, each dying anywhere or failing, and then one that survives: the rows (up
   to modification times), the verdict and the manifest status are those of a single import that was never cut off.
   */
  lemma CrashesThenRerun(state: State, source: Source, hasDsn: bool, attempts: seq<AttemptAt>, later: string)
    requires source.fingerprintAfter == source.fingerprint && MayResume(state.manifest, source.fingerprint)
    ensures var (again, r') := Import(Attempts(state, source, hasDsn, attempts), source, hasDsn, later, Survives);
            var (once, r) := Import(state, source, hasDsn, later, Survives);
            && SameEnd((once.rows, r), (again.rows, r'))
            && again.manifest.Manifest? && once.manifest.Manifest? && again.manifest.status == once.manifest.status
  {
    CrashesThenTransfer(state, source, hasDsn, attempts, later);
  }

  /** After a completed import, a further one inserts nothing and changes nothing. */
  lemma FurtherImportInsertsNothing(rows: Table, source: Source, hasDsn: bool, now: string, later: string)
    requires source.fingerprintAfter == source.fingerprint
    requires Transfer(rows, source, hasDsn, now, Survives).1.Ok?
    ensures var done := Transfer(rows, source, hasDsn, now, Survives).0;
            Transfer(done, source, hasDsn, later, Survives) == (done, Ok(Counts(0, |source.core| + |source.profiles|)))
  {
    var core := ImportFrom(Progress(rows, NONE), source.core, 0, now, None).0;
    var done := ImportFrom(core, source.profiles, 0, now, None).0.rows;
    FinishedRowsArePresent(Progress(rows, NONE), source.core, now);
    FinishedRowsArePresent(core, source.profiles, now);
    ExistingRowsUnchanged(core, source.profiles, 0, now, None);
    CompleteTableSkipsAll(done, source.core, NONE, later);
    CompleteTableSkipsAll(done, source.profiles, Counts(0, |source.core|), later);
  }

  // --- When an import fails ---

  /** Keys and secondary unique values of a source are distinct, as its own database enforces. */
  ghost predicate WellFormedSource(recs: seq<Record>) {
    forall i, j :: 0 <= i < j < |recs| ==> recs[i].key != recs[j].key && recs[i].uniques !! recs[j].uniques
  }

  lemma {:induction false} SucceedsUnlessClash(p: Progress, recs: seq<Record>, at: nat, now: string)
    requires at <= |recs| && WellFormedSource(recs)
    ensures ImportFrom(p, recs, at, now, None).1.Ok? <==> forall i :: at <= i < |recs| ==> !Clashes(p.rows, recs[i])
    decreases |recs| - at
  {
    if at < |recs| && ImportOne(p.rows, recs[at], now).Ok? {
      var next := Advance(p, recs[at], ImportOne(p.rows, recs[at], now).value);
      forall i | at < i < |recs| ensures Clashes(next.rows, recs[i]) <==> Clashes(p.rows, recs[i]) {
        if recs[at].key !in p.rows {
          OtherRowsDoNotClash(p.rows, recs[at], recs[i], now);
        }
      }
      SucceedsUnlessClash(next, recs, at + 1, now);
    }
  }

  lemma OtherRowsDoNotClash(rows: Table, added: Record, rec: Record, now: string)
    requires added.key != rec.key && added.uniques !! rec.uniques && added.key !in rows
    ensures Clashes(rows[added.key := Stored(added, now)], rec) <==> Clashes(rows, rec)
    decreases rows, 0
  {
    var next := rows[added.key := Stored(added, now)];
    if UniqueHeld(rows, rec) {
      var k :| k in rows && rows[k].uniques * rec.uniques != {};
      assert next[k].uniques * rec.uniques != {};
    }
  }

  /** An import fails exactly when some source row clashes with the target as it was at the start. */
  lemma ImportFailsIffClash(rows: Table, source: Source, now: string)
    requires source.fingerprintAfter == source.fingerprint && source.profileGraphFits && source.artifactsFit
    requires WellFormedSource(source.core + source.profiles)
    ensures Transfer(rows, source, true, now, Survives).1.Err?
            <==> exists rec :: rec in source.core + source.profiles && Clashes(rows, rec)
  {
    var start := Progress(rows, NONE);
    var recs := source.core + source.profiles;
    SucceedsUnlessClash(start, recs, 0, now);
    ImportOfConcatenation(start, source.core, source.profiles, 0, now);
    assert ImportFrom(start, recs, 0, now, None).1.Ok? <==> forall rec :: rec in recs ==> !Clashes(rows, rec);
  }

  lemma {:induction false} ImportOfConcatenation(p: Progress, a: seq<Record>, b: seq<Record>, at: nat, now: string)
    requires at <= |a|
    ensures var (q, outcome) := ImportFrom(p, a, at, now, None);
            ImportFrom(p, a + b, at, now, None)
            == if outcome.Err? then (q, outcome) else ImportFrom(q, b, 0, now, None)
    decreases |a| - at
  {
    if at < |a| {
      if ImportOne(p.rows, a[at], now).Ok? {
        ImportOfConcatenation(Advance(p, a[at], ImportOne(p.rows, a[at], now).value), a, b, at + 1, now);
      }
    } else {
      ShiftedImport(p, a, b, 0, now);
    }
  }

  lemma {:induction false} ShiftedImport(p: Progress, a: seq<Record>, b: seq<Record>, at: nat, now: string)
    requires at <= |b|
    ensures ImportFrom(p, a + b, |a| + at, now, None) == ImportFrom(p, b, at, now, None)
    decreases |b| - at
  {
    if at < |b| && ImportOne(p.rows, b[at], now).Ok? {
      ShiftedImport(Advance(p, b[at], ImportOne(p.rows, b[at], now).value), a, b, at + 1, now);
    }
  }
}
