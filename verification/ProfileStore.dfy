/** The relational profile store: definitions, immutable numbered versions, type bindings and seed imports. */
module ProfileStore {
  import opened Sequences
  import opened Contracts
  import opened WorkflowProfiles
  import Text

  datatype SourceKind = Seed | Migrated | Admin | UnknownKind(text: string)

  datatype DefinitionRow = DefinitionRow(
    profileLabel: string, controlClass: ControlClass, isActive: bool, activeVersion: Option<int>)

  /** A version row with its transition rows; `hash` stands for the hash of the payload it was made from. */
  datatype VersionRow = VersionRow(
    profileCode: string,
    versionNo: int,
    sourceKind: SourceKind,
    hash: ProfileDefinition,
    effectiveFrom: Moment,
    releaseEvidenceMode: string,
    requiresEditors: bool,
    requiresReviewers: bool,
    requiresApprovers: bool,
    allowsContentChanges: bool,
    transitions: seq<TransitionDefinition>)

  datatype Binding = Binding(controlClass: ControlClass, profileCode: string, allowsOverride: bool)

  datatype BatchClass = AllSeed | AllMigrated | Mixed

  datatype ImportRow = ImportRow(sourcePath: string, sourceKind: string, semanticHash: string, batchClass: BatchClass)

  datatype Tables = Tables(
    definitions: map<string, DefinitionRow>,
    versions: seq<VersionRow>,
    bindings: map<DocumentType, Binding>,
    imports: seq<ImportRow>)

  datatype StoreError =
    | InvalidPayload
    | AlreadyExists
    | NotFound
    | LabelImmutable
    | ControlClassImmutable
    | ConstraintViolated

  datatype Result<+T> = Ok(value: T) | Err(error: StoreError)

  // --- What the tables' own constraints accept ---

  predicate TransitionRowFits(t: TransitionDefinition) {
    && t.transitionNo > 0 && IsAllowedStatus(t.fromStatus) && IsAllowedStatus(t.toStatus)
    && !t.requiredRole.UnknownRole? && !t.decisionPolicy.UnknownPolicy?
    && (t.deadlineSeconds.Some? ==> t.deadlineSeconds.value > 0)
  }

  /** Disabled transitions pass the validator unseen; the table checks them, and each edge may occur only once. */
  predicate TransitionRowsFit(ts: seq<TransitionDefinition>) {
    && (forall i :: 0 <= i < |ts| ==> TransitionRowFits(ts[i]))
    && (forall i, j :: 0 <= i < j < |ts| ==>
          ts[i].transitionNo != ts[j].transitionNo
          && (ts[i].fromStatus != ts[j].fromStatus || ts[i].toStatus != ts[j].toStatus))
  }

  predicate HasVersion(rows: seq<VersionRow>, code: string, versionNo: int) {
    exists i :: 0 <= i < |rows| && rows[i].profileCode == code && rows[i].versionNo == versionNo
  }

  predicate HasHash(rows: seq<VersionRow>, payload: ProfileDefinition) {
    exists i :: 0 <= i < |rows| && rows[i].profileCode == payload.profileCode && rows[i].hash == payload
  }

  function RowFor(payload: ProfileDefinition, versionNo: int, kind: SourceKind, now: Moment): VersionRow {
    VersionRow(payload.profileCode, versionNo, kind, payload, now, payload.releaseEvidenceMode, payload.requiresEditors,
               payload.requiresReviewers, payload.requiresApprovers, payload.allowsContentChanges, payload.transitions)
  }

  function InsertVersion(t: Tables, payload: ProfileDefinition, versionNo: int, kind: SourceKind,
                         now: Moment): Option<Tables> {
    if kind.UnknownKind? || versionNo <= 0 || HasVersion(t.versions, payload.profileCode, versionNo)
       || HasHash(t.versions, payload) || !TransitionRowsFit(payload.transitions) then None
    else Some(t.(versions := t.versions + [RowFor(payload, versionNo, kind, now)]))
  }

  function InsertDefinition(t: Tables, payload: ProfileDefinition): Option<Tables> {
    if payload.profileCode in t.definitions then None
    else Some(t.(definitions := t.definitions[payload.profileCode :=
                                              DefinitionRow(payload.profileLabel, payload.controlClass,
                                                            true, Some(1))]))
  }

  /** A definition with its first version: what creating and importing have in common. */
  function InsertProfile(t: Tables, payload: ProfileDefinition, kind: SourceKind, now: Moment): Option<Tables> {
    match InsertDefinition(t, payload)
    case None => None
    case Some(defined) => InsertVersion(defined, payload, 1, kind, now)
  }

  // --- Reading ---

  function OfCode(code: string): VersionRow -> bool {
    (row: VersionRow) => row.profileCode == code
  }

  function RowsOf(rows: seq<VersionRow>, code: string): seq<VersionRow> {
    Keep(rows, OfCode(code))
  }

  /** `MAX(version_no)`, with 0 for no rows. */
  function MaxVersion(rows: seq<VersionRow>): int {
    if rows == [] then 0
    else
      var rest := MaxVersion(rows[..|rows| - 1]);
      if rows[|rows| - 1].versionNo > rest then rows[|rows| - 1].versionNo else rest
  }

  function EffectiveBy(now: Moment): VersionRow -> bool {
    (row: VersionRow) => Text.AtMost(row.effectiveFrom, now)
  }

  /** The row with the highest version number. */
  function Newest(rows: seq<VersionRow>): Option<VersionRow> {
    if rows == [] then None
    else
      var last := rows[|rows| - 1];
      match Newest(rows[..|rows| - 1])
      case None => Some(last)
      case Some(best) => if last.versionNo > best.versionNo then Some(last) else Some(best)
  }

  function ByNumber(): (TransitionDefinition, TransitionDefinition) -> bool {
    (a: TransitionDefinition, b: TransitionDefinition) => a.transitionNo <= b.transitionNo
  }

  /** The payload as it is put together again from the rows. */
  function Rebuilt(d: DefinitionRow, row: VersionRow): ProfileDefinition {
    ProfileDefinition(row.profileCode, d.profileLabel, d.controlClass, row.releaseEvidenceMode, row.requiresEditors,
                      row.requiresReviewers, row.requiresApprovers, row.allowsContentChanges,
                      Sort(row.transitions, ByNumber()))
  }

  function ActiveDefinition(t: Tables, code: string, now: Moment): Option<ProfileDefinition> {
    if code !in t.definitions || !t.definitions[code].isActive then None
    else match Newest(Keep(RowsOf(t.versions, code), EffectiveBy(now)))
      case None => None
      case Some(row) => Some(Rebuilt(t.definitions[code], row))
  }

  // --- Writing ---

  ghost function Created(t: Tables, payload: ProfileDefinition, kind: SourceKind, actor: string,
                         now: Moment): Result<Tables> {
    if !Accepted(payload) || Text.Strip(actor) == "" then Err(InvalidPayload)
    else if payload.profileCode in t.definitions then Err(AlreadyExists)
    else match InsertProfile(t, payload, kind, now)
      case None => Err(ConstraintViolated)
      case Some(next) => Ok(next)
  }

  ghost function Revised(t: Tables, payload: ProfileDefinition, kind: SourceKind, actor: string,
                         now: Moment): Result<Tables> {
    if !Accepted(payload) || Text.Strip(actor) == "" then Err(InvalidPayload)
    else Versioned(t, payload, kind, now)
  }

  /** The next version of an existing profile, whose label and control class may not differ. */
  function Versioned(t: Tables, payload: ProfileDefinition, kind: SourceKind, now: Moment): Result<Tables> {
    var code := payload.profileCode;
    var latest := MaxVersion(RowsOf(t.versions, code));
    if code !in t.definitions || latest <= 0 then Err(NotFound)
    else if t.definitions[code].profileLabel != payload.profileLabel then Err(LabelImmutable)
    else if t.definitions[code].controlClass != payload.controlClass then Err(ControlClassImmutable)
    else match InsertVersion(t, payload, latest + 1, kind, now)
      case None => Err(ConstraintViolated)
      case Some(next) => Ok(WithActiveVersion(next, code, latest + 1))
  }

  function WithActiveVersion(t: Tables, code: string, versionNo: int): Tables
    requires code in t.definitions
  {
    t.(definitions := t.definitions[code := t.definitions[code].(activeVersion := Some(versionNo))])
  }

  function Activated(t: Tables, code: string, isActive: bool, actor: string): Result<Tables> {
    if Text.Strip(actor) == "" then Err(InvalidPayload)
    else if code !in t.definitions then Err(NotFound)
    else Ok(t.(definitions := t.definitions[code := t.definitions[code].(isActive := isActive)]))
  }

  function Bound(t: Tables, docType: DocumentType, code: string, actor: string,
                 allowsOverride: Option<bool>): Result<Tables> {
    if Text.Strip(actor) == "" then Err(InvalidPayload)
    else if code !in t.definitions || !t.definitions[code].isActive then Err(NotFound)
    else
      var override := match allowsOverride
        case Some(wanted) => wanted
        case None => docType in t.bindings && t.bindings[docType].allowsOverride;
      Ok(t.(bindings := t.bindings[docType := Binding(t.definitions[code].controlClass, code, override)]))
  }

  // --- Importing a seed ---

  datatype SeedPayload = SeedPayload(profiles: seq<ProfileDefinition>, semanticHash: string)

  /** `legacy` says that a legacy file is migrated, where profiles only the package has are left out on purpose. */
  datatype ImportSource = ImportSource(
    path: string, kind: string, seed: SeedPayload, bundled: seq<ProfileDefinition>, legacy: bool)

  function LastByCode(profiles: seq<ProfileDefinition>, code: string): Option<ProfileDefinition> {
    if profiles == [] then None
    else if profiles[|profiles| - 1].profileCode == code then Some(profiles[|profiles| - 1])
    else LastByCode(profiles[..|profiles| - 1], code)
  }

  /** Identical to the bundled profile of that code, or not. */
  function Classification(p: ProfileDefinition, bundled: seq<ProfileDefinition>): SourceKind {
    if LastByCode(bundled, p.profileCode) == Some(p) then Seed else Migrated
  }

  // --- The report ---

  datatype ReportStatus = Pending | ImportedRow | Blocked | SkippedPackageOnly

  datatype ReportRow = ReportRow(profileCode: string, classification: SourceKind, status: ReportStatus)

  function PendingRows(source: ImportSource): (rows: seq<ReportRow>)
    ensures |rows| == |source.seed.profiles|
    ensures forall i :: 0 <= i < |rows| ==> rows[i] == PendingRow(source, i)
  {
    seq(|source.seed.profiles|, i requires 0 <= i < |source.seed.profiles| => PendingRow(source, i))
  }

  function PendingRow(source: ImportSource, i: nat): ReportRow
    requires i < |source.seed.profiles|
  {
    var p := source.seed.profiles[i];
    ReportRow(p.profileCode, Classification(p, source.bundled), Pending)
  }

  /** One row for each bundled code that is not in the source, in the order the codes first occur. */
  function PackageOnly(bundled: seq<ProfileDefinition>, profiles: seq<ProfileDefinition>): seq<ReportRow> {
    if bundled == [] then []
    else
      var front, code := bundled[..|bundled| - 1], bundled[|bundled| - 1].profileCode;
      PackageOnly(front, profiles)
      + (if HasCode(profiles, code) || HasCode(front, code) then [] else [ReportRow(code, Seed, SkippedPackageOnly)])
  }

  function ReportRows(source: ImportSource): seq<ReportRow> {
    PendingRows(source) + (if source.legacy then PackageOnly(source.bundled, source.seed.profiles) else [])
  }

  /** After the transaction: pending rows are imported, or every row is blocked. */
  function Closed(rows: seq<ReportRow>, imported: bool): (r: seq<ReportRow>)
    ensures |r| == |rows| && forall i :: 0 <= i < |r| ==> r[i] == ClosedRow(rows[i], imported)
  {
    seq(|rows|, i requires 0 <= i < |rows| => ClosedRow(rows[i], imported))
  }

  function ClosedRow(row: ReportRow, imported: bool): ReportRow {
    if !imported then row.(status := Blocked) else if row.status == Pending then row.(status := ImportedRow) else row
  }

  /** What kinds the source's own profiles are of; no profiles at all count as mixed. */
  function BatchClassOf(source: ImportSource): BatchClass {
    var profiles, bundled := source.seed.profiles, source.bundled;
    if profiles != [] && forall i :: 0 <= i < |profiles| ==> Classification(profiles[i], bundled) == Seed then AllSeed
    else if profiles != [] && forall i :: 0 <= i < |profiles| ==> Classification(profiles[i], bundled) == Migrated then
      AllMigrated
    else Mixed
  }

  /** The first `n` profiles inserted in order, each at its own time. */
  function InsertProfiles(t: Tables, source: ImportSource, n: nat, clock: nat -> Moment): Option<Tables>
    requires n <= |source.seed.profiles|
  {
    if n == 0 then Some(t)
    else
      var p := source.seed.profiles[n - 1];
      match InsertProfiles(t, source, n - 1, clock)
      case None => None
      case Some(before) => InsertProfile(before, p, Classification(p, source.bundled), clock(n - 1))
  }

  function SeedBinding(d: DocumentType): Binding {
    Binding(if d == EXT then External else Controlled, BoundCode(d), d == OTHER)
  }

  /** Types already bound keep their binding. */
  function WithBindings(t: Tables): Tables {
    t.(bindings := (map d: DocumentType | d in {VA, AA, FB, LS, EXT, OTHER} :: SeedBinding(d)) + t.bindings)
  }

  /** Imports are unique by path, kind and semantic hash. */
  predicate IsRecorded(imports: seq<ImportRow>, row: ImportRow) {
    exists i :: 0 <= i < |imports| && imports[i].sourcePath == row.sourcePath && imports[i].sourceKind == row.sourceKind
                && imports[i].semanticHash == row.semanticHash
  }

  /** The import's one transaction. */
  function Imported(t: Tables, source: ImportSource, clock: nat -> Moment): Option<Tables> {
    var profiles := source.seed.profiles;
    var row := ImportRow(source.path, source.kind, source.seed.semanticHash, BatchClassOf(source));
    match InsertProfiles(t, source, |profiles|, clock)
    case None => None
    case Some(filled) =>
      if !HasCode(profiles, BoundCode(VA)) || !HasCode(profiles, BoundCode(EXT)) || IsRecorded(t.imports, row) then None
      else Some(WithBindings(filled).(imports := filled.imports + [row]))
  }

  ghost predicate AllAccepted(profiles: seq<ProfileDefinition>) {
    forall i :: 0 <= i < |profiles| ==> Accepted(profiles[i])
  }

  ghost function SeedImported(t: Tables, source: ImportSource, clock: nat -> Moment): Result<Tables> {
    if !AllAccepted(source.seed.profiles) then Err(InvalidPayload)
    else match Imported(t, source, clock)
      case None => Err(ConstraintViolated)
      case Some(next) => Ok(next)
  }

  class WorkflowProfileStore {
    var tables: Tables
    var lastImportReport: seq<ReportRow>

    constructor ()
      ensures tables == Tables(map[], [], map[], []) && lastImportReport == []
    {
      tables, lastImportReport := Tables(map[], [], map[], []), [];
    }

    method GetActiveDefinition(code: string, now: Moment) returns (r: Option<ProfileDefinition>)
      ensures r == ActiveDefinition(tables, code, now)
    {
      if code !in tables.definitions || !tables.definitions[code].isActive {
        return None;
      }
      var best := FirstByVersion(Keep(RowsOf(tables.versions, code), EffectiveBy(now)));
      r := if best.None? then None else Some(Rebuilt(tables.definitions[code], best.value));
    }

    /** The first row in descending order of version number. */
    method FirstByVersion(rows: seq<VersionRow>) returns (best: Option<VersionRow>)
      ensures best == Newest(rows)
    {
      best := None;
      for i := 0 to |rows|
        invariant best == Newest(rows[..i])
      {
        assert rows[..i + 1][..i] == rows[..i];
        if best.None? || rows[i].versionNo > best.value.versionNo {
          best := Some(rows[i]);
        }
      }
      assert rows[..|rows|] == rows;
    }

    method CreateDefinition(payload: ProfileDefinition, kind: SourceKind, actor: string, now: Moment)
      returns (r: Result<()>)
      modifies this`tables
      ensures match Created(old(tables), payload, kind, actor, now)
              case Ok(next) => r == Ok(()) && tables == next
              case Err(e) => r == Err(e) && tables == old(tables)
    {
      var accepted := ValidateDefinition(payload);
      if !accepted || Text.Strip(actor) == "" {
        return Err(InvalidPayload);
      }
      r := InsertNewProfile(payload, kind, now);
    }

    /** Definition and first version in one transaction: if the second insert fails, the first is undone. */
    method InsertNewProfile(payload: ProfileDefinition, kind: SourceKind, now: Moment) returns (r: Result<()>)
      modifies this`tables
      ensures payload.profileCode in old(tables).definitions ==> r == Err(AlreadyExists)
      ensures payload.profileCode !in old(tables).definitions ==>
                r == if InsertProfile(old(tables), payload, kind, now).Some? then Ok(()) else Err(ConstraintViolated)
      ensures tables == if r.Ok? then InsertProfile(old(tables), payload, kind, now).value else old(tables)
    {
      if payload.profileCode in tables.definitions {
        return Err(AlreadyExists);
      }
      var before := tables;
      tables := InsertDefinition(tables, payload).value;
      var inserted := InsertVersion(tables, payload, 1, kind, now);
      if inserted.None? {
        tables := before;
        return Err(ConstraintViolated);
      }
      tables := inserted.value;
      r := Ok(());
    }

    method CreateVersion(payload: ProfileDefinition, kind: SourceKind, actor: string, now: Moment)
      returns (r: Result<()>)
      modifies this`tables
      ensures match Revised(old(tables), payload, kind, actor, now)
              case Ok(next) => r == Ok(()) && tables == next
              case Err(e) => r == Err(e) && tables == old(tables)
    {
      var accepted := ValidateDefinition(payload);
      if !accepted || Text.Strip(actor) == "" {
        return Err(InvalidPayload);
      }
      r := InsertNextVersion(payload, kind, now);
    }

    method InsertNextVersion(payload: ProfileDefinition, kind: SourceKind, now: Moment) returns (r: Result<()>)
      modifies this`tables
      ensures match Versioned(old(tables), payload, kind, now)
              case Ok(next) => r == Ok(()) && tables == next
              case Err(e) => r == Err(e) && tables == old(tables)
    {
      var code := payload.profileCode;
      var latest := MaxVersion(RowsOf(tables.versions, code));
      if code !in tables.definitions || latest <= 0 {
        return Err(NotFound);
      }
      if tables.definitions[code].profileLabel != payload.profileLabel {
        return Err(LabelImmutable);
      }
      if tables.definitions[code].controlClass != payload.controlClass {
        return Err(ControlClassImmutable);
      }
      var inserted := InsertVersion(tables, payload, latest + 1, kind, now);
      if inserted.None? {
        return Err(ConstraintViolated);
      }
      tables := inserted.value;
      tables := WithActiveVersion(tables, code, latest + 1);
      r := Ok(());
    }

    method SetActive(code: string, isActive: bool, actor: string) returns (r: Result<()>)
      modifies this`tables
      ensures match Activated(old(tables), code, isActive, actor)
              case Ok(next) => r == Ok(()) && tables == next
              case Err(e) => r == Err(e) && tables == old(tables)
    {
      if Text.Strip(actor) == "" {
        return Err(InvalidPayload);
      }
      if code !in tables.definitions {
        return Err(NotFound);
      }
      var row := tables.definitions[code];
      tables := tables.(definitions := tables.definitions[code := row.(isActive := isActive)]);
      r := Ok(());
    }

    method BindDefaultProfile(docType: DocumentType, code: string, actor: string, allowsOverride: Option<bool>)
      returns (r: Result<()>)
      modifies this`tables
      ensures match Bound(old(tables), docType, code, actor, allowsOverride)
              case Ok(next) => r == Ok(()) && tables == next
              case Err(e) => r == Err(e) && tables == old(tables)
    {
      if Text.Strip(actor) == "" {
        return Err(InvalidPayload);
      }
      if code !in tables.definitions || !tables.definitions[code].isActive {
        return Err(NotFound);
      }
      var override := false;
      if allowsOverride.Some? {
        override := allowsOverride.value;
      } else if docType in tables.bindings {
        override := tables.bindings[docType].allowsOverride;
      }
      var bound := Binding(tables.definitions[code].controlClass, code, override);
      tables := tables.(bindings := tables.bindings[docType := bound]);
      r := Ok(());
    }

    /** Validation comes before the transaction and touches nothing; a failure inside it undoes every write. */
    method ImportSeed(source: ImportSource, clock: nat -> Moment) returns (r: Result<()>)
      modifies this
      ensures match SeedImported(old(tables), source, clock)
              case Ok(next) => r == Ok(()) && tables == next && lastImportReport == Closed(ReportRows(source), true)
              case Err(e) => r == Err(e) && tables == old(tables)
                             && lastImportReport == (if e == InvalidPayload then old(lastImportReport)
                                                     else Closed(ReportRows(source), false))
    {
      var reportRows := ValidateSource(source);
      if reportRows.None? {
        return Err(InvalidPayload);
      }
      var done := WriteImport(source, clock);
      lastImportReport := Closed(reportRows.value, done);
      r := if done then Ok(()) else Err(ConstraintViolated);
    }

    /** Each profile validated and classified; profiles only the package has are reported after them. */
    method ValidateSource(source: ImportSource) returns (rows: Option<seq<ReportRow>>)
      ensures rows.Some? <==> AllAccepted(source.seed.profiles)
      ensures rows.Some? ==> rows.value == ReportRows(source)
    {
      var profiles := source.seed.profiles;
      var reported: seq<ReportRow> := [];
      for i := 0 to |profiles|
        invariant reported == PendingRows(source)[..i] && AllAccepted(profiles[..i])
      {
        var accepted := ValidateDefinition(profiles[i]);
        if !accepted {
          return None;
        }
        var classified := Classification(profiles[i], source.bundled);
        reported := reported + [ReportRow(profiles[i].profileCode, classified, Pending)];
      }
      if source.legacy {
        var skipped := SkipPackageOnly(source.bundled, profiles);
        reported := reported + skipped;
      }
      rows := Some(reported);
    }

    method SkipPackageOnly(bundled: seq<ProfileDefinition>, profiles: seq<ProfileDefinition>)
      returns (skipped: seq<ReportRow>)
      ensures skipped == PackageOnly(bundled, profiles)
    {
      skipped := [];
      for k := 0 to |bundled|
        invariant skipped == PackageOnly(bundled[..k], profiles)
      {
        assert bundled[..k + 1][..k] == bundled[..k];
        var code := bundled[k].profileCode;
        if HasCode(profiles, code) || HasCode(bundled[..k], code) {
          continue;
        }
        skipped := skipped + [ReportRow(code, Seed, SkippedPackageOnly)];
      }
      assert bundled[..|bundled|] == bundled;
    }

    method WriteImport(source: ImportSource, clock: nat -> Moment) returns (done: bool)
      modifies this`tables
      ensures done <==> Imported(old(tables), source, clock).Some?
      ensures tables == if done then Imported(old(tables), source, clock).value else old(tables)
    {
      var before, profiles := tables, source.seed.profiles;
      for i := 0 to |profiles|
        invariant InsertProfiles(before, source, i, clock) == Some(tables)
      {
        var inserted := InsertProfile(tables, profiles[i], Classification(profiles[i], source.bundled), clock(i));
        if inserted.None? {
          FailureIsFinal(before, source, i + 1, |profiles|, clock);
          tables := before;
          return false;
        }
        tables := inserted.value;
      }
      ImportsUntouched(before, source, |profiles|, clock);
      var row := ImportRow(source.path, source.kind, source.seed.semanticHash, BatchClassOf(source));
      if !HasCode(profiles, BoundCode(VA)) || !HasCode(profiles, BoundCode(EXT)) || IsRecorded(tables.imports, row) {
        tables := before;
        return false;
      }
      tables := WithBindings(tables);
      tables := tables.(imports := tables.imports + [row]);
      done := true;
    }
  }

  lemma {:induction false} FailureIsFinal(t: Tables, source: ImportSource, k: nat, n: nat, clock: nat -> Moment)
    requires k <= n <= |source.seed.profiles| && InsertProfiles(t, source, k, clock).None?
    ensures InsertProfiles(t, source, n, clock).None?
    decreases n - k
  {
    if k < n {
      FailureIsFinal(t, source, k, n - 1, clock);
    }
  }

  lemma {:induction false} ImportsUntouched(t: Tables, source: ImportSource, n: nat, clock: nat -> Moment)
    requires n <= |source.seed.profiles| && InsertProfiles(t, source, n, clock).Some?
    ensures var after := InsertProfiles(t, source, n, clock).value;
            after.imports == t.imports && after.bindings == t.bindings
  {
    if n > 0 {
      ImportsUntouched(t, source, n - 1, clock);
    }
  }

  // --- What every run keeps ---

  /** Version numbers in order of creation, from 1 without a gap. */
  ghost predicate Numbered(rows: seq<VersionRow>) {
    forall i :: 0 <= i < |rows| ==> rows[i].versionNo == i + 1
  }

  /** A stored version still yields the payload it was made from. */
  ghost predicate RowFits(t: Tables, row: VersionRow) {
    row.profileCode in t.definitions && Rebuilt(t.definitions[row.profileCode], row) == row.hash
  }

  ghost predicate CodeFits(t: Tables, code: string)
    requires code in t.definitions
  {
    var rows := RowsOf(t.versions, code);
    rows != [] && Numbered(rows) && t.definitions[code].activeVersion == Some(|rows|)
  }

  ghost predicate UniqueHashes(rows: seq<VersionRow>) {
    forall i, j :: 0 <= i < j < |rows| && rows[i].profileCode == rows[j].profileCode ==> rows[i].hash != rows[j].hash
  }

  ghost predicate Invariant(t: Tables) {
    && (forall i :: 0 <= i < |t.versions| ==> RowFits(t, t.versions[i]))
    && (forall code :: code in t.definitions ==> CodeFits(t, code))
    && UniqueHashes(t.versions)
    && (forall d :: d in t.bindings ==> t.bindings[d].profileCode in t.definitions)
  }

  /** Nothing stored is lost or changed: versions only grow at the end, label and control class stay. */
  ghost predicate Extends(before: Tables, after: Tables) {
    && before.versions <= after.versions
    && (forall code :: code in before.definitions ==>
          && code in after.definitions
          && after.definitions[code].profileLabel == before.definitions[code].profileLabel
          && after.definitions[code].controlClass == before.definitions[code].controlClass)
  }

  lemma {:induction false} NumberedSortIsIdentity(ts: seq<TransitionDefinition>, first: int)
    requires forall i :: 0 <= i < |ts| ==> ts[i].transitionNo == first + i
    ensures Sort(ts, ByNumber()) == ts
  {
    if ts != [] {
      NumberedSortIsIdentity(ts[1..], first + 1);
      assert ts == [ts[0]] + ts[1..];
    }
  }

  lemma {:induction false} NumberedMax(rows: seq<VersionRow>)
    requires Numbered(rows)
    ensures MaxVersion(rows) == |rows|
  {
    if rows != [] {
      NumberedMax(rows[..|rows| - 1]);
    }
  }

  lemma AppendedRows(rows: seq<VersionRow>, row: VersionRow, code: string)
    ensures RowsOf(rows + [row], code)
            == if row.profileCode == code then RowsOf(rows, code) + [row] else RowsOf(rows, code)
  {
    KeepConcat(rows, [row], OfCode(code));
    assert Keep([row], OfCode(code)) == if row.profileCode == code then [row] else [] by {
      assert [row][1..] == [];
    }
  }

  lemma NoRowsWithoutDefinition(t: Tables, code: string)
    requires Invariant(t) && code !in t.definitions
    ensures RowsOf(t.versions, code) == []
  {
    if RowsOf(t.versions, code) != [] {
      RowIn(t, code, RowsOf(t.versions, code)[0]);
    }
  }

  /** A row made from an accepted payload gives that payload back under a definition with its label and class. */
  lemma NewRowFits(d: DefinitionRow, payload: ProfileDefinition, no: int, kind: SourceKind, now: Moment)
    requires IsNumbered(payload.transitions)
    requires d.profileLabel == payload.profileLabel && d.controlClass == payload.controlClass
    ensures Rebuilt(d, RowFor(payload, no, kind, now)) == payload
  {
    NumberedSortIsIdentity(payload.transitions, 1);
  }

  /** Definitions after an insertion or a new version: the code gets its row, the others keep theirs. */
  ghost predicate AddsVersion(before: Tables, after: Tables, payload: ProfileDefinition, no: int, row: VersionRow) {
    var code := payload.profileCode;
    && row.profileCode == code && row.versionNo == no && row.hash == payload
    && after.versions == before.versions + [row]
    && code in after.definitions && after.definitions[code].activeVersion == Some(no)
    && Rebuilt(after.definitions[code], row) == payload
    && after.bindings == before.bindings
    && (forall c :: c in before.definitions && c != code ==>
          c in after.definitions && after.definitions[c] == before.definitions[c])
    && (forall c :: c in after.definitions && c != code ==> c in before.definitions)
    && (code in before.definitions ==>
          after.definitions[code].profileLabel == before.definitions[code].profileLabel
          && after.definitions[code].controlClass == before.definitions[code].controlClass)
  }

  lemma AddedVersionFits(before: Tables, after: Tables, payload: ProfileDefinition, no: int, row: VersionRow)
    requires Invariant(before) && AddsVersion(before, after, payload, no, row)
    requires no == |RowsOf(before.versions, payload.profileCode)| + 1 && !HasHash(before.versions, payload)
    ensures Invariant(after) && Extends(before, after)
  {
    var code := payload.profileCode;
    if code !in before.definitions {
      NoRowsWithoutDefinition(before, code);
    }
    forall i | 0 <= i < |after.versions| ensures RowFits(after, after.versions[i]) {
      if i < |before.versions| {
        assert RowFits(before, before.versions[i]);
      }
    }
    forall c | c in after.definitions ensures CodeFits(after, c) {
      AppendedRows(before.versions, row, c);
      if c in before.definitions {
        assert CodeFits(before, c);
      }
    }
    UniqueAfterAppend(before.versions, row);
  }

  lemma UniqueAfterAppend(rows: seq<VersionRow>, row: VersionRow)
    requires UniqueHashes(rows) && row.hash.profileCode == row.profileCode && !HasHash(rows, row.hash)
    ensures UniqueHashes(rows + [row])
  {
  }

  lemma InsertedProfileFits(t: Tables, payload: ProfileDefinition, kind: SourceKind, now: Moment)
    requires Invariant(t) && IsNumbered(payload.transitions) && InsertProfile(t, payload, kind, now).Some?
    ensures var after := InsertProfile(t, payload, kind, now).value;
            && Invariant(after) && Extends(t, after)
            && after.definitions.Keys == t.definitions.Keys + {payload.profileCode}
            && payload.profileCode !in t.definitions
  {
    var after := InsertProfile(t, payload, kind, now).value;
    NewRowFits(after.definitions[payload.profileCode], payload, 1, kind, now);
    NoRowsWithoutDefinition(t, payload.profileCode);
    AddedVersionFits(t, after, payload, 1, RowFor(payload, 1, kind, now));
  }

  lemma VersionedFits(t: Tables, payload: ProfileDefinition, kind: SourceKind, now: Moment)
    requires Invariant(t) && IsNumbered(payload.transitions) && Versioned(t, payload, kind, now).Ok?
    ensures var after := Versioned(t, payload, kind, now).value; Invariant(after) && Extends(t, after)
  {
    var after := Versioned(t, payload, kind, now).value;
    var rows := RowsOf(t.versions, payload.profileCode);
    assert CodeFits(t, payload.profileCode);
    NumberedMax(rows);
    var no := |rows| + 1;
    NewRowFits(after.definitions[payload.profileCode], payload, no, kind, now);
    AddedVersionFits(t, after, payload, no, RowFor(payload, no, kind, now));
  }

  lemma ActivatedFits(t: Tables, code: string, isActive: bool, actor: string)
    requires Invariant(t) && Activated(t, code, isActive, actor).Ok?
    ensures var after := Activated(t, code, isActive, actor).value; Invariant(after) && Extends(t, after)
  {
    var after := Activated(t, code, isActive, actor).value;
    forall i | 0 <= i < |after.versions| ensures RowFits(after, after.versions[i]) {
      assert RowFits(t, t.versions[i]);
    }
    forall c | c in after.definitions ensures CodeFits(after, c) {
      assert CodeFits(t, c);
    }
  }

  ghost predicate AllNumbered(profiles: seq<ProfileDefinition>) {
    forall i :: 0 <= i < |profiles| ==> IsNumbered(profiles[i].transitions)
  }

  lemma {:induction false} InsertedProfilesFit(t: Tables, source: ImportSource, n: nat, clock: nat -> Moment)
    requires Invariant(t) && n <= |source.seed.profiles| && AllNumbered(source.seed.profiles)
    requires InsertProfiles(t, source, n, clock).Some?
    ensures var after := InsertProfiles(t, source, n, clock).value; Invariant(after) && Extends(t, after)
  {
    if n > 0 {
      InsertedProfilesFit(t, source, n - 1, clock);
      var before := InsertProfiles(t, source, n - 1, clock).value;
      var p := source.seed.profiles[n - 1];
      InsertedProfileFits(before, p, Classification(p, source.bundled), clock(n - 1));
      ExtendsIsTransitive(t, before, InsertProfiles(t, source, n, clock).value);
    }
  }

  lemma {:induction false} InsertedCodes(t: Tables, source: ImportSource, n: nat, clock: nat -> Moment, i: nat)
    requires i < n <= |source.seed.profiles| && InsertProfiles(t, source, n, clock).Some?
    ensures source.seed.profiles[i].profileCode in InsertProfiles(t, source, n, clock).value.definitions
  {
    if i < n - 1 {
      InsertedCodes(t, source, n - 1, clock, i);
    }
  }

  lemma CodesAreDefined(t: Tables, source: ImportSource, clock: nat -> Moment, code: string)
    requires HasCode(source.seed.profiles, code) && InsertProfiles(t, source, |source.seed.profiles|, clock).Some?
    ensures code in InsertProfiles(t, source, |source.seed.profiles|, clock).value.definitions
  {
    var i :| 0 <= i < |source.seed.profiles| && source.seed.profiles[i].profileCode == code;
    InsertedCodes(t, source, |source.seed.profiles|, clock, i);
  }

  /** Bindings and import rows do not touch what the other tables promise. */
  lemma SameVersionsFit(before: Tables, after: Tables)
    requires Invariant(before) && after.definitions == before.definitions && after.versions == before.versions
    requires forall d :: d in after.bindings ==> after.bindings[d].profileCode in after.definitions
    ensures Invariant(after)
  {
    forall i | 0 <= i < |after.versions| ensures RowFits(after, after.versions[i]) {
      assert RowFits(before, before.versions[i]);
    }
    forall c | c in after.definitions ensures CodeFits(after, c) {
      assert CodeFits(before, c);
    }
  }

  lemma ImportedFits(t: Tables, source: ImportSource, clock: nat -> Moment)
    requires Invariant(t) && AllNumbered(source.seed.profiles) && Imported(t, source, clock).Some?
    ensures var after := Imported(t, source, clock).value; Invariant(after) && Extends(t, after)
  {
    var filled := InsertProfiles(t, source, |source.seed.profiles|, clock).value;
    InsertedProfilesFit(t, source, |source.seed.profiles|, clock);
    ImportsUntouched(t, source, |source.seed.profiles|, clock);
    CodesAreDefined(t, source, clock, BoundCode(VA));
    CodesAreDefined(t, source, clock, BoundCode(EXT));
    SameVersionsFit(filled, Imported(t, source, clock).value);
  }

  lemma AcceptedAreNumbered(profiles: seq<ProfileDefinition>)
    requires AllAccepted(profiles)
    ensures AllNumbered(profiles)
  {
    forall i | 0 <= i < |profiles| ensures IsNumbered(profiles[i].transitions) {
      assert Accepted(profiles[i]);
    }
  }

  datatype Operation =
    | OpCreate(payload: ProfileDefinition, kind: SourceKind, actor: string, now: Moment)
    | OpRevise(payload: ProfileDefinition, kind: SourceKind, actor: string, now: Moment)
    | OpActivate(code: string, isActive: bool, actor: string)
    | OpBind(docType: DocumentType, code: string, actor: string, allowsOverride: Option<bool>)
    | OpImport(source: ImportSource, clock: nat -> Moment)

  ghost function Attempt(t: Tables, op: Operation): Result<Tables> {
    match op
    case OpCreate(payload, kind, actor, now) => Created(t, payload, kind, actor, now)
    case OpRevise(payload, kind, actor, now) => Revised(t, payload, kind, actor, now)
    case OpActivate(code, isActive, actor) => Activated(t, code, isActive, actor)
    case OpBind(docType, code, actor, allowsOverride) => Bound(t, docType, code, actor, allowsOverride)
    case OpImport(source, clock) => SeedImported(t, source, clock)
  }

  ghost function Perform(t: Tables, op: Operation): Tables {
    match Attempt(t, op)
    case Ok(next) => next
    case Err(_) => t
  }

  ghost function Run(t: Tables, ops: seq<Operation>): Tables
    decreases |ops|
  {
    if ops == [] then t else Perform(Run(t, ops[..|ops| - 1]), ops[|ops| - 1])
  }

  lemma PerformKeepsInvariant(t: Tables, op: Operation)
    requires Invariant(t)
    ensures Invariant(Perform(t, op)) && Extends(t, Perform(t, op))
  {
    if Attempt(t, op).Ok? {
      match op
      case OpCreate(payload, kind, actor, now) => InsertedProfileFits(t, payload, kind, now);
      case OpRevise(payload, kind, actor, now) => VersionedFits(t, payload, kind, now);
      case OpActivate(code, isActive, actor) => ActivatedFits(t, code, isActive, actor);
      case OpBind(docType, code, actor, allowsOverride) => BoundFits(t, docType, code, actor, allowsOverride);
      case OpImport(source, clock) =>
        AcceptedAreNumbered(source.seed.profiles);
        ImportedFits(t, source, clock);
    }
  }

  lemma BoundFits(t: Tables, docType: DocumentType, code: string, actor: string, allowsOverride: Option<bool>)
    requires Invariant(t) && Bound(t, docType, code, actor, allowsOverride).Ok?
    ensures var after := Bound(t, docType, code, actor, allowsOverride).value; Invariant(after) && Extends(t, after)
  {
    SameVersionsFit(t, Bound(t, docType, code, actor, allowsOverride).value);
  }

  /**
   Over every run: version numbers are exactly 1..n with n the active one, stored versions never change and still give
   back their payload, label and control class stay, and every type binding names an existing definition.
   */
  lemma {:induction false} RunKeepsInvariant(t: Tables, ops: seq<Operation>)
    requires Invariant(t)
    ensures Invariant(Run(t, ops)) && Extends(t, Run(t, ops))
    decreases |ops|
  {
    if ops != [] {
      var front := Run(t, ops[..|ops| - 1]);
      RunKeepsInvariant(t, ops[..|ops| - 1]);
      PerformKeepsInvariant(front, ops[|ops| - 1]);
      ExtendsIsTransitive(t, front, Run(t, ops));
    }
  }

  lemma ExtendsIsTransitive(a: Tables, b: Tables, c: Tables)
    requires Extends(a, b) && Extends(b, c)
    ensures Extends(a, c)
  {
  }

  // --- When an import succeeds ---

  /** New codes without repetition, and transitions the table takes, disabled ones included. */
  ghost predicate Insertable(t: Tables, profiles: seq<ProfileDefinition>, n: nat)
    requires n <= |profiles|
  {
    && (forall i :: 0 <= i < n ==>
        profiles[i].profileCode !in t.definitions && TransitionRowsFit(profiles[i].transitions))
    && (forall i, j :: 0 <= i < j < n ==> profiles[i].profileCode != profiles[j].profileCode)
  }

  lemma NewCodeHasNoVersions(t: Tables, payload: ProfileDefinition)
    requires Invariant(t) && payload.profileCode !in t.definitions
    ensures !HasVersion(t.versions, payload.profileCode, 1) && !HasHash(t.versions, payload)
  {
    assert forall i :: 0 <= i < |t.versions| ==> RowFits(t, t.versions[i]);
  }

  lemma InsertsIffNewAndFitting(t: Tables, payload: ProfileDefinition, kind: SourceKind, now: Moment)
    requires Invariant(t) && !kind.UnknownKind?
    ensures InsertProfile(t, payload, kind, now).Some? <==>
            payload.profileCode !in t.definitions && TransitionRowsFit(payload.transitions)
  {
    if payload.profileCode !in t.definitions {
      NewCodeHasNoVersions(t, payload);
    }
  }

  lemma {:induction false} InsertedCodesAreAll(t: Tables, source: ImportSource, n: nat, clock: nat -> Moment,
                                               code: string)
    requires n <= |source.seed.profiles| && InsertProfiles(t, source, n, clock).Some?
    ensures code in InsertProfiles(t, source, n, clock).value.definitions <==>
            code in t.definitions || exists i :: 0 <= i < n && source.seed.profiles[i].profileCode == code
  {
    if n > 0 {
      InsertedCodesAreAll(t, source, n - 1, clock, code);
    }
  }

  lemma InsertableGrows(t: Tables, profiles: seq<ProfileDefinition>, n: nat)
    requires 0 < n <= |profiles|
    ensures Insertable(t, profiles, n) <==>
            && Insertable(t, profiles, n - 1)
            && profiles[n - 1].profileCode !in t.definitions && TransitionRowsFit(profiles[n - 1].transitions)
            && !exists i :: 0 <= i < n - 1 && profiles[i].profileCode == profiles[n - 1].profileCode
  {
  }

  lemma OneMoreInserts(t: Tables, source: ImportSource, n: nat, clock: nat -> Moment)
    requires Invariant(t) && 0 < n <= |source.seed.profiles| && AllNumbered(source.seed.profiles)
    requires InsertProfiles(t, source, n - 1, clock).Some?
    ensures var profiles, p := source.seed.profiles, source.seed.profiles[n - 1];
            InsertProfiles(t, source, n, clock).Some? <==>
              && p.profileCode !in t.definitions && TransitionRowsFit(p.transitions)
              && !exists i :: 0 <= i < n - 1 && profiles[i].profileCode == p.profileCode
  {
    InsertedProfilesFit(t, source, n - 1, clock);
    var before, p := InsertProfiles(t, source, n - 1, clock).value, source.seed.profiles[n - 1];
    InsertProfilesStep(t, source, n, clock, before);
    InsertsIffNewAndFitting(before, p, Classification(p, source.bundled), clock(n - 1));
    InsertedCodesAreAll(t, source, n - 1, clock, p.profileCode);
  }

  lemma InsertProfilesStep(t: Tables, source: ImportSource, n: nat, clock: nat -> Moment, before: Tables)
    requires 0 < n <= |source.seed.profiles| && InsertProfiles(t, source, n - 1, clock) == Some(before)
    ensures var p := source.seed.profiles[n - 1];
            InsertProfiles(t, source, n, clock)
            == InsertProfile(before, p, Classification(p, source.bundled), clock(n - 1))
  {
  }

  lemma {:induction false} InsertsIffInsertable(t: Tables, source: ImportSource, n: nat, clock: nat -> Moment)
    requires Invariant(t) && n <= |source.seed.profiles| && AllNumbered(source.seed.profiles)
    ensures InsertProfiles(t, source, n, clock).Some? <==> Insertable(t, source.seed.profiles, n)
  {
    if n > 0 {
      InsertsIffInsertable(t, source, n - 1, clock);
      InsertableGrows(t, source.seed.profiles, n);
      if InsertProfiles(t, source, n - 1, clock).Some? {
        OneMoreInserts(t, source, n, clock);
      }
    }
  }

  ghost predicate IsSameImport(row: ImportRow, source: ImportSource) {
    row.sourcePath == source.path && row.sourceKind == source.kind && row.semanticHash == source.seed.semanticHash
  }

  lemma AllAcceptedMeansEach(profiles: seq<ProfileDefinition>)
    ensures AllAccepted(profiles) <==> forall p :: p in profiles ==> Accepted(p)
  {
    forall i | 0 <= i < |profiles| ensures profiles[i] in profiles {
    }
  }

  lemma RecordedMeansSameImport(imports: seq<ImportRow>, source: ImportSource, batchClass: BatchClass)
    ensures IsRecorded(imports, ImportRow(source.path, source.kind, source.seed.semanticHash, batchClass)) <==>
            exists row :: row in imports && IsSameImport(row, source)
  {
    if row :| row in imports && IsSameImport(row, source) {
      var i :| 0 <= i < |imports| && imports[i] == row;
    }
    forall i | 0 <= i < |imports| && IsSameImport(imports[i], source)
      ensures exists row :: row in imports && IsSameImport(row, source)
    {
      assert imports[i] in imports;
    }
  }

  /** An import goes through exactly when every profile is accepted, new, distinct and storable, the two profiles the
      type bindings need are among them, and the same import was not recorded before. */
  lemma ImportSucceedsIff(t: Tables, source: ImportSource, clock: nat -> Moment)
    requires Invariant(t)
    ensures SeedImported(t, source, clock).Ok? <==>
            && (forall p :: p in source.seed.profiles ==> Accepted(p))
            && Insertable(t, source.seed.profiles, |source.seed.profiles|)
            && HasCode(source.seed.profiles, "long_release") && HasCode(source.seed.profiles, "external_control")
            && forall row :: row in t.imports ==> !IsSameImport(row, source)
  {
    RecordedMeansSameImport(t.imports, source, BatchClassOf(source));
    AllAcceptedMeansEach(source.seed.profiles);
    if AllAccepted(source.seed.profiles) {
      AcceptedAreNumbered(source.seed.profiles);
      InsertsIffInsertable(t, source, |source.seed.profiles|, clock);
    }
  }

  /** The validator and the table differ: an accepted definition stays accepted, but no longer fits its table, with one
      more transition that is disabled and has, say, a status or role the table does not know. */
  lemma DisabledTransitionIsRefused(t: Tables, p: ProfileDefinition, extra: TransitionDefinition, kind: SourceKind,
                                    now: Moment)
    requires Accepted(p) && !extra.isEnabled && extra.transitionNo == |p.transitions| + 1 && !TransitionRowFits(extra)
    ensures var q := p.(transitions := p.transitions + [extra]);
            Accepted(q) && InsertProfile(t, q, kind, now).None?
  {
    var q := p.(transitions := p.transitions + [extra]);
    KeepConcat(p.transitions, [extra], IsEnabled());
    KeepSplits([extra], IsEnabled());
    assert Enabled(q) == Enabled(p) + [] == Enabled(p);
    assert q.transitions[|p.transitions|] == extra;
  }

  /** A report row of this status for this code. */
  ghost predicate Reports(report: seq<ReportRow>, code: string, status: ReportStatus) {
    exists i :: 0 <= i < |report| && report[i].profileCode == code && report[i].status == status
  }

  lemma ReportShape(source: ImportSource, code: string)
    ensures var report := Closed(ReportRows(source), true);
            && (Reports(report, code, ImportedRow) <==> HasCode(source.seed.profiles, code))
            && (Reports(report, code, SkippedPackageOnly) ==> !HasCode(source.seed.profiles, code))
  {
    var profiles, rows, report := source.seed.profiles, ReportRows(source), Closed(ReportRows(source), true);
    PackageOnlyIsElsewhere(source.bundled, profiles);
    forall i | 0 <= i < |profiles| ensures report[i] == PendingRow(source, i).(status := ImportedRow) {
      assert rows[i] == PendingRow(source, i);
    }
    forall i | |profiles| <= i < |report|
      ensures report[i].status == SkippedPackageOnly && !HasCode(profiles, report[i].profileCode)
    {
      assert rows[i] == PackageOnly(source.bundled, profiles)[i - |profiles|];
    }
    if HasCode(profiles, code) {
      var i :| 0 <= i < |profiles| && profiles[i].profileCode == code;
      assert report[i].profileCode == code;
    }
  }

  lemma ImportDefines(t: Tables, source: ImportSource, clock: nat -> Moment, code: string)
    requires Invariant(t) && SeedImported(t, source, clock).Ok?
    ensures var after := SeedImported(t, source, clock).value;
            && (code in after.definitions <==> code in t.definitions || HasCode(source.seed.profiles, code))
            && (HasCode(source.seed.profiles, code) ==> code !in t.definitions)
  {
    ImportSucceedsIff(t, source, clock);
    InsertedCodesAreAll(t, source, |source.seed.profiles|, clock, code);
  }

  /** The report is true: it says imported exactly for the codes newly defined, and skipped only for untouched ones. */
  lemma ReportIsTrue(t: Tables, source: ImportSource, clock: nat -> Moment, code: string)
    requires Invariant(t) && SeedImported(t, source, clock).Ok?
    ensures var after, report := SeedImported(t, source, clock).value, Closed(ReportRows(source), true);
            && (Reports(report, code, ImportedRow) <==> code in after.definitions && code !in t.definitions)
            && (Reports(report, code, SkippedPackageOnly) ==> (code in after.definitions <==> code in t.definitions))
  {
    ReportShape(source, code);
    ImportDefines(t, source, clock, code);
  }

  lemma {:induction false} PackageOnlyIsElsewhere(bundled: seq<ProfileDefinition>, profiles: seq<ProfileDefinition>)
    ensures forall i :: 0 <= i < |PackageOnly(bundled, profiles)| ==>
              var row := PackageOnly(bundled, profiles)[i];
              row.status == SkippedPackageOnly && !HasCode(profiles, row.profileCode)
              && HasCode(bundled, row.profileCode)
  {
    if bundled != [] {
      var front := bundled[..|bundled| - 1];
      PackageOnlyIsElsewhere(front, profiles);
      forall code | HasCode(front, code) ensures HasCode(bundled, code) {
        var i :| 0 <= i < |front| && front[i].profileCode == code;
        assert bundled[i] == front[i];
      }
    }
  }

  // --- Reading back the last created payload ---

  lemma {:induction false} NewestIsHighest(rows: seq<VersionRow>)
    requires rows != []
    ensures Newest(rows).Some? && Newest(rows).value in rows
    ensures forall r :: r in rows ==> r.versionNo <= Newest(rows).value.versionNo
  {
    var front := rows[..|rows| - 1];
    if front != [] {
      NewestIsHighest(front);
    }
    assert rows == front + [rows[|rows| - 1]];
  }

  /** What a profile's last version was created from. */
  ghost function LastPayload(t: Tables, code: string): ProfileDefinition
    requires Invariant(t) && code in t.definitions
  {
    LastRow(t, code).hash
  }

  ghost function LastRow(t: Tables, code: string): (row: VersionRow)
    requires Invariant(t) && code in t.definitions
    ensures row.profileCode == code && row in t.versions
  {
    assert CodeFits(t, code);
    var rows := RowsOf(t.versions, code);
    KeepMembers(t.versions, OfCode(code), rows[|rows| - 1]);
    rows[|rows| - 1]
  }

  lemma RowIn(t: Tables, code: string, row: VersionRow)
    requires Invariant(t) && row in RowsOf(t.versions, code)
    ensures row in t.versions && row.profileCode == code && RowFits(t, row)
  {
    KeepMembers(t.versions, OfCode(code), row);
    var i :| 0 <= i < |t.versions| && t.versions[i] == row;
    assert RowFits(t, t.versions[i]);
  }

  lemma SameHashSameRow(t: Tables, a: VersionRow, b: VersionRow)
    requires Invariant(t) && a in t.versions && b in t.versions && a.profileCode == b.profileCode && a.hash == b.hash
    ensures a == b
  {
    var i :| 0 <= i < |t.versions| && t.versions[i] == a;
    var j :| 0 <= j < |t.versions| && t.versions[j] == b;
  }

  /** An active profile reads back its last created payload exactly when that version is effective by then. */
  lemma ReadsBackLastPayload(t: Tables, code: string, now: Moment)
    requires Invariant(t) && code in t.definitions
    ensures ActiveDefinition(t, code, now) == Some(LastPayload(t, code)) <==>
            t.definitions[code].isActive && Text.AtMost(LastRow(t, code).effectiveFrom, now)
  {
    var rows, last := RowsOf(t.versions, code), LastRow(t, code);
    assert CodeFits(t, code);
    var effective := Keep(rows, EffectiveBy(now));
    KeepMembers(rows, EffectiveBy(now), last);
    if effective != [] {
      NewestIsHighest(effective);
      var best := Newest(effective).value;
      KeepMembers(rows, EffectiveBy(now), best);
      RowIn(t, code, best);
      if last in effective {
        HighestIsLast(rows, best);
      } else if best.hash == last.hash {
        SameHashSameRow(t, best, last);
      }
    }
  }

  lemma HighestIsLast(rows: seq<VersionRow>, best: VersionRow)
    requires rows != [] && Numbered(rows) && best in rows && rows[|rows| - 1].versionNo <= best.versionNo
    ensures best == rows[|rows| - 1]
  {
    var i :| 0 <= i < |rows| && rows[i] == best;
  }

  /** Every stamp an operation leaves is at most this moment, as a clock that never runs backwards gives it. */
  ghost predicate StampedBy(op: Operation, now: Moment) {
    match op
    case OpCreate(_, _, _, at) => Text.AtMost(at, now)
    case OpRevise(_, _, _, at) => Text.AtMost(at, now)
    case OpImport(_, clock) => forall i :: Text.AtMost(clock(i), now)
    case _ => true
  }

  ghost predicate EffectiveRows(t: Tables, now: Moment) {
    forall i :: 0 <= i < |t.versions| ==> Text.AtMost(t.versions[i].effectiveFrom, now)
  }

  lemma {:induction false} InsertedProfilesAreEffective(t: Tables, source: ImportSource, n: nat,
                                                        clock: nat -> Moment, now: Moment)
    requires n <= |source.seed.profiles| && InsertProfiles(t, source, n, clock).Some?
    requires EffectiveRows(t, now) && forall i :: Text.AtMost(clock(i), now)
    ensures EffectiveRows(InsertProfiles(t, source, n, clock).value, now)
  {
    if n > 0 {
      InsertedProfilesAreEffective(t, source, n - 1, clock, now);
    }
  }

  lemma PerformedIsEffective(t: Tables, op: Operation, now: Moment)
    requires EffectiveRows(t, now) && StampedBy(op, now)
    ensures EffectiveRows(Perform(t, op), now)
  {
    if op.OpImport? && Attempt(t, op).Ok? {
      InsertedProfilesAreEffective(t, op.source, |op.source.seed.profiles|, op.clock, now);
    }
  }

  lemma {:induction false} RunIsEffective(t: Tables, ops: seq<Operation>, now: Moment)
    requires EffectiveRows(t, now) && forall i :: 0 <= i < |ops| ==> StampedBy(ops[i], now)
    ensures EffectiveRows(Run(t, ops), now)
    decreases |ops|
  {
    if ops != [] {
      RunIsEffective(t, ops[..|ops| - 1], now);
      PerformedIsEffective(Run(t, ops[..|ops| - 1]), ops[|ops| - 1], now);
    }
  }

  /** With a clock that never runs backwards, after any run every active profile reads back its last created payload. */
  lemma ActiveProfilesReadBack(ops: seq<Operation>, code: string, now: Moment)
    requires forall i :: 0 <= i < |ops| ==> StampedBy(ops[i], now)
    ensures var t := Run(Tables(map[], [], map[], []), ops);
            && Invariant(t)
            && (code in t.definitions && t.definitions[code].isActive ==>
                  ActiveDefinition(t, code, now) == Some(LastPayload(t, code)))
  {
    var empty := Tables(map[], [], map[], []);
    RunKeepsInvariant(empty, ops);
    RunIsEffective(empty, ops, now);
    var t := Run(empty, ops);
    if code in t.definitions {
      ReadsBackLastPayload(t, code, now);
    }
  }

  // --- What the writes store, field by field ---

  /** Apart from one profile's own row and what is added behind the versions, nothing changes. */
  ghost predicate OnlyProfile(before: Tables, after: Tables, code: string) {
    && after.definitions.Keys == before.definitions.Keys + {code}
    && (forall c :: c in before.definitions && c != code ==> after.definitions[c] == before.definitions[c])
    && before.versions <= after.versions && after.bindings == before.bindings && after.imports == before.imports
  }

  /** A version row that says what the payload says, under its number, kind and time. */
  ghost predicate SaysAll(row: VersionRow, p: ProfileDefinition, no: int, kind: SourceKind, at: Moment) {
    && row.profileCode == p.profileCode && row.versionNo == no && row.sourceKind == kind && row.effectiveFrom == at
    && row.hash == p && row.releaseEvidenceMode == p.releaseEvidenceMode && row.transitions == p.transitions
    && row.requiresEditors == p.requiresEditors && row.requiresReviewers == p.requiresReviewers
    && row.requiresApprovers == p.requiresApprovers && row.allowsContentChanges == p.allowsContentChanges
  }

  /** One version more, that says what the payload says. */
  ghost predicate AddsRow(before: Tables, after: Tables, p: ProfileDefinition, no: int, kind: SourceKind, at: Moment) {
    |after.versions| == |before.versions| + 1 && SaysAll(after.versions[|before.versions|], p, no, kind, at)
  }

  /** What the transition table takes: the four storage statuses, its roles and policies, positive numbers. */
  ghost predicate TableTakes(t: TransitionDefinition) {
    && t.transitionNo >= 1
    && t.fromStatus in {Known(Draft), Known(InReview), Known(InApproval), Known(Approved)}
    && t.toStatus in {Known(Draft), Known(InReview), Known(InApproval), Known(Approved)}
    && t.requiredRole in {Editor, Reviewer, Approver, QmbRole, NoRole}
    && t.decisionPolicy in {OneOfPool, AllAssigned, NoPolicy}
    && (t.deadlineSeconds == None || t.deadlineSeconds.value >= 1)
  }

  /** Each transition is one the table takes, and no two have the same number or join the same statuses. */
  ghost predicate TableTakesAll(ts: seq<TransitionDefinition>) {
    && (forall t :: t in ts ==> TableTakes(t))
    && (forall i, j :: 0 <= i < |ts| && 0 <= j < |ts| && i != j ==>
          ts[i].transitionNo != ts[j].transitionNo
          && !(ts[i].fromStatus == ts[j].fromStatus && ts[i].toStatus == ts[j].toStatus))
  }

  lemma RowsFitIffTaken(ts: seq<TransitionDefinition>)
    ensures TransitionRowsFit(ts) <==> TableTakesAll(ts)
  {
    forall i | 0 <= i < |ts| ensures TransitionRowFits(ts[i]) <==> TableTakes(ts[i]) {
      RowFitsIffTaken(ts[i]);
    }
    if TransitionRowsFit(ts) {
      forall i, j | 0 <= i < |ts| && 0 <= j < |ts| && i != j
        ensures ts[i].transitionNo != ts[j].transitionNo
        ensures !(ts[i].fromStatus == ts[j].fromStatus && ts[i].toStatus == ts[j].toStatus)
      {
        assert i < j || j < i;
      }
    }
  }

  lemma RowFitsIffTaken(t: TransitionDefinition)
    ensures TransitionRowFits(t) <==> TableTakes(t)
  {
  }

  /** A code that is new is created active with one version, under the payload's label and class. */
  lemma CreationByFields(t: Tables, payload: ProfileDefinition, kind: SourceKind, actor: string, now: Moment)
    requires Invariant(t)
    ensures var r, code := Created(t, payload, kind, actor, now), payload.profileCode;
            && (r == Err(InvalidPayload) <==> !Accepted(payload) || Text.Strip(actor) == "")
            && (r == Err(AlreadyExists) <==> Accepted(payload) && Text.Strip(actor) != "" && code in t.definitions)
            && (r.Ok? <==> && Accepted(payload) && Text.Strip(actor) != "" && code !in t.definitions
                           && kind in {Seed, Migrated, SourceKind.Admin} && TableTakesAll(payload.transitions))
            && (r.Ok? ==> CreatedByFields(t, r.value, payload, kind, now))
  {
    RowsFitIffTaken(payload.transitions);
    if payload.profileCode !in t.definitions {
      NewCodeHasNoVersions(t, payload);
      if InsertProfile(t, payload, kind, now).Some? {
        InsertedByFields(t, payload, kind, now);
      }
    }
  }

  ghost predicate CreatedByFields(before: Tables, after: Tables, p: ProfileDefinition, kind: SourceKind, now: Moment) {
    && OnlyProfile(before, after, p.profileCode) && AddsRow(before, after, p, 1, kind, now)
    && after.definitions[p.profileCode] == DefinitionRow(p.profileLabel, p.controlClass, true, Some(1))
  }

  lemma InsertedByFields(t: Tables, payload: ProfileDefinition, kind: SourceKind, now: Moment)
    requires InsertProfile(t, payload, kind, now).Some?
    ensures CreatedByFields(t, InsertProfile(t, payload, kind, now).value, payload, kind, now)
  {
  }

  /** The numbers a code has used so far, each once, are those up to the last. */
  ghost predicate LastNumber(t: Tables, code: string, n: int) {
    && (forall i :: 0 <= i < |t.versions| && t.versions[i].profileCode == code ==> t.versions[i].versionNo <= n)
    && (exists i :: 0 <= i < |t.versions| && t.versions[i].profileCode == code && t.versions[i].versionNo == n)
  }

  lemma MaxIsLastNumber(t: Tables, code: string)
    requires Invariant(t) && code in t.definitions
    ensures LastNumber(t, code, MaxVersion(RowsOf(t.versions, code))) && MaxVersion(RowsOf(t.versions, code)) >= 1
    ensures !HasVersion(t.versions, code, MaxVersion(RowsOf(t.versions, code)) + 1)
  {
    var rows, last := RowsOf(t.versions, code), LastRow(t, code);
    assert CodeFits(t, code);
    NumberedMax(rows);
    forall i | 0 <= i < |t.versions| && t.versions[i].profileCode == code ensures t.versions[i].versionNo <= |rows| {
      KeepMembers(t.versions, OfCode(code), t.versions[i]);
      var k :| 0 <= k < |rows| && rows[k] == t.versions[i];
    }
    LastRowIsLast(t, code);
    var at :| 0 <= at < |t.versions| && t.versions[at] == last;
  }

  lemma LastRowIsLast(t: Tables, code: string)
    requires Invariant(t) && code in t.definitions
    ensures LastRow(t, code).versionNo == |RowsOf(t.versions, code)|
  {
    assert CodeFits(t, code);
  }

  /** No stored version of the code was made from this payload. */
  ghost predicate IsNewPayload(t: Tables, p: ProfileDefinition) {
    forall i :: 0 <= i < |t.versions| ==> !(t.versions[i].profileCode == p.profileCode && t.versions[i].hash == p)
  }

  /** When a next version is stored, and what it is refused for otherwise. */
  lemma RevisionSucceedsIff(t: Tables, payload: ProfileDefinition, kind: SourceKind, actor: string, now: Moment)
    requires Invariant(t) && Accepted(payload) && Text.Strip(actor) != ""
    ensures var r, code := Revised(t, payload, kind, actor, now), payload.profileCode;
            && (r == Err(NotFound) <==> code !in t.definitions)
            && (code in t.definitions ==>
                  var name, held := t.definitions[code].profileLabel, t.definitions[code].controlClass;
                  && (r == Err(LabelImmutable) <==> name != payload.profileLabel)
                  && (r == Err(ControlClassImmutable) <==>
                        name == payload.profileLabel && held != payload.controlClass)
                  && (r.Ok? <==> && name == payload.profileLabel && held == payload.controlClass
                                 && IsNewPayload(t, payload) && kind in {Seed, Migrated, SourceKind.Admin}
                                 && TableTakesAll(payload.transitions)))
  {
    RowsFitIffTaken(payload.transitions);
    NewPayloadHasNoHash(t, payload);
    if payload.profileCode in t.definitions {
      MaxIsLastNumber(t, payload.profileCode);
    }
  }

  lemma NewPayloadHasNoHash(t: Tables, p: ProfileDefinition)
    ensures IsNewPayload(t, p) <==> !HasHash(t.versions, p)
  {
  }

  /** The next version of a code keeps label, class and flag, takes the next number and makes it the active one. */
  lemma RevisionByFields(t: Tables, payload: ProfileDefinition, kind: SourceKind, actor: string, now: Moment)
    requires Invariant(t) && Revised(t, payload, kind, actor, now).Ok?
    ensures RevisedByFields(t, Revised(t, payload, kind, actor, now).value, payload, kind, now)
  {
    var n := MaxVersion(RowsOf(t.versions, payload.profileCode));
    MaxIsLastNumber(t, payload.profileCode);
    var behind := RevisedBehind(t, payload, kind, actor, now, n);
    NextNumberByFields(t, behind, n, payload, kind, now);
  }

  lemma RevisedBehind(t: Tables, payload: ProfileDefinition, kind: SourceKind, actor: string, now: Moment, n: int)
    returns (behind: Tables)
    requires Revised(t, payload, kind, actor, now).Ok? && n == MaxVersion(RowsOf(t.versions, payload.profileCode))
    ensures behind == t.(versions := t.versions + [RowFor(payload, n + 1, kind, now)])
    ensures payload.profileCode in t.definitions
    ensures Revised(t, payload, kind, actor, now).value == WithActiveVersion(behind, payload.profileCode, n + 1)
  {
    behind := t.(versions := t.versions + [RowFor(payload, n + 1, kind, now)]);
  }

  lemma NextNumberByFields(t: Tables, behind: Tables, n: int, p: ProfileDefinition, kind: SourceKind, now: Moment)
    requires p.profileCode in t.definitions && LastNumber(t, p.profileCode, n)
    requires behind == t.(versions := t.versions + [RowFor(p, n + 1, kind, now)])
    ensures RevisedByFields(t, WithActiveVersion(behind, p.profileCode, n + 1), p, kind, now)
  {
    assert AddsRow(t, WithActiveVersion(behind, p.profileCode, n + 1), p, n + 1, kind, now);
  }

  ghost predicate RevisedByFields(before: Tables, after: Tables, p: ProfileDefinition, kind: SourceKind, now: Moment) {
    && p.profileCode in before.definitions && OnlyProfile(before, after, p.profileCode)
    && (exists n :: LastNumber(before, p.profileCode, n) && AddsRow(before, after, p, n + 1, kind, now)
                    && after.definitions[p.profileCode].activeVersion == Some(n + 1))
    && after.definitions[p.profileCode].profileLabel == before.definitions[p.profileCode].profileLabel
    && after.definitions[p.profileCode].controlClass == before.definitions[p.profileCode].controlClass
    && after.definitions[p.profileCode].isActive == before.definitions[p.profileCode].isActive
  }

  lemma BadRevisionIsRefused(t: Tables, payload: ProfileDefinition, kind: SourceKind, actor: string, now: Moment)
    ensures Revised(t, payload, kind, actor, now) == Err(InvalidPayload) <==>
            !Accepted(payload) || Text.Strip(actor) == ""
  {
  }

  /** Setting the flag: refused for a blank actor or an unknown code; otherwise nothing but the flag changes. */
  lemma FlagByFields(t: Tables, code: string, isActive: bool, actor: string)
    ensures var r := Activated(t, code, isActive, actor);
            if Text.Strip(actor) == "" then r == Err(InvalidPayload)
            else if code !in t.definitions then r == Err(NotFound)
            else
              && r.Ok? && OnlyProfile(t, r.value, code) && r.value.versions == t.versions
              && r.value.definitions[code].isActive == isActive
              && r.value.definitions[code].(isActive := t.definitions[code].isActive) == t.definitions[code]
  {
  }

  /** Over every run a definition's flag is the one last asked for. */
  lemma {:induction false} LastFlagHolds(t: Tables, ops: seq<Operation>, k: nat)
    requires k < |ops| && ops[k].OpActivate? && Attempt(Run(t, ops[..k]), ops[k]).Ok?
    requires forall i :: k < i < |ops| && ops[i].OpActivate? ==> ops[i].code != ops[k].code
    ensures var after, code := Run(t, ops), ops[k].code;
            code in after.definitions && after.definitions[code].isActive == ops[k].isActive
    decreases |ops|
  {
    var front := ops[..|ops| - 1];
    if k < |ops| - 1 {
      assert front[..k] == ops[..k];
      LastFlagHolds(t, front, k);
      OtherOpsKeepFlag(Run(t, front), ops[|ops| - 1], ops[k].code);
    } else {
      assert front == ops[..k];
    }
  }

  lemma OtherOpsKeepFlag(t: Tables, op: Operation, code: string)
    requires code in t.definitions && (op.OpActivate? ==> op.code != code)
    ensures code in Perform(t, op).definitions
            && Perform(t, op).definitions[code].isActive == t.definitions[code].isActive
  {
    if op.OpImport? && Attempt(t, op).Ok? {
      InsertingKeepsDefinitions(t, op.source, |op.source.seed.profiles|, op.clock, code);
    }
  }

  lemma {:induction false} InsertingKeepsDefinitions(t: Tables, source: ImportSource, n: nat, clock: nat -> Moment,
                                                     code: string)
    requires n <= |source.seed.profiles| && InsertProfiles(t, source, n, clock).Some? && code in t.definitions
    ensures var after := InsertProfiles(t, source, n, clock).value;
            code in after.definitions && after.definitions[code] == t.definitions[code]
  {
    if n > 0 {
      InsertingKeepsDefinitions(t, source, n - 1, clock, code);
    }
  }

  /** Binding: refused for a blank actor or a code that is not active; otherwise only the type's row changes. */
  lemma BindingByFields(t: Tables, docType: DocumentType, code: string, actor: string, allowsOverride: Option<bool>)
    ensures var r := Bound(t, docType, code, actor, allowsOverride);
            && (r == Err(InvalidPayload) <==> Text.Strip(actor) == "")
            && (r == Err(NotFound) <==>
                  Text.Strip(actor) != "" && !(code in t.definitions && t.definitions[code].isActive))
            && (r.Ok? <==> Text.Strip(actor) != "" && code in t.definitions && t.definitions[code].isActive)
            && (r.Ok? ==> && r.value.definitions == t.definitions && r.value.versions == t.versions
                          && r.value.imports == t.imports && BindsOne(t, r.value, docType)
                          && IsBoundTo(t, r.value, docType, code, allowsOverride))
  {
  }

  ghost predicate BindsOne(before: Tables, after: Tables, docType: DocumentType) {
    && after.bindings.Keys == before.bindings.Keys + {docType}
    && (forall d :: d in before.bindings && d != docType ==> after.bindings[d] == before.bindings[d])
  }

  /** Bound to the code with its class; what is not asked about overriding stays as it was, or is off. */
  ghost predicate IsBoundTo(before: Tables, after: Tables, docType: DocumentType, code: string, asked: Option<bool>) {
    && docType in after.bindings && code in before.definitions
    && after.bindings[docType].profileCode == code
    && after.bindings[docType].controlClass == before.definitions[code].controlClass
    && (asked.Some? ==> after.bindings[docType].allowsOverride == asked.value)
    && (asked.None? && docType in before.bindings ==>
          after.bindings[docType].allowsOverride == before.bindings[docType].allowsOverride)
    && (asked.None? && docType !in before.bindings ==> !after.bindings[docType].allowsOverride)
  }

  /** Over every run a type stays bound as it was last asked for; imports only add bindings that are missing. */
  lemma {:induction false} LastBindingHolds(t: Tables, ops: seq<Operation>, k: nat)
    requires k < |ops| && ops[k].OpBind? && Attempt(Run(t, ops[..k]), ops[k]).Ok?
    requires forall i :: k < i < |ops| && ops[i].OpBind? ==> ops[i].docType != ops[k].docType
    ensures IsBoundTo(Run(t, ops[..k]), Run(t, ops), ops[k].docType, ops[k].code, ops[k].allowsOverride)
    decreases |ops|
  {
    var front, op := ops[..|ops| - 1], ops[k];
    if k < |ops| - 1 {
      assert front[..k] == ops[..k];
      LastBindingHolds(t, front, k);
      OtherOpsKeepBinding(Run(t, front), ops[|ops| - 1], op.docType);
    } else {
      assert front == ops[..k];
      BindingByFields(Run(t, front), op.docType, op.code, op.actor, op.allowsOverride);
    }
  }

  lemma OtherOpsKeepBinding(t: Tables, op: Operation, docType: DocumentType)
    requires docType in t.bindings && (op.OpBind? ==> op.docType != docType)
    ensures docType in Perform(t, op).bindings && Perform(t, op).bindings[docType] == t.bindings[docType]
  {
    if op.OpImport? && Attempt(t, op).Ok? {
      ImportsUntouched(t, op.source, |op.source.seed.profiles|, op.clock);
    }
  }

  // --- What an import stores ---

  /** The profile is word for word the last one of its code in the package. */
  ghost predicate IsBundled(p: ProfileDefinition, bundled: seq<ProfileDefinition>) {
    exists i :: 0 <= i < |bundled| && bundled[i] == p
                && forall k :: i < k < |bundled| ==> bundled[k].profileCode != p.profileCode
  }

  lemma ClassifiedAsBundled(p: ProfileDefinition, bundled: seq<ProfileDefinition>)
    ensures Classification(p, bundled) == if IsBundled(p, bundled) then Seed else Migrated
  {
    LastIsLast(bundled, p.profileCode);
    var last := LastByCode(bundled, p.profileCode);
    if IsBundled(p, bundled) {
      var i :| 0 <= i < |bundled| && bundled[i] == p
               && forall k :: i < k < |bundled| ==> bundled[k].profileCode != p.profileCode;
      assert last.Some?;
    }
  }

  lemma {:induction false} LastIsLast(bundled: seq<ProfileDefinition>, code: string)
    ensures match LastByCode(bundled, code)
            case None => forall i :: 0 <= i < |bundled| ==> bundled[i].profileCode != code
            case Some(p) => exists i :: 0 <= i < |bundled| && bundled[i] == p && p.profileCode == code
                                        && forall k :: i < k < |bundled| ==> bundled[k].profileCode != code
  {
    if bundled != [] && bundled[|bundled| - 1].profileCode != code {
      LastIsLast(bundled[..|bundled| - 1], code);
    }
  }

  /** The profile's row in the definitions, and its version at its place. */
  ghost predicate IsImported(after: Tables, p: ProfileDefinition, row: VersionRow, bundled: seq<ProfileDefinition>,
                             at: Moment) {
    && p.profileCode in after.definitions
    && after.definitions[p.profileCode] == DefinitionRow(p.profileLabel, p.controlClass, true, Some(1))
    && SaysAll(row, p, 1, if IsBundled(p, bundled) then Seed else Migrated, at)
  }

  ghost predicate ImportedSoFar(t: Tables, after: Tables, source: ImportSource, n: nat, clock: nat -> Moment)
    requires n <= |source.seed.profiles|
  {
    && |after.versions| == |t.versions| + n && t.versions <= after.versions
    && (forall i :: 0 <= i < n ==>
          IsImported(after, source.seed.profiles[i], after.versions[|t.versions| + i], source.bundled, clock(i)))
  }

  lemma {:induction false} InsertedAreImported(t: Tables, source: ImportSource, n: nat, clock: nat -> Moment)
    requires n <= |source.seed.profiles| && InsertProfiles(t, source, n, clock).Some?
    ensures ImportedSoFar(t, InsertProfiles(t, source, n, clock).value, source, n, clock)
  {
    if n > 0 {
      var before := InsertProfiles(t, source, n - 1, clock).value;
      InsertedAreImported(t, source, n - 1, clock);
      ClassifiedAsBundled(source.seed.profiles[n - 1], source.bundled);
      OneMoreImported(t, before, source, n, clock);
    }
  }

  lemma OneMoreImported(t: Tables, before: Tables, source: ImportSource, n: nat, clock: nat -> Moment)
    requires 0 < n <= |source.seed.profiles| && ImportedSoFar(t, before, source, n - 1, clock)
    requires var p := source.seed.profiles[n - 1];
             && Classification(p, source.bundled) == (if IsBundled(p, source.bundled) then Seed else Migrated)
             && InsertProfile(before, p, Classification(p, source.bundled), clock(n - 1)).Some?
    ensures var p := source.seed.profiles[n - 1];
            ImportedSoFar(t, InsertProfile(before, p, Classification(p, source.bundled), clock(n - 1)).value, source, n,
                          clock)
  {
    var p := source.seed.profiles[n - 1];
    var kind := Classification(p, source.bundled);
    var after := InsertProfile(before, p, kind, clock(n - 1)).value;
    var row := RowFor(p, 1, kind, clock(n - 1));
    assert after.versions == before.versions + [row] && p.profileCode !in before.definitions;
    forall i | 0 <= i < n
      ensures IsImported(after, source.seed.profiles[i], after.versions[|t.versions| + i], source.bundled, clock(i))
    {
      if i < n - 1 {
        assert IsImported(before, source.seed.profiles[i], before.versions[|t.versions| + i], source.bundled, clock(i));
      }
    }
  }

  /** Types bound before stay as they are; the others get the package's profile for their type. */
  ghost predicate BindingsFilled(before: Tables, after: Tables) {
    forall d: DocumentType ::
      && d in after.bindings
      && after.bindings[d] == if d in before.bindings then before.bindings[d]
                              else if d == EXT then Binding(External, "external_control", false)
                              else Binding(Controlled, "long_release", d == OTHER)
  }

  /** The kinds of all profiles of the import. */
  ghost predicate IsClassOf(kind: BatchClass, profiles: seq<ProfileDefinition>, bundled: seq<ProfileDefinition>) {
    && (kind == AllSeed <==> profiles != [] && forall p :: p in profiles ==> IsBundled(p, bundled))
    && (kind == AllMigrated <==> profiles != [] && forall p :: p in profiles ==> !IsBundled(p, bundled))
  }

  lemma BatchClassIsOfAll(source: ImportSource)
    ensures IsClassOf(BatchClassOf(source), source.seed.profiles, source.bundled)
  {
    var profiles, bundled := source.seed.profiles, source.bundled;
    forall i | 0 <= i < |profiles|
      ensures Classification(profiles[i], bundled) == if IsBundled(profiles[i], bundled) then Seed else Migrated
    {
      ClassifiedAsBundled(profiles[i], bundled);
    }
    forall p | p in profiles ensures Classification(p, bundled) == if IsBundled(p, bundled) then Seed else Migrated {
      ClassifiedAsBundled(p, bundled);
    }
    if profiles != [] {
      assert profiles[0] in profiles;
    }
  }

  /** What a successful import leaves: every profile defined, active, with its first version behind the old ones; what
      was defined and bound before as it was; the missing bindings; and one import row. */
  lemma ImportByFields(t: Tables, source: ImportSource, clock: nat -> Moment)
    requires SeedImported(t, source, clock).Ok?
    ensures var after, profiles := SeedImported(t, source, clock).value, source.seed.profiles;
            && ImportedSoFar(t, after, source, |profiles|, clock) && OnlyImported(t, after, profiles)
            && BindingsFilled(t, after) && AddsImport(t, after, source)
  {
    var n, after := |source.seed.profiles|, SeedImported(t, source, clock).value;
    var filled := InsertProfiles(t, source, n, clock).value;
    assert after == WithBindings(filled).(imports := after.imports);
    InsertedAreImported(t, source, n, clock);
    SameRowsSameImport(t, filled, after, source, clock);
    OnlyProfilesInserted(t, source, clock);
    ImportsUntouched(t, source, n, clock);
    FilledBindings(filled);
    ImportIsAdded(t, source, clock);
  }

  /** Definitions stored before stay as they are, and no others come in than those of the profiles. */
  ghost predicate OnlyImported(before: Tables, after: Tables, profiles: seq<ProfileDefinition>) {
    && (forall c :: c in before.definitions ==>
          c in after.definitions && after.definitions[c] == before.definitions[c])
    && (forall c :: c in after.definitions ==> c in before.definitions || HasCode(profiles, c))
  }

  lemma OnlyProfilesInserted(t: Tables, source: ImportSource, clock: nat -> Moment)
    requires InsertProfiles(t, source, |source.seed.profiles|, clock).Some?
    ensures OnlyImported(t, InsertProfiles(t, source, |source.seed.profiles|, clock).value, source.seed.profiles)
  {
    var n := |source.seed.profiles|;
    var filled := InsertProfiles(t, source, n, clock).value;
    forall c | c in t.definitions ensures c in filled.definitions && filled.definitions[c] == t.definitions[c] {
      InsertingKeepsDefinitions(t, source, n, clock, c);
    }
    forall c | c in filled.definitions ensures c in t.definitions || HasCode(source.seed.profiles, c) {
      InsertedCodesAreAll(t, source, n, clock, c);
    }
  }

  /** One import row more, for the source's path, kind and content, with the kinds of all its profiles. */
  ghost predicate AddsImport(before: Tables, after: Tables, source: ImportSource) {
    && |after.imports| == |before.imports| + 1 && before.imports <= after.imports
    && var row := after.imports[|before.imports|];
       && row.sourcePath == source.path && row.sourceKind == source.kind
       && row.semanticHash == source.seed.semanticHash
       && IsClassOf(row.batchClass, source.seed.profiles, source.bundled)
  }

  lemma ImportIsAdded(t: Tables, source: ImportSource, clock: nat -> Moment)
    requires Imported(t, source, clock).Some?
    ensures AddsImport(t, Imported(t, source, clock).value, source)
  {
    ImportsUntouched(t, source, |source.seed.profiles|, clock);
    BatchClassIsOfAll(source);
  }

  lemma FilledBindings(t: Tables)
    ensures BindingsFilled(t, WithBindings(t))
  {
    var after := WithBindings(t).bindings;
    forall d: DocumentType ensures d in after {
      assert d.VA? || d.AA? || d.FB? || d.LS? || d.EXT? || d.OTHER?;
    }
  }

  lemma SameRowsSameImport(t: Tables, a: Tables, b: Tables, source: ImportSource, clock: nat -> Moment)
    requires ImportedSoFar(t, a, source, |source.seed.profiles|, clock)
    requires a.definitions == b.definitions && a.versions == b.versions
    ensures ImportedSoFar(t, b, source, |source.seed.profiles|, clock)
  {
    forall i | 0 <= i < |source.seed.profiles|
      ensures IsImported(b, source.seed.profiles[i], b.versions[|t.versions| + i], source.bundled, clock(i))
    {
      assert IsImported(a, source.seed.profiles[i], a.versions[|t.versions| + i], source.bundled, clock(i));
    }
  }

  // --- What an import reports ---

  ghost predicate ReportsSkipped(report: seq<ReportRow>, n: nat, code: string) {
    exists i :: n <= i < |report| && report[i].profileCode == code
  }

  /** A row for each profile in order, then one for each code only the package has if a legacy file is migrated:
      imported and skipped after a success, all blocked after a failure. */
  lemma ReportByFields(source: ImportSource, imported: bool)
    ensures var profiles, report := source.seed.profiles, Closed(ReportRows(source), imported);
            && |report| >= |profiles|
            && (forall i :: 0 <= i < |profiles| ==>
                  && report[i].profileCode == profiles[i].profileCode
                  && report[i].classification == (if IsBundled(profiles[i], source.bundled) then Seed else Migrated)
                  && report[i].status == if imported then ImportedRow else Blocked)
            && (forall i :: |profiles| <= i < |report| ==>
                  && report[i].classification == Seed
                  && report[i].status == if imported then SkippedPackageOnly else Blocked)
            && (forall code :: ReportsSkipped(report, |profiles|, code) <==>
                  source.legacy && HasCode(source.bundled, code) && !HasCode(profiles, code))
  {
    var profiles, bundled := source.seed.profiles, source.bundled;
    var rows, report := ReportRows(source), Closed(ReportRows(source), imported);
    forall i | 0 <= i < |profiles| ensures report[i] == ClosedRow(PendingRow(source, i), imported) {
      assert rows[i] == PendingRow(source, i);
    }
    forall i | 0 <= i < |profiles|
      ensures report[i].classification == (if IsBundled(profiles[i], bundled) then Seed else Migrated)
    {
      ClassifiedAsBundled(profiles[i], bundled);
    }
    var rest := if source.legacy then PackageOnly(bundled, profiles) else [];
    forall i | |profiles| <= i < |report| ensures report[i] == ClosedRow(rest[i - |profiles|], imported) {
      assert rows[i] == rest[i - |profiles|];
    }
    PackageOnlyIsElsewhere(bundled, profiles);
    PackageOnlyIsSeed(bundled, profiles);
    forall code ensures ReportsSkipped(report, |profiles|, code) <==>
        source.legacy && HasCode(bundled, code) && !HasCode(profiles, code) {
      if source.legacy && HasCode(bundled, code) && !HasCode(profiles, code) {
        var k := PackageOnlyHasAll(bundled, profiles, code);
        assert report[|profiles| + k].profileCode == code;
      }
    }
  }

  lemma {:induction false} PackageOnlyIsSeed(bundled: seq<ProfileDefinition>, profiles: seq<ProfileDefinition>)
    ensures forall row :: row in PackageOnly(bundled, profiles) ==> row.classification == Seed
  {
    if bundled != [] {
      PackageOnlyIsSeed(bundled[..|bundled| - 1], profiles);
    }
  }

  lemma {:induction false} PackageOnlyHasAll(bundled: seq<ProfileDefinition>, profiles: seq<ProfileDefinition>,
                                             code: string) returns (k: nat)
    requires HasCode(bundled, code) && !HasCode(profiles, code)
    ensures k < |PackageOnly(bundled, profiles)| && PackageOnly(bundled, profiles)[k].profileCode == code
  {
    var front := bundled[..|bundled| - 1];
    if HasCode(front, code) {
      k := PackageOnlyHasAll(front, profiles, code);
    } else {
      assert forall i :: 0 <= i < |front| ==> front[i] == bundled[i];
      k := |PackageOnly(front, profiles)|;
    }
  }

  // --- What is read ---

  /** Of the code's versions effective by then, the one with the highest number. */
  ghost predicate IsNewestEffective(t: Tables, i: nat, code: string, now: Moment) {
    && i < |t.versions| && t.versions[i].profileCode == code && Text.AtMost(t.versions[i].effectiveFrom, now)
    && (forall k :: 0 <= k < |t.versions| && t.versions[k].profileCode == code
                    && Text.AtMost(t.versions[k].effectiveFrom, now) ==>
          t.versions[k].versionNo <= t.versions[i].versionNo)
  }

  /** Reading gives the payload of the newest effective version of an active code, and nothing only if there is none. */
  lemma ReadingByFields(t: Tables, code: string, now: Moment)
    requires Invariant(t)
    ensures match ActiveDefinition(t, code, now)
            case Some(p) => && code in t.definitions && t.definitions[code].isActive
                            && exists i: nat :: IsNewestEffective(t, i, code, now) && p == t.versions[i].hash
            case None => && code in t.definitions && t.definitions[code].isActive ==>
                              forall i: nat :: !IsNewestEffective(t, i, code, now)
  {
    var rows := RowsOf(t.versions, code);
    var effective := Keep(rows, EffectiveBy(now));
    forall row ensures row in effective <==>
        row in t.versions && row.profileCode == code && Text.AtMost(row.effectiveFrom, now) {
      KeepMembers(t.versions, OfCode(code), row);
      KeepMembers(rows, EffectiveBy(now), row);
    }
    if effective != [] {
      NewestIsHighest(effective);
      var best := Newest(effective).value;
      var i: nat :| i < |t.versions| && t.versions[i] == best;
      assert RowFits(t, t.versions[i]);
      assert IsNewestEffective(t, i, code, now);
    } else {
      assert forall row :: row !in effective;
    }
  }
}
