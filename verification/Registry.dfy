/** The registry projection of document versions: rebuilding it, and checking it for drift. */
module Registry {
  import opened Sequences
  import opened Contracts
  import Text
  import Releases

  datatype VersionRow = VersionRow(documentId: string, version: int, status: DocumentStatus)

  datatype RegisterState = RegValid | RegInReview | RegInProgress | RegArchived | RegInvalid

  datatype RegistryRow = RegistryRow(activeVersion: Option<int>, state: RegisterState, isFindable: bool)

  function ExpectedState(status: Option<DocumentStatus>): (RegisterState, bool) {
    match status
    case Some(Approved) => (RegValid, true)
    case Some(InReview) => (RegInReview, true)
    case Some(InProgress) => (RegInProgress, true)
    case Some(Archived) => (RegArchived, false)
    case _ => (RegInvalid, true)
  }

  ghost predicate DistinctVersions(rows: seq<VersionRow>) {
    forall i, j :: 0 <= i < j < |rows| ==>
        rows[i].documentId != rows[j].documentId || rows[i].version != rows[j].version
  }

  // --- What a document's rows say, independently of either script ---

  predicate IsApprovedOf(r: VersionRow, d: string) {
    r.documentId == d && r.status == Approved
  }

  /** The highest approved version of a document. */
  ghost predicate IsHighestApproved(rows: seq<VersionRow>, d: string, v: Option<int>) {
    match v
    case None => forall r :: r in rows ==> !IsApprovedOf(r, d)
    case Some(n) =>
      && (exists r :: r in rows && IsApprovedOf(r, d) && r.version == n)
      && (forall r :: r in rows && IsApprovedOf(r, d) ==> r.version <= n)
  }

  /** The row of a document with the highest version. */
  ghost predicate IsLatest(rows: seq<VersionRow>, d: string, latest: Option<VersionRow>) {
    match latest
    case None => forall r :: r in rows ==> r.documentId != d
    case Some(l) =>
      l in rows && l.documentId == d && forall r :: r in rows && r.documentId == d ==> r.version <= l.version
  }

  function StatusOf(latest: Option<VersionRow>): Option<DocumentStatus> {
    if latest.None? then None else Some(latest.value.status)
  }

  /** The registry row that belongs to an active version and a latest row. */
  function Projection(active: Option<int>, latest: Option<VersionRow>): RegistryRow {
    var (state, findable) := ExpectedState(if active.Some? then Some(Approved) else StatusOf(latest));
    RegistryRow(active, state, findable)
  }

  // --- Reading the version rows in the order they come ---

  /** The last approved version a scan meets: what filling a dictionary in scan order leaves. */
  function LastApproved(rows: seq<VersionRow>, d: string): Option<int> {
    if rows == [] then None
    else
      var last := rows[|rows| - 1];
      if IsApprovedOf(last, d) then Some(last.version) else LastApproved(rows[..|rows| - 1], d)
  }

  function Latest(rows: seq<VersionRow>, d: string): Option<VersionRow> {
    if rows == [] then None
    else
      var last, front := rows[|rows| - 1], Latest(rows[..|rows| - 1], d);
      if last.documentId == d && (front.None? || last.version > front.value.version) then Some(last) else front
  }

  function StatusAt(rows: seq<VersionRow>, d: string, v: int): Option<DocumentStatus> {
    if rows == [] then None
    else
      var last := rows[|rows| - 1];
      if last.documentId == d && last.version == v then Some(last.status) else StatusAt(rows[..|rows| - 1], d, v)
  }

  lemma {:induction false} LatestIsLatest(rows: seq<VersionRow>, d: string)
    ensures IsLatest(rows, d, Latest(rows, d))
  {
    if rows != [] {
      LatestIsLatest(rows[..|rows| - 1], d);
      assert rows == rows[..|rows| - 1] + [rows[|rows| - 1]];
    }
  }

  lemma {:induction false} LastApprovedIsApproved(rows: seq<VersionRow>, d: string)
    ensures var v := LastApproved(rows, d);
            if v.None? then forall r :: r in rows ==> !IsApprovedOf(r, d)
            else exists r :: r in rows && IsApprovedOf(r, d) && r.version == v.value
  {
    if rows != [] {
      LastApprovedIsApproved(rows[..|rows| - 1], d);
      assert rows == rows[..|rows| - 1] + [rows[|rows| - 1]];
    }
  }

  lemma {:induction false} StatusIsStored(rows: seq<VersionRow>, r: VersionRow)
    requires DistinctVersions(rows) && r in rows
    ensures StatusAt(rows, r.documentId, r.version) == Some(r.status)
  {
    var front := rows[..|rows| - 1];
    assert rows == front + [rows[|rows| - 1]];
    if r in front {
      StatusIsStored(front, r);
    }
  }

  // --- The drift check ---

  function ExpectedRow(scan: seq<VersionRow>, d: string, reg: RegistryRow): (RegisterState, bool) {
    ExpectedState(if reg.activeVersion.Some? then StatusAt(scan, d, reg.activeVersion.value)
                  else StatusOf(Latest(scan, d)))
  }

  type RegistryTable = map<string, RegistryRow>

  function Missing(reg: RegistryTable): string -> bool {
    (d: string) => d !in reg
  }

  function ActiveMismatch(reg: RegistryTable, scan: seq<VersionRow>): string -> bool {
    (d: string) => d in reg && reg[d].activeVersion != LastApproved(scan, d)
  }

  function StateMismatch(reg: RegistryTable, scan: seq<VersionRow>): string -> bool {
    (d: string) => d in reg && (reg[d].state, reg[d].isFindable) != ExpectedRow(scan, d, reg[d])
  }

  datatype Drift = Drift(missing: nat, activeMismatch: nat, stateMismatch: nat)

  function Total(d: Drift): nat {
    d.missing + d.activeMismatch + d.stateMismatch
  }

  function Count(ds: seq<string>, p: string -> bool): nat {
    if ds == [] then 0 else Count(ds[..|ds| - 1], p) + (if p(ds[|ds| - 1]) then 1 else 0)
  }

  lemma {:induction false} NothingCounted(ds: seq<string>, p: string -> bool)
    ensures Count(ds, p) == 0 <==> forall d :: d in ds ==> !p(d)
  {
    if ds != [] {
      NothingCounted(ds[..|ds| - 1], p);
      assert ds == ds[..|ds| - 1] + [ds[|ds| - 1]];
    }
  }

  function DriftOf(headers: seq<string>, scan: seq<VersionRow>, reg: RegistryTable): Drift {
    Drift(Count(headers, Missing(reg)), Count(headers, ActiveMismatch(reg, scan)),
          Count(headers, StateMismatch(reg, scan)))
  }

  method EvaluateRegistryDrift(headers: seq<string>, scan: seq<VersionRow>, reg: RegistryTable) returns (drift: Drift)
    ensures drift == DriftOf(headers, scan, reg)
  {
    drift := Drift(0, 0, 0);
    for k := 0 to |headers|
      invariant drift == DriftOf(headers[..k], scan, reg)
    {
      var d := headers[k];
      assert headers[..k + 1][..k] == headers[..k];
      if d !in reg {
        drift := drift.(missing := drift.missing + 1);
        continue;
      }
      if reg[d].activeVersion != LastApproved(scan, d) {
        drift := drift.(activeMismatch := drift.activeMismatch + 1);
      }
      var basis :=
        if reg[d].activeVersion.Some? then StatusAt(scan, d, reg[d].activeVersion.value) else StatusOf(Latest(scan, d));
      var (expectedState, expectedFindable) := ExpectedState(basis);
      if reg[d].state != expectedState || reg[d].isFindable != expectedFindable {
        drift := drift.(stateMismatch := drift.stateMismatch + 1);
      }
    }
    assert headers[..|headers|] == headers;
  }

  /** The registry has exactly the row a document's versions project to, read in scan order. */
  predicate Projected(reg: RegistryTable, scan: seq<VersionRow>, d: string) {
    d in reg && reg[d] == Projection(LastApproved(scan, d), Latest(scan, d))
  }

  lemma CountedIffNotProjected(reg: RegistryTable, scan: seq<VersionRow>, d: string)
    requires DistinctVersions(scan)
    ensures Missing(reg)(d) || ActiveMismatch(reg, scan)(d) || StateMismatch(reg, scan)(d) <==> !Projected(reg, scan, d)
  {
    if d in reg && reg[d].activeVersion == LastApproved(scan, d) {
      ExpectedMeansProjected(scan, d, reg[d]);
    }
  }

  /** Zero drift means: every header has exactly the registry row its versions project to. */
  lemma NoDriftIffProjected(headers: seq<string>, scan: seq<VersionRow>, reg: RegistryTable)
    requires DistinctVersions(scan)
    ensures Total(DriftOf(headers, scan, reg)) == 0 <==> forall d :: d in headers ==> Projected(reg, scan, d)
  {
    NothingCounted(headers, Missing(reg));
    NothingCounted(headers, ActiveMismatch(reg, scan));
    NothingCounted(headers, StateMismatch(reg, scan));
    forall d | d in headers
      ensures Missing(reg)(d) || ActiveMismatch(reg, scan)(d) || StateMismatch(reg, scan)(d) <==>
              !Projected(reg, scan, d)
    {
      CountedIffNotProjected(reg, scan, d);
    }
  }

  lemma ExpectedMeansProjected(scan: seq<VersionRow>, d: string, row: RegistryRow)
    requires DistinctVersions(scan) && row.activeVersion == LastApproved(scan, d)
    ensures (row.state, row.isFindable) == ExpectedRow(scan, d, row) <==>
            row == Projection(LastApproved(scan, d), Latest(scan, d))
  {
    LastApprovedIsApproved(scan, d);
    if row.activeVersion.Some? {
      var r :| r in scan && IsApprovedOf(r, d) && r.version == row.activeVersion.value;
      StatusIsStored(scan, r);
    }
  }

  // --- The rebuild ---

  function InOrder(): (VersionRow, VersionRow) -> bool {
    (a: VersionRow, b: VersionRow) =>
      Text.Less(a.documentId, b.documentId) || (a.documentId == b.documentId && a.version <= b.version)
  }

  lemma InOrderIsPreorder()
    ensures TotalPreorder(InOrder())
  {
    var le := InOrder();
    forall a, b ensures le(a, b) || le(b, a) {
      Text.LessIsTotal(a.documentId, b.documentId);
    }
    forall a, b, c | le(a, b) && le(b, c) ensures le(a, c) {
      if Text.Less(a.documentId, b.documentId) && Text.Less(b.documentId, c.documentId) {
        Text.LessIsTransitive(a.documentId, b.documentId, c.documentId);
      }
    }
  }

  /** A document's versions and statuses, as grouped while reading the ordered rows. */
  function RowsOf(rows: seq<VersionRow>, d: string): seq<VersionRow> {
    if rows == [] then []
    else
      var last := rows[|rows| - 1];
      RowsOf(rows[..|rows| - 1], d) + (if last.documentId == d then [last] else [])
  }

  function MaxApproved(rows: seq<VersionRow>): Option<int> {
    if rows == [] then None
    else
      var last, front := rows[|rows| - 1], MaxApproved(rows[..|rows| - 1]);
      if last.status == Approved && (front.None? || last.version > front.value) then Some(last.version) else front
  }

  function RebuiltRow(group: seq<VersionRow>): RegistryRow {
    var active := MaxApproved(group);
    var basis := if active.Some? then Some(Approved) else if group != [] then Some(group[|group| - 1].status) else None;
    RegistryRow(active, ExpectedState(basis).0, ExpectedState(basis).1)
  }

  function Rebuilt(headers: seq<string>, rows: seq<VersionRow>): RegistryTable {
    RebuiltFrom(headers, Sort(rows, InOrder()))
  }

  function RebuiltFrom(headers: seq<string>, versions: seq<VersionRow>): RegistryTable {
    map d | d in headers :: RebuiltRow(RowsOf(versions, d))
  }

  lemma OneMoreHeader(headers: seq<string>, d: string, versions: seq<VersionRow>)
    ensures RebuiltFrom(headers + [d], versions) == RebuiltFrom(headers, versions)[d := RebuiltRow(RowsOf(versions, d))]
  {
  }

  class RegistryDatabase {
    var table: RegistryTable

    constructor (table: RegistryTable)
      ensures this.table == table
    {
      this.table := table;
    }

    method RebuildFromDocuments(headers: seq<string>, rows: seq<VersionRow>)
      modifies this
      ensures table == Rebuilt(headers, rows)
    {
      table := map[];
      var versions := Sort(rows, InOrder());
      var groups := GroupByDocument(versions);
      for k := 0 to |headers|
        invariant table == RebuiltFrom(headers[..k], versions)
      {
        var d := headers[k];
        assert headers[..k + 1] == headers[..k] + [d];
        OneMoreHeader(headers[..k], d, versions);
        var group := if d in groups then groups[d] else [];
        table := table[d := RebuiltRow(group)];
      }
      assert headers[..|headers|] == headers;
    }
  }

  method GroupByDocument(versions: seq<VersionRow>) returns (groups: map<string, seq<VersionRow>>)
    ensures forall d :: RowsOf(versions, d) == if d in groups then groups[d] else []
  {
    groups := map[];
    for k := 0 to |versions|
      invariant forall d :: RowsOf(versions[..k], d) == if d in groups then groups[d] else []
    {
      var row := versions[k];
      assert versions[..k + 1][..k] == versions[..k];
      var group := if row.documentId in groups then groups[row.documentId] else [];
      groups := groups[row.documentId := group + [row]];
    }
    assert versions[..|versions|] == versions;
  }

  lemma {:induction false} RowsOfMembers(rows: seq<VersionRow>, d: string)
    ensures forall r :: r in RowsOf(rows, d) <==> r in rows && r.documentId == d
  {
    if rows != [] {
      RowsOfMembers(rows[..|rows| - 1], d);
      assert rows == rows[..|rows| - 1] + [rows[|rows| - 1]];
    }
  }

  lemma {:induction false} RowsOfAscend(rows: seq<VersionRow>, d: string)
    requires SortedBy(rows, InOrder())
    ensures forall i, j :: 0 <= i < j < |RowsOf(rows, d)| ==> RowsOf(rows, d)[i].version <= RowsOf(rows, d)[j].version
  {
    if rows != [] {
      var front, last := rows[..|rows| - 1], rows[|rows| - 1];
      RowsOfAscend(front, d);
      RowsOfMembers(front, d);
      if last.documentId == d {
        forall r | r in RowsOf(front, d) ensures r.version <= last.version {
          var i :| 0 <= i < |front| && front[i] == r;
          assert InOrder()(rows[i], last);
          Text.LessIsIrreflexive(d);
        }
      }
    }
  }

  lemma {:induction false} MaxApprovedIsHighest(group: seq<VersionRow>, d: string)
    requires forall r :: r in group ==> r.documentId == d
    ensures IsHighestApproved(group, d, MaxApproved(group))
  {
    if group != [] {
      var front := group[..|group| - 1];
      assert group == front + [group[|group| - 1]];
      MaxApprovedIsHighest(front, d);
      assert group[|group| - 1] in group;
    }
  }

  /** A rebuilt row is the projection of the highest approved and the latest version, however the rows are stored. */
  lemma RebuiltRowIsProjection(headers: seq<string>, rows: seq<VersionRow>, d: string)
    requires DistinctVersions(rows) && d in headers
    ensures var active := Rebuilt(headers, rows)[d].activeVersion;
            IsHighestApproved(rows, d, active) && Rebuilt(headers, rows)[d] == Projection(active, Latest(rows, d))
  {
    var sorted := Sort(rows, InOrder());
    var group := RowsOf(sorted, d);
    InOrderIsPreorder();
    SortSorts(rows, InOrder());
    SortKeepsItems(rows, InOrder());
    RowsOfMembers(sorted, d);
    RowsOfAscend(sorted, d);
    MaxApprovedIsHighest(group, d);
    assert forall r :: r in group <==> r in rows && r.documentId == d;
    LatestIsLatest(rows, d);
    if group != [] {
      var last := group[|group| - 1];
      assert last in group;
      SameVersionSameRow(rows, last, Latest(rows, d).value);
    }
  }

  lemma SameVersionSameRow(rows: seq<VersionRow>, a: VersionRow, b: VersionRow)
    requires DistinctVersions(rows) && a in rows && b in rows && a.documentId == b.documentId && a.version == b.version
    ensures a == b
  {
    var i :| 0 <= i < |rows| && rows[i] == a;
    var j :| 0 <= j < |rows| && rows[j] == b;
    assert i < j || i == j || j < i;
  }

  // --- Rebuild and check, spelled out ---

  /** How each status of the version a row goes by is shown in the register, and whether the document is findable. */
  ghost predicate ShownBy(status: DocumentStatus, row: RegistryRow) {
    && (status == Approved ==> row.state == RegValid && row.isFindable)
    && (status == InReview ==> row.state == RegInReview && row.isFindable)
    && (status == InProgress ==> row.state == RegInProgress && row.isFindable)
    && (status == Archived ==> row.state == RegArchived && !row.isFindable)
    && (status == Planned || status == Draft || status == InApproval ==> row.state == RegInvalid && row.isFindable)
  }

  ghost predicate IsLatestRow(rows: seq<VersionRow>, l: VersionRow) {
    l in rows && forall r :: r in rows && r.documentId == l.documentId ==> r.version <= l.version
  }

  /**
   A rebuilt row, by status: a document with an approved version is valid and findable, with the highest such version
   as active; another one goes by its latest version and has no active one, or is invalid if it has no version at all.
   */
  lemma RebuiltRowByStatus(headers: seq<string>, rows: seq<VersionRow>, d: string)
    requires DistinctVersions(rows) && d in headers
    ensures d in Rebuilt(headers, rows)
    ensures var row := Rebuilt(headers, rows)[d];
            && (forall r :: r in rows && r.documentId == d && r.status == Approved ==>
                  row.activeVersion.Some? && r.version <= row.activeVersion.value)
            && (row.activeVersion.Some? ==>
                  ShownBy(Approved, row)
                  && exists r :: r in rows && r.documentId == d && r.status == Approved
                                 && Some(r.version) == row.activeVersion)
            && (row.activeVersion.None? ==>
                  forall l :: IsLatestRow(rows, l) && l.documentId == d ==> ShownBy(l.status, row))
            && ((forall r :: r in rows ==> r.documentId != d) ==>
                  row == RegistryRow(None, RegInvalid, true))
  {
    RebuiltRowIsProjection(headers, rows, d);
    var row := Rebuilt(headers, rows)[d];
    LatestIsLatest(rows, d);
    forall r | r in rows && r.documentId == d && r.status == Approved
      ensures row.activeVersion.Some? && r.version <= row.activeVersion.value
    {
      assert IsApprovedOf(r, d);
    }
    if row.activeVersion.Some? {
      var r :| r in rows && IsApprovedOf(r, d) && r.version == row.activeVersion.value;
      assert r.documentId == d && r.status == Approved;
    } else {
      forall l | IsLatestRow(rows, l) && l.documentId == d ensures ShownBy(l.status, row) {
        SameVersionSameRow(rows, l, Latest(rows, d).value);
        assert !IsApprovedOf(l, d);
      }
    }
  }

  /** The rebuilt table has a row for every header and no other. */
  lemma RebuiltForHeaders(headers: seq<string>, rows: seq<VersionRow>)
    ensures forall d :: d in Rebuilt(headers, rows) <==> d in headers
  {
  }

  /** The last approved version in scan order. */
  ghost predicate IsLastScanned(scan: seq<VersionRow>, d: string, v: Option<int>) {
    if v == None then forall r :: r in scan ==> r.documentId != d || r.status != Approved
    else exists i :: 0 <= i < |scan| && scan[i] == VersionRow(d, v.value, Approved) && NoneApprovedBehind(scan, d, i)
  }

  ghost predicate NoneApprovedBehind(scan: seq<VersionRow>, d: string, i: nat) {
    forall j :: i < j < |scan| ==> scan[j].documentId != d || scan[j].status != Approved
  }

  lemma {:induction false} LastApprovedIsLastScanned(scan: seq<VersionRow>, d: string)
    ensures IsLastScanned(scan, d, LastApproved(scan, d))
  {
    if scan != [] {
      var front, last := scan[..|scan| - 1], scan[|scan| - 1];
      LastApprovedIsLastScanned(front, d);
      assert scan == front + [last];
      if IsApprovedOf(last, d) {
        assert scan[|front|] == VersionRow(d, last.version, Approved) && NoneApprovedBehind(scan, d, |front|);
      } else if LastApproved(front, d).Some? {
        var i :| 0 <= i < |front| && front[i] == VersionRow(d, LastApproved(front, d).value, Approved)
                 && NoneApprovedBehind(front, d, i);
        assert scan[i] == front[i];
        assert NoneApprovedBehind(scan, d, i);
      }
    }
  }

  lemma {:induction false} CountIsKept(ds: seq<string>, p: string -> bool)
    ensures Count(ds, p) == |Keep(ds, p)|
  {
    if ds != [] {
      var front, last := ds[..|ds| - 1], ds[|ds| - 1];
      CountIsKept(front, p);
      assert ds == front + [last];
      KeepConcat(front, [last], p);
      KeepSplits([last], p);
    }
  }

  /** Which headers the check counts, each header by itself. */
  lemma CountedHeaders(headers: seq<string>, scan: seq<VersionRow>, reg: RegistryTable, d: string)
    requires DistinctVersions(scan)
    ensures var drift := DriftOf(headers, scan, reg);
            && drift.missing == |Keep(headers, Missing(reg))|
            && drift.activeMismatch == |Keep(headers, ActiveMismatch(reg, scan))|
            && drift.stateMismatch == |Keep(headers, StateMismatch(reg, scan))|
    ensures Missing(reg)(d) <==> d !in reg
    ensures ActiveMismatch(reg, scan)(d) <==> d in reg && !IsLastScanned(scan, d, reg[d].activeVersion)
    ensures StateMismatch(reg, scan)(d) <==> d in reg && !StateFits(scan, d, reg[d])
  {
    CountIsKept(headers, Missing(reg));
    CountIsKept(headers, ActiveMismatch(reg, scan));
    CountIsKept(headers, StateMismatch(reg, scan));
    LastApprovedIsLastScanned(scan, d);
    if d in reg {
      if IsLastScanned(scan, d, reg[d].activeVersion) {
        OneIsLastScanned(scan, d, LastApproved(scan, d), reg[d].activeVersion);
      }
      StateIsExpected(scan, d, reg[d]);
    }
  }

  lemma OneIsLastScanned(scan: seq<VersionRow>, d: string, a: Option<int>, b: Option<int>)
    requires IsLastScanned(scan, d, a) && IsLastScanned(scan, d, b)
    ensures a == b
  {
    if a.Some? && b.Some? {
      var i :| 0 <= i < |scan| && scan[i] == VersionRow(d, a.value, Approved) && NoneApprovedBehind(scan, d, i);
      var j :| 0 <= j < |scan| && scan[j] == VersionRow(d, b.value, Approved) && NoneApprovedBehind(scan, d, j);
    }
  }

  /** A row's state goes by the status of its active version, or of the latest one if it has none. */
  ghost predicate StateFits(scan: seq<VersionRow>, d: string, row: RegistryRow) {
    && (forall r :: r in scan && r.documentId == d && Some(r.version) == row.activeVersion ==> ShownBy(r.status, row))
    && (row.activeVersion.None? ==> forall l :: IsLatestRow(scan, l) && l.documentId == d ==> ShownBy(l.status, row))
    && (StatusLess(scan, d, row.activeVersion) ==> row.state == RegInvalid && row.isFindable)
  }

  /** There is no such version to go by. */
  ghost predicate StatusLess(scan: seq<VersionRow>, d: string, v: Option<int>) {
    forall r :: r in scan ==> r.documentId != d || (v.Some? && r.version != v.value)
  }

  lemma StateIsExpected(scan: seq<VersionRow>, d: string, row: RegistryRow)
    requires DistinctVersions(scan)
    ensures (row.state, row.isFindable) == ExpectedRow(scan, d, row) <==> StateFits(scan, d, row)
  {
    if row.activeVersion.Some? {
      StatusAtIsStored(scan, d, row.activeVersion.value);
      if r :| r in scan && r.documentId == d && r.version == row.activeVersion.value {
        StatusIsStored(scan, r);
        forall x | x in scan && x.documentId == d && x.version == row.activeVersion.value ensures x == r {
          SameVersionSameRow(scan, x, r);
        }
      }
    } else {
      LatestIsLatest(scan, d);
      if Latest(scan, d).Some? {
        var l := Latest(scan, d).value;
        assert IsLatestRow(scan, l);
        forall x | IsLatestRow(scan, x) && x.documentId == d ensures x == l {
          SameVersionSameRow(scan, x, l);
        }
      }
    }
  }

  lemma {:induction false} StatusAtIsStored(scan: seq<VersionRow>, d: string, v: int)
    ensures StatusAt(scan, d, v).None? <==> forall r :: r in scan ==> r.documentId != d || r.version != v
  {
    if scan != [] {
      StatusAtIsStored(scan[..|scan| - 1], d, v);
      assert scan == scan[..|scan| - 1] + [scan[|scan| - 1]];
    }
  }

  // --- Rebuilding, then checking ---

  /** The same rows, in whatever order a scan returns them. */
  ghost predicate IsScanOf(scan: seq<VersionRow>, rows: seq<VersionRow>) {
    multiset(scan) == multiset(rows)
  }

  lemma ScanHasSameRows(scan: seq<VersionRow>, rows: seq<VersionRow>)
    requires IsScanOf(scan, rows) && DistinctVersions(rows)
    ensures DistinctVersions(scan) && forall r :: r in scan <==> r in rows
  {
    forall r ensures r in scan <==> r in rows {
      assert r in scan <==> r in multiset(scan);
      assert r in rows <==> r in multiset(rows);
    }
    DistinctByMultiset(rows, scan);
    forall i, j | 0 <= i < j < |scan|
      ensures scan[i].documentId != scan[j].documentId || scan[i].version != scan[j].version
    {
      if scan[i].documentId == scan[j].documentId && scan[i].version == scan[j].version {
        SameVersionSameRow(rows, scan[i], scan[j]);
      }
    }
  }

  lemma SameLatest(scan: seq<VersionRow>, rows: seq<VersionRow>, d: string)
    requires DistinctVersions(rows) && forall r :: r in scan <==> r in rows
    ensures Latest(scan, d) == Latest(rows, d)
  {
    LatestIsLatest(scan, d);
    LatestIsLatest(rows, d);
    if Latest(scan, d).Some? && Latest(rows, d).Some? {
      SameVersionSameRow(rows, Latest(scan, d).value, Latest(rows, d).value);
    }
  }

  /**
   Rebuilding and then checking reports no drift if and only if, for every header, the last approved row the check
   happens to read is the one with the highest version.
   */
  lemma RebuildThenCheck(headers: seq<string>, rows: seq<VersionRow>, scan: seq<VersionRow>)
    requires DistinctVersions(rows) && IsScanOf(scan, rows)
    ensures Total(DriftOf(headers, scan, Rebuilt(headers, rows))) == 0 <==>
              forall d :: d in headers ==> IsHighestApproved(rows, d, LastApproved(scan, d))
  {
    ScanHasSameRows(scan, rows);
    NoDriftIffProjected(headers, scan, Rebuilt(headers, rows));
    forall d | d in headers
      ensures Projected(Rebuilt(headers, rows), scan, d) <==> IsHighestApproved(rows, d, LastApproved(scan, d))
    {
      RebuiltRowIsProjection(headers, rows, d);
      SameLatest(scan, rows, d);
      HighestApprovedIsUnique(rows, d, LastApproved(scan, d), Rebuilt(headers, rows)[d].activeVersion);
    }
  }

  lemma SwappedIsScan(a: VersionRow, b: VersionRow)
    requires a.version != b.version
    ensures DistinctVersions([a, b]) && IsScanOf([b, a], [a, b])
  {
  }

  /** The failing case: two approved versions, scanned with the lower one last. */
  lemma TwoApprovedDrift(d: string, low: int, high: int)
    requires low < high
    ensures var rows := [VersionRow(d, low, Approved), VersionRow(d, high, Approved)];
            var scan := [VersionRow(d, high, Approved), VersionRow(d, low, Approved)];
            && DistinctVersions(rows) && IsScanOf(scan, rows)
            && Total(DriftOf([d], scan, Rebuilt([d], rows))) != 0
  {
    var rows := [VersionRow(d, low, Approved), VersionRow(d, high, Approved)];
    var scan := [VersionRow(d, high, Approved), VersionRow(d, low, Approved)];
    SwappedIsScan(rows[0], rows[1]);
    RebuildThenCheck([d], rows, scan);
    assert LastApproved(scan, d) == Some(low);
    assert d in [d] && rows[1] in rows && IsApprovedOf(rows[1], d);
  }

  lemma HighestApprovedIsUnique(rows: seq<VersionRow>, d: string, a: Option<int>, b: Option<int>)
    requires IsHighestApproved(rows, d, b)
    ensures IsHighestApproved(rows, d, a) <==> a == b
  {
  }

  ghost predicate SingleApproved(rows: seq<VersionRow>) {
    forall a, b :: a in rows && b in rows && a.documentId == b.documentId ==>
      a.status == Approved && b.status == Approved ==> a.version == b.version
  }

  /** With at most one approved version per document, rebuilding removes all drift, whatever the scan order. */
  lemma SingleApprovedMeansNoDrift(headers: seq<string>, rows: seq<VersionRow>, scan: seq<VersionRow>)
    requires DistinctVersions(rows) && IsScanOf(scan, rows) && SingleApproved(rows)
    ensures Total(DriftOf(headers, scan, Rebuilt(headers, rows))) == 0
  {
    ScanHasSameRows(scan, rows);
    RebuildThenCheck(headers, rows, scan);
    forall d | d in headers ensures IsHighestApproved(rows, d, LastApproved(scan, d)) {
      LastApprovedIsApproved(scan, d);
    }
  }

  function VersionRows(states: seq<DocumentVersionState>): seq<VersionRow> {
    seq(|states|, i requires 0 <= i < |states| => VersionRow(states[i].documentId, states[i].version, states[i].status))
  }

  /** After any run of creations, stores and releases, a rebuilt registry passes the drift check. */
  lemma RegistryRecoversAfterAnyRun(headers: seq<string>, ops: seq<Releases.Operation>, scan: seq<VersionRow>)
    requires IsScanOf(scan, VersionRows(Releases.PerformAll([], ops)))
    ensures Total(DriftOf(headers, scan, Rebuilt(headers, VersionRows(Releases.PerformAll([], ops))))) == 0
  {
    var states := Releases.PerformAll([], ops);
    Releases.RunsKeepSingleApproved([], ops);
    var rows := VersionRows(states);
    forall i, j | 0 <= i < j < |rows|
      ensures rows[i].documentId != rows[j].documentId || rows[i].version != rows[j].version
    {
      assert !SameKey(states[i], states[j]);
    }
    forall a, b | a in rows && b in rows && a.documentId == b.documentId && a.status == Approved && b.status == Approved
      ensures a.version == b.version
    {
      var i :| 0 <= i < |rows| && rows[i] == a;
      var j :| 0 <= j < |rows| && rows[j] == b;
      assert i < j || i == j || j < i;
    }
    SingleApprovedMeansNoDrift(headers, rows, scan);
  }
}
