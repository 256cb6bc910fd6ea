/** Current artifacts over runs of creations and deletions, and the two ways a PDF is looked up among them. */
module Artifacts {
  import opened Sequences

  datatype ArtifactType =
    | SourceDocx
    | SourcePdf
    | ReviewPdf
    | SignedPdf
    | ReleasedPdf
    | SupersededReleasedPdf
    | Attachment
    | CommentExport

  datatype Artifact = Artifact(
    id: string, documentId: string, version: int, kind: ArtifactType, isCurrent: bool, createdAt: int,
    storageKey: string)

  predicate SameSlot(a: Artifact, b: Artifact) {
    a.documentId == b.documentId && a.version == b.version && a.kind == b.kind
  }

  predicate HasId(rows: seq<Artifact>, id: string) {
    exists i :: 0 <= i < |rows| && rows[i].id == id
  }

  // --- Creating, marking, deleting ---

  function Cleared(row: Artifact, a: Artifact): Artifact {
    if SameSlot(row, a) then row.(isCurrent := false) else row
  }

  /** Marking: the slot is cleared, then the one row set. */
  function MarkedRow(row: Artifact, a: Artifact): Artifact {
    if row.id == a.id then row.(isCurrent := true) else Cleared(row, a)
  }

  function Marked(rows: seq<Artifact>, a: Artifact): (r: seq<Artifact>)
    ensures |r| == |rows| && forall i :: 0 <= i < |rows| ==> r[i] == MarkedRow(rows[i], a)
  {
    seq(|rows|, i requires 0 <= i < |rows| => MarkedRow(rows[i], a))
  }

  function Created(rows: seq<Artifact>, a: Artifact): Option<seq<Artifact>> {
    if HasId(rows, a.id) then None else Some(Marked(rows + [a.(isCurrent := true)], a))
  }

  function OtherThan(id: string): Artifact -> bool {
    (a: Artifact) => a.id != id
  }

  function Deleted(rows: seq<Artifact>, id: string): seq<Artifact> {
    Keep(rows, OtherThan(id))
  }

  // --- Looking a PDF up ---

  /** Where an artifact's file is, if it exists and is a PDF. */
  type Resolver = Artifact -> Option<string>

  function OfVersion(documentId: string, version: int): Artifact -> bool {
    (a: Artifact) => a.documentId == documentId && a.version == version
  }

  function OldestFirst(): (Artifact, Artifact) -> bool {
    (a: Artifact, b: Artifact) => a.createdAt <= b.createdAt
  }

  function NewestFirst(): (Artifact, Artifact) -> bool {
    (a: Artifact, b: Artifact) => a.createdAt >= b.createdAt
  }

  /** Current artifacts first, each group from the oldest. */
  function CurrentThenOldest(): (Artifact, Artifact) -> bool {
    (a: Artifact, b: Artifact) => if a.isCurrent == b.isCurrent then a.createdAt <= b.createdAt else a.isCurrent
  }

  function ListArtifacts(rows: seq<Artifact>, documentId: string, version: int): seq<Artifact> {
    Sort(Keep(rows, OfVersion(documentId, version)), OldestFirst())
  }

  function OfKind(kind: ArtifactType): Artifact -> bool {
    (a: Artifact) => a.kind == kind
  }

  function CurrentOfKind(kind: ArtifactType): Artifact -> bool {
    (a: Artifact) => a.kind == kind && a.isCurrent
  }

  function Reversed(s: seq<Artifact>): (r: seq<Artifact>)
    ensures |r| == |s| && forall i :: 0 <= i < |s| ==> r[i] == s[|s| - 1 - i]
  {
    seq(|s|, i requires 0 <= i < |s| => s[|s| - 1 - i])
  }

  /** The first artifact of a list whose file can be used. */
  function FirstUsable(s: seq<Artifact>, resolve: Resolver): Option<Artifact> {
    if s == [] then None else if resolve(s[0]).Some? then Some(s[0]) else FirstUsable(s[1..], resolve)
  }

  /** Which list of candidates a resolver goes through for one type, current ones only or all. */
  type Candidates = (ArtifactType, bool) -> seq<Artifact>

  function ReleaseCandidates(listed: seq<Artifact>): Candidates {
    (kind: ArtifactType, currentOnly: bool) =>
      var ordered := Sort(listed, CurrentThenOldest());
      if currentOnly then Keep(ordered, CurrentOfKind(kind)) else Reversed(Keep(ordered, OfKind(kind)))
  }

  function SignatureCandidates(listed: seq<Artifact>): Candidates {
    (kind: ArtifactType, currentOnly: bool) =>
      Sort(Keep(listed, if currentOnly then CurrentOfKind(kind) else OfKind(kind)), NewestFirst())
  }

  /** Type by type in order of priority. */
  function Pick(candidates: Candidates, kinds: seq<ArtifactType>, currentOnly: bool,
                resolve: Resolver): Option<Artifact> {
    if kinds == [] then None
    else
      var found := FirstUsable(candidates(kinds[0], currentOnly), resolve);
      if found.Some? then found else Pick(candidates, kinds[1..], currentOnly, resolve)
  }

  /** Current artifacts of any type come before all others. */
  function Choose(candidates: Candidates, kinds: seq<ArtifactType>, resolve: Resolver): Option<Artifact> {
    var current := Pick(candidates, kinds, true, resolve);
    if current.Some? then current else Pick(candidates, kinds, false, resolve)
  }

  const DEFAULT_PRIORITY: seq<ArtifactType> := [SignedPdf, SourcePdf, ReleasedPdf]

  datatype Transition =
    | ReviewToApproval
    | ApprovalToApproved
    | EditingToReview
    | EditingToApproval
    | EditingToApproved
    | OtherTransition

  function SignaturePriority(t: Transition): seq<ArtifactType> {
    match t
    case ReviewToApproval => [SignedPdf]
    case ApprovalToApproved => [SignedPdf]
    case EditingToReview => [SignedPdf, SourcePdf]
    case EditingToApproval => [SignedPdf, SourcePdf]
    case EditingToApproved => [SignedPdf, SourcePdf]
    case OtherTransition => DEFAULT_PRIORITY
  }

  function PathOf(chosen: Option<Artifact>, resolve: Resolver): Option<string> {
    if chosen.None? then None else resolve(chosen.value)
  }

  class DocumentsRepository {
    var artifacts: seq<Artifact>

    constructor ()
      ensures artifacts == []
    {
      artifacts := [];
    }

    method MarkCurrentArtifact(a: Artifact)
      modifies this
      ensures artifacts == Marked(old(artifacts), a)
    {
      var before := artifacts;
      var rows := artifacts;
      for i := 0 to |rows|
        invariant |rows| == |before|
        invariant forall k :: 0 <= k < i ==> rows[k] == Cleared(before[k], a)
        invariant forall k :: i <= k < |rows| ==> rows[k] == before[k]
      {
        if SameSlot(rows[i], a) {
          rows := rows[i := rows[i].(isCurrent := false)];
        }
      }
      for i := 0 to |rows|
        invariant |rows| == |before|
        invariant forall k :: 0 <= k < i ==> rows[k] == MarkedRow(before[k], a)
        invariant forall k :: i <= k < |rows| ==> rows[k] == Cleared(before[k], a)
      {
        if rows[i].id == a.id {
          rows := rows[i := rows[i].(isCurrent := true)];
        }
      }
      artifacts := rows;
      assert artifacts == Marked(before, a);
    }

    /** Adding stores the artifact as current before the older ones of its slot are cleared. */
    method CreateArtifact(a: Artifact) returns (created: bool)
      modifies this
      ensures created <==> Created(old(artifacts), a).Some?
      ensures artifacts == if created then Created(old(artifacts), a).value else old(artifacts)
    {
      if HasId(artifacts, a.id) {
        return false;
      }
      artifacts := artifacts + [a.(isCurrent := true)];
      MarkCurrentArtifact(a);
      created := true;
    }

    method DeleteArtifact(id: string)
      modifies this
      ensures artifacts == Deleted(old(artifacts), id)
    {
      artifacts := Keep(artifacts, OtherThan(id));
    }

    method ResolveReleasePdf(documentId: string, version: int, resolve: Resolver) returns (path: Option<string>)
      ensures path == PathOf(Choose(ReleaseCandidates(ListArtifacts(artifacts, documentId, version)),
                                    DEFAULT_PRIORITY, resolve), resolve)
    {
      var listed := ListArtifacts(artifacts, documentId, version);
      path := FirstPath(ReleaseCandidates(listed), DEFAULT_PRIORITY, true, resolve);
      if path.None? {
        path := FirstPath(ReleaseCandidates(listed), DEFAULT_PRIORITY, false, resolve);
      }
    }

    method ResolveSignatureInputPdf(documentId: string, version: int, transition: Transition, resolve: Resolver)
      returns (path: Option<string>)
      ensures path == PathOf(Choose(SignatureCandidates(ListArtifacts(artifacts, documentId, version)),
                                    SignaturePriority(transition), resolve), resolve)
    {
      var listed := ListArtifacts(artifacts, documentId, version);
      path := FirstPath(SignatureCandidates(listed), SignaturePriority(transition), true, resolve);
      if path.None? {
        path := FirstPath(SignatureCandidates(listed), SignaturePriority(transition), false, resolve);
      }
    }
  }

  /** The nested loop both resolvers run: types in order, candidates in order, the first usable file wins. */
  method FirstPath(candidates: Candidates, kinds: seq<ArtifactType>, currentOnly: bool, resolve: Resolver)
    returns (path: Option<string>)
    ensures path == PathOf(Pick(candidates, kinds, currentOnly, resolve), resolve)
    ensures path.Some? <==> Pick(candidates, kinds, currentOnly, resolve).Some?
  {
    PickedIsUsable(candidates, kinds, currentOnly, resolve);
    for k := 0 to |kinds|
      invariant Pick(candidates, kinds, currentOnly, resolve) == Pick(candidates, kinds[k..], currentOnly, resolve)
    {
      assert kinds[k..][1..] == kinds[k + 1..];
      var items := candidates(kinds[k], currentOnly);
      for i := 0 to |items|
        invariant FirstUsable(items, resolve) == FirstUsable(items[i..], resolve)
      {
        assert items[i..][1..] == items[i + 1..];
        var resolved := resolve(items[i]);
        if resolved.Some? {
          return resolved;
        }
      }
    }
    path := None;
  }

  lemma {:induction false} FirstIsUsable(s: seq<Artifact>, resolve: Resolver)
    ensures var found := FirstUsable(s, resolve);
            && (found.Some? ==> found.value in s && resolve(found.value).Some?)
            && (found.None? ==> forall x :: x in s ==> resolve(x).None?)
  {
    if s != [] && resolve(s[0]).None? {
      FirstIsUsable(s[1..], resolve);
    }
  }

  lemma {:induction false} PickedIsUsable(candidates: Candidates, kinds: seq<ArtifactType>, currentOnly: bool,
                                          resolve: Resolver)
    ensures var found := Pick(candidates, kinds, currentOnly, resolve); found.Some? ==> resolve(found.value).Some?
  {
    if kinds != [] {
      FirstIsUsable(candidates(kinds[0], currentOnly), resolve);
      PickedIsUsable(candidates, kinds[1..], currentOnly, resolve);
    }
  }

  // --- At most one current artifact per slot ---

  ghost predicate DistinctIds(rows: seq<Artifact>) {
    forall i, j :: 0 <= i < j < |rows| ==> rows[i].id != rows[j].id
  }

  ghost predicate OneCurrent(rows: seq<Artifact>) {
    forall i, j :: 0 <= i < j < |rows| && SameSlot(rows[i], rows[j]) ==> !(rows[i].isCurrent && rows[j].isCurrent)
  }

  /** A completed creation leaves its artifact as the only current one of its slot, whatever the slot held before. */
  lemma CreationSettlesSlot(rows: seq<Artifact>, a: Artifact)
    requires Created(rows, a).Some?
    ensures var after := Created(rows, a).value;
            && |after| == |rows| + 1 && after[|rows|] == a.(isCurrent := true)
            && (forall i :: 0 <= i < |rows| && SameSlot(rows[i], a) ==> after[i] == rows[i].(isCurrent := false))
            && (forall i :: 0 <= i < |rows| && !SameSlot(rows[i], a) ==> after[i] == rows[i])
  {
    var added := rows + [a.(isCurrent := true)];
    forall i | 0 <= i < |rows| ensures added[i].id != a.id {
      assert added[i] == rows[i];
    }
  }

  lemma CreationKeepsOneCurrent(rows: seq<Artifact>, a: Artifact)
    requires DistinctIds(rows) && OneCurrent(rows) && Created(rows, a).Some?
    ensures DistinctIds(Created(rows, a).value) && OneCurrent(Created(rows, a).value)
  {
    CreationSettlesSlot(rows, a);
    var after := Created(rows, a).value;
    forall i, j | 0 <= i < j < |after| && SameSlot(after[i], after[j])
      ensures !(after[i].isCurrent && after[j].isCurrent)
    {
      if j < |rows| {
        assert SameSlot(rows[i], rows[j]);
      }
    }
  }

  /** Where a kept item stood before. */
  lemma {:induction false} KeepKeepsOrder(rows: seq<Artifact>, p: Artifact -> bool, i: nat, j: nat)
    returns (a: nat, b: nat)
    requires i < j < |Keep(rows, p)|
    ensures a < b < |rows| && rows[a] == Keep(rows, p)[i] && rows[b] == Keep(rows, p)[j]
  {
    if p(rows[0]) {
      if i == 0 {
        a := 0;
        KeepMembers(rows[1..], p, Keep(rows[1..], p)[j - 1]);
        b :| 0 < b < |rows| && rows[b] == Keep(rows[1..], p)[j - 1];
      } else {
        a, b := KeepKeepsOrder(rows[1..], p, i - 1, j - 1);
        a, b := a + 1, b + 1;
      }
    } else {
      a, b := KeepKeepsOrder(rows[1..], p, i, j);
      a, b := a + 1, b + 1;
    }
  }

  lemma KeepKeepsOneCurrent(rows: seq<Artifact>, p: Artifact -> bool)
    requires DistinctIds(rows) && OneCurrent(rows)
    ensures DistinctIds(Keep(rows, p)) && OneCurrent(Keep(rows, p))
  {
    var kept := Keep(rows, p);
    forall i, j | 0 <= i < j < |kept|
      ensures kept[i].id != kept[j].id && (SameSlot(kept[i], kept[j]) ==> !(kept[i].isCurrent && kept[j].isCurrent))
    {
      var a, b := KeepKeepsOrder(rows, p, i, j);
    }
  }

  datatype Operation = Create(artifact: Artifact) | Delete(id: string)

  function Perform(rows: seq<Artifact>, op: Operation): seq<Artifact> {
    match op
    case Create(a) => if Created(rows, a).Some? then Created(rows, a).value else rows
    case Delete(id) => Deleted(rows, id)
  }

  function Run(rows: seq<Artifact>, ops: seq<Operation>): seq<Artifact>
    decreases |ops|
  {
    if ops == [] then rows else Perform(Run(rows, ops[..|ops| - 1]), ops[|ops| - 1])
  }

  /** Any run of creations and deletions keeps at most one current artifact per document, version and type. */
  lemma {:induction false} RunKeepsOneCurrent(ops: seq<Operation>)
    ensures DistinctIds(Run([], ops)) && OneCurrent(Run([], ops))
    decreases |ops|
  {
    if ops != [] {
      var before := Run([], ops[..|ops| - 1]);
      RunKeepsOneCurrent(ops[..|ops| - 1]);
      match ops[|ops| - 1]
      case Create(a) =>
        if Created(before, a).Some? {
          CreationKeepsOneCurrent(before, a);
        }
      case Delete(id) => KeepKeepsOneCurrent(before, OtherThan(id));
    }
  }

  // --- The two resolvers choose the same file ---

  /** Current artifacts of one type were all created at the same time. */
  ghost predicate CurrentTimesEqual(s: seq<Artifact>, kind: ArtifactType) {
    forall x, y :: x in s && y in s && x.kind == y.kind == kind && x.isCurrent && y.isCurrent ==>
                     x.createdAt == y.createdAt
  }

  /** No two others of the type were. */
  ghost predicate OtherTimesDiffer(s: seq<Artifact>, kind: ArtifactType) {
    forall x, y :: x in s && y in s && x.kind == y.kind == kind && !x.isCurrent && !y.isCurrent && x != y ==>
                     x.createdAt != y.createdAt
  }

  ghost predicate ClearOrder(s: seq<Artifact>, kinds: seq<ArtifactType>) {
    forall kind :: kind in kinds ==> CurrentTimesEqual(s, kind) && OtherTimesDiffer(s, kind)
  }

  lemma OrdersAreTotal()
    ensures TotalPreorder(NewestFirst()) && TotalPreorder(CurrentThenOldest())
  {
  }

  lemma ReleaseMembers(listed: seq<Artifact>, kind: ArtifactType, currentOnly: bool, x: Artifact)
    ensures x in ReleaseCandidates(listed)(kind, currentOnly) <==>
            x in listed && x.kind == kind && (currentOnly ==> x.isCurrent)
  {
    var ordered := Sort(listed, CurrentThenOldest());
    SortKeepsItems(listed, CurrentThenOldest());
    KeepMembers(ordered, CurrentOfKind(kind), x);
    KeepMembers(ordered, OfKind(kind), x);
    ReversedMembers(Keep(ordered, OfKind(kind)), x);
  }

  lemma ReversedMembers(s: seq<Artifact>, x: Artifact)
    ensures x in Reversed(s) <==> x in s
  {
    if x in s {
      var i :| 0 <= i < |s| && s[i] == x;
      assert Reversed(s)[|s| - 1 - i] == x;
    }
  }

  lemma SignatureMembers(listed: seq<Artifact>, kind: ArtifactType, currentOnly: bool, x: Artifact)
    ensures x in SignatureCandidates(listed)(kind, currentOnly) <==>
            x in listed && x.kind == kind && (currentOnly ==> x.isCurrent)
  {
    var kept := Keep(listed, if currentOnly then CurrentOfKind(kind) else OfKind(kind));
    SortKeepsItems(kept, NewestFirst());
    KeepMembers(listed, CurrentOfKind(kind), x);
    KeepMembers(listed, OfKind(kind), x);
  }

  /** Usable artifacts come newest first in this list. */
  ghost predicate UsableNewestFirst(s: seq<Artifact>, resolve: Resolver) {
    forall i, j :: 0 <= i < j < |s| && resolve(s[i]).Some? && resolve(s[j]).Some? ==> s[i].createdAt >= s[j].createdAt
  }

  lemma {:induction false} FirstIsNewest(s: seq<Artifact>, resolve: Resolver, x: Artifact)
    requires UsableNewestFirst(s, resolve) && x in s && resolve(x).Some?
    ensures FirstUsable(s, resolve).Some? && FirstUsable(s, resolve).value.createdAt >= x.createdAt
  {
    if resolve(s[0]).None? {
      FirstIsNewest(s[1..], resolve, x);
    }
  }

  lemma SignatureNewestFirst(listed: seq<Artifact>, kind: ArtifactType, resolve: Resolver)
    ensures UsableNewestFirst(SignatureCandidates(listed)(kind, false), resolve)
  {
    OrdersAreTotal();
    SortSorts(Keep(listed, OfKind(kind)), NewestFirst());
  }

  lemma OthersAscend(ordered: seq<Artifact>, p: Artifact -> bool, i: nat, j: nat)
    requires SortedBy(ordered, CurrentThenOldest()) && i < j < |Keep(ordered, p)|
    requires !Keep(ordered, p)[i].isCurrent && !Keep(ordered, p)[j].isCurrent
    ensures Keep(ordered, p)[i].createdAt <= Keep(ordered, p)[j].createdAt
  {
    var a, b := KeepKeepsOrder(ordered, p, i, j);
    assert CurrentThenOldest()(ordered[a], ordered[b]);
  }

  /** Unusable current artifacts aside, a list kept from this order is newest first when read backwards. */
  lemma BackwardsNewestFirst(ordered: seq<Artifact>, p: Artifact -> bool, resolve: Resolver)
    requires SortedBy(ordered, CurrentThenOldest())
    requires forall x :: x in Keep(ordered, p) && resolve(x).Some? ==> !x.isCurrent
    ensures UsableNewestFirst(Reversed(Keep(ordered, p)), resolve)
  {
    var s := Reversed(Keep(ordered, p));
    forall i, j | 0 <= i < j < |s| && resolve(s[i]).Some? && resolve(s[j]).Some?
      ensures s[i].createdAt >= s[j].createdAt
    {
      OthersAscend(ordered, p, |s| - 1 - j, |s| - 1 - i);
    }
  }

  lemma ReleaseNewestFirst(listed: seq<Artifact>, kind: ArtifactType, resolve: Resolver)
    requires forall x :: x in listed && x.kind == kind && x.isCurrent ==> resolve(x).None?
    ensures UsableNewestFirst(ReleaseCandidates(listed)(kind, false), resolve)
  {
    OrdersAreTotal();
    var ordered := Sort(listed, CurrentThenOldest());
    SortSorts(listed, CurrentThenOldest());
    SortKeepsItems(listed, CurrentThenOldest());
    forall x | x in Keep(ordered, OfKind(kind)) && resolve(x).Some? ensures !x.isCurrent {
      KeepMembers(ordered, OfKind(kind), x);
    }
    BackwardsNewestFirst(ordered, OfKind(kind), resolve);
  }

  /** Current artifacts of one time stay in listing order in both lists. */
  lemma CurrentPassesAgree(listed: seq<Artifact>, kind: ArtifactType)
    requires CurrentTimesEqual(listed, kind)
    ensures ReleaseCandidates(listed)(kind, true) == SignatureCandidates(listed)(kind, true)
  {
    var kept := Keep(listed, CurrentOfKind(kind));
    OrdersAreTotal();
    KeepOfSort(listed, CurrentThenOldest(), CurrentOfKind(kind));
    forall x | x in kept ensures x in listed && x.kind == kind && x.isCurrent {
      KeepMembers(listed, CurrentOfKind(kind), x);
    }
    SortOfEquals(kept, CurrentThenOldest());
    SortOfEquals(kept, NewestFirst());
  }

  /** With distinct creation times and no usable current artifact of the type, both fallback passes find the same. */
  lemma FallbackPassesAgree(listed: seq<Artifact>, kind: ArtifactType, resolve: Resolver)
    requires OtherTimesDiffer(listed, kind)
    requires FirstUsable(ReleaseCandidates(listed)(kind, true), resolve).None?
    ensures FirstUsable(ReleaseCandidates(listed)(kind, false), resolve)
         == FirstUsable(SignatureCandidates(listed)(kind, false), resolve)
  {
    var a, b := ReleaseCandidates(listed)(kind, false), SignatureCandidates(listed)(kind, false);
    FirstIsUsable(ReleaseCandidates(listed)(kind, true), resolve);
    forall x | x in listed && x.kind == kind && x.isCurrent ensures resolve(x).None? {
      ReleaseMembers(listed, kind, true, x);
    }
    ReleaseNewestFirst(listed, kind, resolve);
    SignatureNewestFirst(listed, kind, resolve);
    SameNewest(listed, kind, a, b, resolve);
  }

  lemma SameNewest(listed: seq<Artifact>, kind: ArtifactType, a: seq<Artifact>, b: seq<Artifact>, resolve: Resolver)
    requires OtherTimesDiffer(listed, kind)
    requires forall x :: x in listed && x.kind == kind && x.isCurrent ==> resolve(x).None?
    requires a == ReleaseCandidates(listed)(kind, false) && b == SignatureCandidates(listed)(kind, false)
    requires UsableNewestFirst(a, resolve) && UsableNewestFirst(b, resolve)
    ensures FirstUsable(a, resolve) == FirstUsable(b, resolve)
  {
    FirstIsUsable(a, resolve);
    FirstIsUsable(b, resolve);
    if FirstUsable(a, resolve).Some? {
      var x := FirstUsable(a, resolve).value;
      ReleaseMembers(listed, kind, false, x);
      SignatureMembers(listed, kind, false, x);
      FirstIsNewest(b, resolve, x);
    }
    if FirstUsable(b, resolve).Some? {
      var y := FirstUsable(b, resolve).value;
      ReleaseMembers(listed, kind, false, y);
      SignatureMembers(listed, kind, false, y);
      FirstIsNewest(a, resolve, y);
    }
  }

  lemma {:induction false} CurrentPicksAgree(listed: seq<Artifact>, kinds: seq<ArtifactType>, resolve: Resolver)
    requires ClearOrder(listed, kinds)
    ensures Pick(ReleaseCandidates(listed), kinds, true, resolve)
            == Pick(SignatureCandidates(listed), kinds, true, resolve)
  {
    if kinds != [] {
      CurrentPassesAgree(listed, kinds[0]);
      CurrentPicksAgree(listed, kinds[1..], resolve);
    }
  }

  lemma {:induction false} FallbackPicksAgree(listed: seq<Artifact>, kinds: seq<ArtifactType>, resolve: Resolver)
    requires ClearOrder(listed, kinds) && Pick(ReleaseCandidates(listed), kinds, true, resolve).None?
    ensures Pick(ReleaseCandidates(listed), kinds, false, resolve)
         == Pick(SignatureCandidates(listed), kinds, false, resolve)
  {
    if kinds != [] {
      FallbackPassesAgree(listed, kinds[0], resolve);
      FallbackPicksAgree(listed, kinds[1..], resolve);
    }
  }

  lemma ClearOrderAgrees(listed: seq<Artifact>, kinds: seq<ArtifactType>, resolve: Resolver)
    requires ClearOrder(listed, kinds)
    ensures Choose(ReleaseCandidates(listed), kinds, resolve) == Choose(SignatureCandidates(listed), kinds, resolve)
  {
    CurrentPicksAgree(listed, kinds, resolve);
    if Pick(ReleaseCandidates(listed), kinds, true, resolve).None? {
      FallbackPicksAgree(listed, kinds, resolve);
    }
  }

  // --- Which artifact is chosen, in terms of the listing ---

  /** An artifact a look-up may return: listed, of a type looked for, with a file that can be used. */
  ghost predicate IsCandidate(a: Artifact, listed: seq<Artifact>, kinds: seq<ArtifactType>, resolve: Resolver) {
    a in listed && a.kind in kinds && resolve(a).Some?
  }

  /** The place of a type in the order of priority. */
  function Rank(kinds: seq<ArtifactType>, kind: ArtifactType): nat {
    if kinds == [] || kinds[0] == kind then 0 else 1 + Rank(kinds[1..], kind)
  }

  /** Current before superseded, then the type of higher priority, and within one type by time. */
  ghost predicate NotWorse(a: Artifact, b: Artifact, kinds: seq<ArtifactType>, oldestCurrent: bool) {
    if a.isCurrent != b.isCurrent then a.isCurrent
    else if a.kind != b.kind then Rank(kinds, a.kind) <= Rank(kinds, b.kind)
    else if a.isCurrent && oldestCurrent then a.createdAt <= b.createdAt
    else a.createdAt >= b.createdAt
  }

  /** The artifact chosen, if there is any candidate, is one that no candidate is better than. */
  ghost predicate IsBest(found: Option<Artifact>, listed: seq<Artifact>, kinds: seq<ArtifactType>, resolve: Resolver,
                         oldestCurrent: bool) {
    if found.None? then forall b :: !IsCandidate(b, listed, kinds, resolve)
    else
      && IsCandidate(found.value, listed, kinds, resolve)
      && forall b :: IsCandidate(b, listed, kinds, resolve) ==> NotWorse(found.value, b, kinds, oldestCurrent)
  }

  /** Candidates of one type in one pass, and what may be said of the first of them that can be used. */
  ghost predicate FirstIsBest(candidates: Candidates, listed: seq<Artifact>, kind: ArtifactType, currentOnly: bool,
                              resolve: Resolver, oldestCurrent: bool) {
    var found := FirstUsable(candidates(kind, currentOnly), resolve);
    if found.None? then
      forall b :: b in listed && b.kind == kind && (currentOnly ==> b.isCurrent) ==> resolve(b).None?
    else
      var a := found.value;
      && a in listed && a.kind == kind && (currentOnly ==> a.isCurrent) && resolve(a).Some?
      && forall b :: b in listed && b.kind == kind && resolve(b).Some? && b.isCurrent == a.isCurrent ==>
           if a.isCurrent && oldestCurrent then a.createdAt <= b.createdAt else a.createdAt >= b.createdAt
  }

  lemma {:induction false} PickedIsBest(candidates: Candidates, listed: seq<Artifact>, kinds: seq<ArtifactType>,
                                        currentOnly: bool, resolve: Resolver, oldestCurrent: bool)
    requires forall kind :: FirstIsBest(candidates, listed, kind, currentOnly, resolve, oldestCurrent)
    ensures var found := Pick(candidates, kinds, currentOnly, resolve);
            if found.None? then
              forall b :: IsCandidate(b, listed, kinds, resolve) && currentOnly ==> !b.isCurrent
            else
              && IsCandidate(found.value, listed, kinds, resolve) && (currentOnly ==> found.value.isCurrent)
              && forall b :: IsCandidate(b, listed, kinds, resolve) && b.isCurrent == found.value.isCurrent ==>
                   NotWorse(found.value, b, kinds, oldestCurrent)
    ensures Pick(candidates, kinds, currentOnly, resolve).None? && !currentOnly ==>
              forall b :: !IsCandidate(b, listed, kinds, resolve)
  {
    if kinds != [] {
      assert FirstIsBest(candidates, listed, kinds[0], currentOnly, resolve, oldestCurrent);
      PickedIsBest(candidates, listed, kinds[1..], currentOnly, resolve, oldestCurrent);
      CandidatesSplit(listed, kinds, resolve);
    }
  }

  lemma CandidatesSplit(listed: seq<Artifact>, kinds: seq<ArtifactType>, resolve: Resolver)
    requires kinds != []
    ensures forall b {:trigger IsCandidate(b, listed, kinds, resolve)} :: IsCandidate(b, listed, kinds, resolve) ==>
              if b.kind == kinds[0] then b in listed && resolve(b).Some?
              else IsCandidate(b, listed, kinds[1..], resolve)
    ensures forall b {:trigger IsCandidate(b, listed, kinds[1..], resolve)} ::
              IsCandidate(b, listed, kinds[1..], resolve) ==> IsCandidate(b, listed, kinds, resolve)
  {
    assert forall kind :: kind in kinds <==> kind == kinds[0] || kind in kinds[1..];
  }

  lemma ReleaseFirstIsBest(listed: seq<Artifact>, kind: ArtifactType, currentOnly: bool, resolve: Resolver)
    requires !currentOnly ==> forall x :: x in listed && x.kind == kind && x.isCurrent ==> resolve(x).None?
    ensures FirstIsBest(ReleaseCandidates(listed), listed, kind, currentOnly, resolve, true)
  {
    var s := ReleaseCandidates(listed)(kind, currentOnly);
    FirstIsUsable(s, resolve);
    forall x ensures x in s <==> x in listed && x.kind == kind && (currentOnly ==> x.isCurrent) {
      ReleaseMembers(listed, kind, currentOnly, x);
    }
    if currentOnly {
      forall b | b in s && resolve(b).Some? ensures FirstUsable(s, resolve).value.createdAt <= b.createdAt {
        CurrentOldestFirst(listed, kind);
        FirstIsOldest(s, resolve, b);
      }
    } else {
      ReleaseNewestFirst(listed, kind, resolve);
      forall b | b in s && resolve(b).Some? ensures FirstUsable(s, resolve).value.createdAt >= b.createdAt {
        FirstIsNewest(s, resolve, b);
      }
    }
  }

  ghost predicate ByAge(s: seq<Artifact>) {
    forall i, j :: 0 <= i < j < |s| ==> s[i].createdAt <= s[j].createdAt
  }

  lemma CurrentOldestFirst(listed: seq<Artifact>, kind: ArtifactType)
    ensures ByAge(ReleaseCandidates(listed)(kind, true))
  {
    var ordered := Sort(listed, CurrentThenOldest());
    var s := Keep(ordered, CurrentOfKind(kind));
    OrdersAreTotal();
    SortSorts(listed, CurrentThenOldest());
    forall i, j | 0 <= i < j < |s| ensures s[i].createdAt <= s[j].createdAt {
      var a, b := KeepKeepsOrder(ordered, CurrentOfKind(kind), i, j);
      assert CurrentThenOldest()(ordered[a], ordered[b]);
      KeepMembers(ordered, CurrentOfKind(kind), s[i]);
      KeepMembers(ordered, CurrentOfKind(kind), s[j]);
    }
  }

  lemma {:induction false} FirstIsOldest(s: seq<Artifact>, resolve: Resolver, x: Artifact)
    requires ByAge(s) && x in s && resolve(x).Some?
    ensures FirstUsable(s, resolve).Some? && FirstUsable(s, resolve).value.createdAt <= x.createdAt
  {
    if resolve(s[0]).None? {
      assert forall i :: 0 <= i < |s[1..]| ==> s[1..][i] == s[i + 1];
      FirstIsOldest(s[1..], resolve, x);
    } else {
      var i :| 0 <= i < |s| && s[i] == x;
      assert i == 0 || s[0].createdAt <= s[i].createdAt;
    }
  }

  lemma SignatureFirstIsBest(listed: seq<Artifact>, kind: ArtifactType, currentOnly: bool, resolve: Resolver)
    ensures FirstIsBest(SignatureCandidates(listed), listed, kind, currentOnly, resolve, false)
  {
    var p := if currentOnly then CurrentOfKind(kind) else OfKind(kind);
    var s := SignatureCandidates(listed)(kind, currentOnly);
    FirstIsUsable(s, resolve);
    OrdersAreTotal();
    SortSorts(Keep(listed, p), NewestFirst());
    forall x ensures x in s <==> x in listed && x.kind == kind && (currentOnly ==> x.isCurrent) {
      SignatureMembers(listed, kind, currentOnly, x);
    }
    forall b | b in s && resolve(b).Some? ensures FirstUsable(s, resolve).value.createdAt >= b.createdAt {
      FirstIsNewest(s, resolve, b);
    }
  }

  /** Releasing: current before superseded, types in order, the oldest current one, the newest superseded one. */
  lemma ReleaseChoosesBest(listed: seq<Artifact>, kinds: seq<ArtifactType>, resolve: Resolver)
    ensures IsBest(Choose(ReleaseCandidates(listed), kinds, resolve), listed, kinds, resolve, true)
  {
    forall kind ensures FirstIsBest(ReleaseCandidates(listed), listed, kind, true, resolve, true) {
      ReleaseFirstIsBest(listed, kind, true, resolve);
    }
    PickedIsBest(ReleaseCandidates(listed), listed, kinds, true, resolve, true);
    if Pick(ReleaseCandidates(listed), kinds, true, resolve).None? {
      FallbackIsBest(listed, kinds, resolve);
    }
  }

  /** If no current candidate can be used, the second pass finds the best of the others. */
  lemma {:induction false} FallbackIsBest(listed: seq<Artifact>, kinds: seq<ArtifactType>, resolve: Resolver)
    requires forall b :: IsCandidate(b, listed, kinds, resolve) ==> !b.isCurrent
    ensures IsBest(Pick(ReleaseCandidates(listed), kinds, false, resolve), listed, kinds, resolve, true)
  {
    if kinds != [] {
      forall x | x in listed && x.kind == kinds[0] && x.isCurrent ensures resolve(x).None? {
        assert IsCandidate(x, listed, kinds, resolve) ==> !x.isCurrent;
      }
      ReleaseFirstIsBest(listed, kinds[0], false, resolve);
      CandidatesSplit(listed, kinds, resolve);
      FallbackIsBest(listed, kinds[1..], resolve);
    }
  }

  /** Signing: current before superseded, types in order, and always the newest. */
  lemma SignatureChoosesBest(listed: seq<Artifact>, kinds: seq<ArtifactType>, resolve: Resolver)
    ensures IsBest(Choose(SignatureCandidates(listed), kinds, resolve), listed, kinds, resolve, false)
  {
    forall kind, only ensures FirstIsBest(SignatureCandidates(listed), listed, kind, only, resolve, false) {
      SignatureFirstIsBest(listed, kind, only, resolve);
    }
    PickedIsBest(SignatureCandidates(listed), listed, kinds, true, resolve, false);
    PickedIsBest(SignatureCandidates(listed), listed, kinds, false, resolve, false);
  }

  /** Which types a transition may sign: from review or approval on only what was signed before, out of editing the
      source PDF as well, and otherwise the released one too. */
  lemma SignableTypes(t: Transition, kind: ArtifactType)
    ensures kind in SignaturePriority(t) <==>
            || kind == SignedPdf
            || (kind == SourcePdf && t != ReviewToApproval && t != ApprovalToApproved)
            || (kind == ReleasedPdf && t == OtherTransition)
    ensures Rank(SignaturePriority(t), SignedPdf) == 0
    ensures t == OtherTransition ==> Rank(SignaturePriority(t), SourcePdf) < Rank(SignaturePriority(t), ReleasedPdf)
  {
  }

  /** The types a release looks for, in this order. */
  lemma ReleasableTypes(kind: ArtifactType)
    ensures kind in DEFAULT_PRIORITY <==> kind in {SignedPdf, SourcePdf, ReleasedPdf}
    ensures Rank(DEFAULT_PRIORITY, SignedPdf) < Rank(DEFAULT_PRIORITY, SourcePdf) < Rank(DEFAULT_PRIORITY, ReleasedPdf)
  {
  }

  /** Deleting removes the artifact of that id and no other. */
  lemma DeletionRemovesOneId(rows: seq<Artifact>, id: string)
    ensures forall a :: a in Deleted(rows, id) <==> a in rows && a.id != id
    ensures !HasId(rows, id) ==> Deleted(rows, id) == rows
  {
    forall a ensures a in Deleted(rows, id) <==> a in rows && a.id != id {
      KeepMembers(rows, OtherThan(id), a);
    }
    if !HasId(rows, id) {
      KeepAll(rows, OtherThan(id));
    }
  }

  /** What is listed: the version's artifacts, the oldest first. */
  lemma ListedOldestFirst(rows: seq<Artifact>, documentId: string, version: int)
    ensures var listed := ListArtifacts(rows, documentId, version);
            && (forall x :: x in listed <==> x in rows && x.documentId == documentId && x.version == version)
            && forall i, j :: 0 <= i < j < |listed| ==> listed[i].createdAt <= listed[j].createdAt
  {
    var ofVersion := Keep(rows, OfVersion(documentId, version));
    SortKeepsItems(ofVersion, OldestFirst());
    forall x ensures x in ofVersion <==> x in rows && x.documentId == documentId && x.version == version {
      KeepMembers(rows, OfVersion(documentId, version), x);
    }
    SortSorts(ofVersion, OldestFirst());
    assert forall x, y :: OldestFirst()(x, y) <==> x.createdAt <= y.createdAt;
  }

  // --- What a run leaves in a slot ---

  /** The same document, version and type. */
  ghost predicate OneSlot(a: Artifact, b: Artifact) {
    a.documentId == b.documentId && a.version == b.version && a.kind == b.kind
  }

  /** Marking makes the one artifact current and every other one of its slot not; nothing else changes. */
  lemma MarkingByFields(rows: seq<Artifact>, a: Artifact, i: nat)
    requires i < |rows|
    ensures Marked(rows, a)[i] == rows[i].(isCurrent := rows[i].id == a.id
                                                        || (rows[i].isCurrent && !OneSlot(rows[i], a)))
  {
  }

  /** Creating is refused exactly for an id that is taken; else the artifact comes behind the others, and is current. */
  lemma CreationByFields(rows: seq<Artifact>, a: Artifact)
    ensures var r := Created(rows, a);
            && (r.None? <==> exists x :: x in rows && x.id == a.id)
            && (r.Some? ==> && |r.value| == |rows| + 1 && r.value[|rows|] == a.(isCurrent := true)
                            && forall i :: 0 <= i < |rows| ==>
                                 r.value[i] == rows[i].(isCurrent := rows[i].isCurrent && !OneSlot(rows[i], a)))
  {
    if i :| 0 <= i < |rows| && rows[i].id == a.id {
      assert rows[i] in rows;
    }
  }

  /** The artifact created last in a slot stays current until it is deleted. */
  lemma {:induction false} LastCreatedIsCurrent(rows: seq<Artifact>, ops: seq<Operation>, k: nat)
    requires k < |ops| && ops[k].Create? && forall x :: x in Run(rows, ops[..k]) ==> x.id != ops[k].artifact.id
    requires forall i :: k < i < |ops| && ops[i].Delete? ==> ops[i].id != ops[k].artifact.id
    requires forall i :: k < i < |ops| && ops[i].Create? ==> !OneSlot(ops[i].artifact, ops[k].artifact)
    ensures ops[k].artifact.(isCurrent := true) in Run(rows, ops)
    decreases |ops|
  {
    var front, a := ops[..|ops| - 1], ops[k].artifact.(isCurrent := true);
    if k == |ops| - 1 {
      assert front == ops[..k];
      CreationByFields(Run(rows, front), ops[k].artifact);
      assert Run(rows, ops)[|Run(rows, front)|] == a;
    } else {
      assert front[..k] == ops[..k];
      LastCreatedIsCurrent(rows, front, k);
      OtherOpsKeepCurrent(Run(rows, front), ops[|ops| - 1], a);
    }
  }

  lemma OtherOpsKeepCurrent(rows: seq<Artifact>, op: Operation, a: Artifact)
    requires a in rows && a.isCurrent && (op.Delete? ==> op.id != a.id) && (op.Create? ==> !OneSlot(op.artifact, a))
    ensures a in Perform(rows, op)
  {
    match op
    case Create(created) =>
      var i :| 0 <= i < |rows| && rows[i] == a;
      CreationByFields(rows, created);
      if Created(rows, created).Some? {
        assert Created(rows, created).value[i] == a;
      }
    case Delete(id) => DeletionRemovesOneId(rows, id);
  }

  /** A deleted id is gone until it is created again. */
  lemma {:induction false} DeletedStaysGone(rows: seq<Artifact>, ops: seq<Operation>, k: nat)
    requires k < |ops| && ops[k].Delete?
    requires forall i :: k < i < |ops| && ops[i].Create? ==> ops[i].artifact.id != ops[k].id
    ensures forall x :: x in Run(rows, ops) ==> x.id != ops[k].id
    decreases |ops|
  {
    var front, id := ops[..|ops| - 1], ops[k].id;
    if k == |ops| - 1 {
      assert front == ops[..k];
      DeletionRemovesOneId(Run(rows, front), id);
    } else {
      DeletedStaysGone(rows, front, k);
      OtherOpsKeepAway(Run(rows, front), ops[|ops| - 1], id);
    }
  }

  lemma OtherOpsKeepAway(rows: seq<Artifact>, op: Operation, id: string)
    requires (forall x :: x in rows ==> x.id != id) && (op.Create? ==> op.artifact.id != id)
    ensures forall x :: x in Perform(rows, op) ==> x.id != id
  {
    match op
    case Create(created) =>
      CreationByFields(rows, created);
      forall x | x in Perform(rows, op) ensures x.id != id {
        var i :| 0 <= i < |Perform(rows, op)| && Perform(rows, op)[i] == x;
        assert i < |rows| ==> rows[i] in rows;
      }
    case Delete(deleted) => DeletionRemovesOneId(rows, deleted);
  }

  // --- Without a clear order they differ ---

  /** Only these two files can be read. */
  function Either(x: Artifact, y: Artifact): Artifact -> bool {
    (a: Artifact) => a == x || a == y
  }

  function ResolvesOnly(x: Artifact, y: Artifact): Resolver {
    (a: Artifact) => if a == x || a == y then Some(a.storageKey) else None
  }

  lemma {:induction false} FirstUsableOfKept(s: seq<Artifact>, x: Artifact, y: Artifact)
    ensures var usable := Keep(s, Either(x, y));
            FirstUsable(s, ResolvesOnly(x, y)) == if usable == [] then None else Some(usable[0])
  {
    if s != [] {
      FirstUsableOfKept(s[1..], x, y);
      KeepSplits(s, Either(x, y));
    }
  }

  /** Two of a listing without repetitions are kept as a pair, in listing order. */
  lemma PairIsKept(listed: seq<Artifact>, i: nat, j: nat)
    requires DistinctIds(listed) && i < j < |listed|
    ensures Keep(listed, Either(listed[i], listed[j])) == [listed[i], listed[j]]
  {
    forall k | 0 <= k < |listed| ensures Either(listed[i], listed[j])(listed[k]) <==> k == i || k == j {
      assert k < i || k == i || i < k;
      assert k < j || k == j || j < k;
    }
    KeepsTwo(listed, Either(listed[i], listed[j]), i, j);
  }

  /** A pair under a stable order. */
  lemma OrderedPair(listed: seq<Artifact>, i: nat, j: nat, le: (Artifact, Artifact) -> bool)
    requires DistinctIds(listed) && i < j < |listed| && TotalPreorder(le)
    ensures Keep(Sort(listed, le), Either(listed[i], listed[j]))
         == if le(listed[i], listed[j]) then [listed[i], listed[j]] else [listed[j], listed[i]]
  {
    var x, y := listed[i], listed[j];
    KeepOfSort(listed, le, Either(x, y));
    PairIsKept(listed, i, j);
    SortPair(x, y, le);
  }

  /** What the release order takes first among two current, or two other, artifacts of a type. */
  lemma ReleaseTakes(listed: seq<Artifact>, i: nat, j: nat, currentOnly: bool)
    requires DistinctIds(listed) && i < j < |listed|
    requires listed[i].kind == listed[j].kind && listed[i].isCurrent == listed[j].isCurrent == currentOnly
    ensures var x, y := listed[i], listed[j];
            FirstUsable(ReleaseCandidates(listed)(x.kind, currentOnly), ResolvesOnly(x, y))
            == Some(if (x.createdAt <= y.createdAt) == currentOnly then x else y)
  {
    var x, y := listed[i], listed[j];
    var ordered := Sort(listed, CurrentThenOldest());
    OrdersAreTotal();
    OrderedPair(listed, i, j, CurrentThenOldest());
    if currentOnly {
      FirstOfPair(ordered, CurrentOfKind(x.kind), x, y);
    } else {
      LastOfPair(ordered, OfKind(x.kind), x, y);
    }
  }

  lemma FirstOfPair(ordered: seq<Artifact>, p: Artifact -> bool, x: Artifact, y: Artifact)
    requires p(x) && p(y) && |Keep(ordered, Either(x, y))| == 2
    ensures FirstUsable(Keep(ordered, p), ResolvesOnly(x, y)) == Some(Keep(ordered, Either(x, y))[0])
  {
    KeepOfKeep(ordered, p, Either(x, y));
    FirstUsableOfKept(Keep(ordered, p), x, y);
  }

  lemma LastOfPair(ordered: seq<Artifact>, p: Artifact -> bool, x: Artifact, y: Artifact)
    requires p(x) && p(y) && |Keep(ordered, Either(x, y))| == 2
    ensures FirstUsable(Reversed(Keep(ordered, p)), ResolvesOnly(x, y)) == Some(Keep(ordered, Either(x, y))[1])
  {
    KeepOfKeep(ordered, p, Either(x, y));
    KeepOfReversed(Keep(ordered, p), Either(x, y));
    FirstUsableOfKept(Reversed(Keep(ordered, p)), x, y);
  }

  /** What the signature order takes first. */
  lemma SignatureTakes(listed: seq<Artifact>, i: nat, j: nat, currentOnly: bool)
    requires DistinctIds(listed) && i < j < |listed|
    requires listed[i].kind == listed[j].kind && listed[i].isCurrent == listed[j].isCurrent == currentOnly
    ensures var x, y := listed[i], listed[j];
            FirstUsable(SignatureCandidates(listed)(x.kind, currentOnly), ResolvesOnly(x, y))
            == Some(if x.createdAt >= y.createdAt then x else y)
  {
    var x, y := listed[i], listed[j];
    var p := if currentOnly then CurrentOfKind(x.kind) else OfKind(x.kind);
    OrdersAreTotal();
    KeepOfKeep(listed, p, Either(x, y));
    PairIsKept(listed, i, j);
    KeepOfSort(Keep(listed, p), NewestFirst(), Either(x, y));
    SortPair(x, y, NewestFirst());
    FirstUsableOfKept(Sort(Keep(listed, p), NewestFirst()), x, y);
  }

  lemma {:induction false} KeepOfReversed(s: seq<Artifact>, p: Artifact -> bool)
    ensures Keep(Reversed(s), p) == Reversed(Keep(s, p))
  {
    if s != [] {
      KeepOfReversed(s[1..], p);
      ReversedCons(s[0], s[1..]);
      assert s == [s[0]] + s[1..];
      KeepConcat(Reversed(s[1..]), [s[0]], p);
      KeepSplits(s, p);
      KeptAlone(s[0], p);
      ReversedCons(s[0], Keep(s[1..], p));
    }
  }

  lemma ReversedCons(a: Artifact, s: seq<Artifact>)
    ensures Reversed([a] + s) == Reversed(s) + [a]
  {
  }

  lemma KeptAlone(a: Artifact, p: Artifact -> bool)
    ensures Keep([a], p) == if p(a) then [a] else []
  {
    assert [a][1..] == [];
  }

  /** A pass over the types finds what their one type with a usable file gives. */
  lemma {:induction false} PickOnly(candidates: Candidates, kinds: seq<ArtifactType>, kind: ArtifactType,
                                    currentOnly: bool, resolve: Resolver)
    requires kind in kinds && FirstUsable(candidates(kind, currentOnly), resolve).Some?
    requires forall k :: k != kind ==> FirstUsable(candidates(k, currentOnly), resolve).None?
    ensures Pick(candidates, kinds, currentOnly, resolve) == FirstUsable(candidates(kind, currentOnly), resolve)
  {
    if kinds[0] != kind {
      PickOnly(candidates, kinds[1..], kind, currentOnly, resolve);
    }
  }

  lemma {:induction false} PickNothing(candidates: Candidates, kinds: seq<ArtifactType>, currentOnly: bool,
                                       resolve: Resolver)
    requires forall k :: FirstUsable(candidates(k, currentOnly), resolve).None?
    ensures Pick(candidates, kinds, currentOnly, resolve).None?
  {
    if kinds != [] {
      PickNothing(candidates, kinds[1..], currentOnly, resolve);
    }
  }

  /** Candidates of another type, or current ones if neither artifact is current, cannot be read. */
  lemma OthersAreUnusable(listed: seq<Artifact>, x: Artifact, y: Artifact, kind: ArtifactType, currentOnly: bool)
    requires x.kind == y.kind && x.isCurrent == y.isCurrent && (kind == x.kind ==> currentOnly && !x.isCurrent)
    ensures FirstUsable(ReleaseCandidates(listed)(kind, currentOnly), ResolvesOnly(x, y)).None?
    ensures FirstUsable(SignatureCandidates(listed)(kind, currentOnly), ResolvesOnly(x, y)).None?
  {
    FirstIsUsable(ReleaseCandidates(listed)(kind, currentOnly), ResolvesOnly(x, y));
    FirstIsUsable(SignatureCandidates(listed)(kind, currentOnly), ResolvesOnly(x, y));
    ReleaseMembers(listed, kind, currentOnly, x);
    ReleaseMembers(listed, kind, currentOnly, y);
    SignatureMembers(listed, kind, currentOnly, x);
    SignatureMembers(listed, kind, currentOnly, y);
  }

  /** If only two current, or only two other, artifacts of a type can be read, the choice is between these two. */
  lemma ChoiceOfPair(listed: seq<Artifact>, kinds: seq<ArtifactType>, i: nat, j: nat, current: bool)
    requires DistinctIds(listed) && i < j < |listed| && listed[i].kind == listed[j].kind
    requires listed[i].kind in kinds
    requires listed[i].isCurrent == listed[j].isCurrent == current
    ensures var x, y := listed[i], listed[j];
            && Choose(ReleaseCandidates(listed), kinds, ResolvesOnly(x, y))
               == Some(if (x.createdAt <= y.createdAt) == current then x else y)
            && Choose(SignatureCandidates(listed), kinds, ResolvesOnly(x, y))
               == Some(if x.createdAt >= y.createdAt then x else y)
  {
    var x, y := listed[i], listed[j];
    forall k | k != x.kind
      ensures FirstUsable(ReleaseCandidates(listed)(k, current), ResolvesOnly(x, y)).None?
      ensures FirstUsable(SignatureCandidates(listed)(k, current), ResolvesOnly(x, y)).None?
    {
      OthersAreUnusable(listed, x, y, k, current);
    }
    ReleaseTakes(listed, i, j, current);
    SignatureTakes(listed, i, j, current);
    PickOnly(ReleaseCandidates(listed), kinds, x.kind, current, ResolvesOnly(x, y));
    PickOnly(SignatureCandidates(listed), kinds, x.kind, current, ResolvesOnly(x, y));
    if !current {
      NoCurrentIsUsable(listed, kinds, x, y);
    }
  }

  lemma NoCurrentIsUsable(listed: seq<Artifact>, kinds: seq<ArtifactType>, x: Artifact, y: Artifact)
    requires x.kind == y.kind && !x.isCurrent && !y.isCurrent
    ensures Pick(ReleaseCandidates(listed), kinds, true, ResolvesOnly(x, y)).None?
    ensures Pick(SignatureCandidates(listed), kinds, true, ResolvesOnly(x, y)).None?
  {
    forall k
      ensures FirstUsable(ReleaseCandidates(listed)(k, true), ResolvesOnly(x, y)).None?
      ensures FirstUsable(SignatureCandidates(listed)(k, true), ResolvesOnly(x, y)).None?
    {
      OthersAreUnusable(listed, x, y, k, true);
    }
    PickNothing(ReleaseCandidates(listed), kinds, true, ResolvesOnly(x, y));
    PickNothing(SignatureCandidates(listed), kinds, true, ResolvesOnly(x, y));
  }

  /** Whatever files can be read, both look-ups choose the same artifact. */
  ghost predicate AlwaysAgree(listed: seq<Artifact>, kinds: seq<ArtifactType>) {
    forall resolve: Resolver ::
      Choose(ReleaseCandidates(listed), kinds, resolve) == Choose(SignatureCandidates(listed), kinds, resolve)
  }

  lemma AgreeingMeansClearOrder(listed: seq<Artifact>, kinds: seq<ArtifactType>, x: Artifact, y: Artifact)
    requires DistinctIds(listed) && AlwaysAgree(listed, kinds)
    requires x in listed && y in listed && x != y && x.kind == y.kind && x.kind in kinds && x.isCurrent == y.isCurrent
    ensures x.createdAt == y.createdAt <==> x.isCurrent
  {
    var a :| 0 <= a < |listed| && listed[a] == x;
    var b :| 0 <= b < |listed| && listed[b] == y;
    var i, j := if a < b then a else b, if a < b then b else a;
    ChoiceOfPair(listed, kinds, i, j, x.isCurrent);
    assert Choose(ReleaseCandidates(listed), kinds, ResolvesOnly(listed[i], listed[j]))
        == Choose(SignatureCandidates(listed), kinds, ResolvesOnly(listed[i], listed[j]));
  }

  /**
   The exact condition, on the listing: whatever files can be read, releasing and signing choose the same artifact if
   and only if of every type looked for, the current artifacts are all of one time and no two others are.
   */
  lemma ChoicesAgree(listed: seq<Artifact>, kinds: seq<ArtifactType>)
    requires DistinctIds(listed)
    ensures AlwaysAgree(listed, kinds) <==> ClearOrder(listed, kinds)
  {
    if ClearOrder(listed, kinds) {
      forall resolve: Resolver
        ensures Choose(ReleaseCandidates(listed), kinds, resolve) == Choose(SignatureCandidates(listed), kinds, resolve)
      {
        ClearOrderAgrees(listed, kinds, resolve);
      }
    }
    if AlwaysAgree(listed, kinds) {
      forall x, y | x in listed && y in listed && x != y && x.kind == y.kind && x.kind in kinds
                    && x.isCurrent == y.isCurrent
        ensures x.createdAt == y.createdAt <==> x.isCurrent
      {
        AgreeingMeansClearOrder(listed, kinds, x, y);
      }
    }
  }

  lemma ListedMembers(rows: seq<Artifact>, documentId: string, version: int)
    ensures forall x :: x in ListArtifacts(rows, documentId, version) <==>
              x in rows && x.documentId == documentId && x.version == version
  {
    SortKeepsItems(Keep(rows, OfVersion(documentId, version)), OldestFirst());
    forall x ensures x in ListArtifacts(rows, documentId, version) <==>
                     x in rows && x.documentId == documentId && x.version == version {
      KeepMembers(rows, OfVersion(documentId, version), x);
    }
  }

  lemma ListingKeepsIds(rows: seq<Artifact>, documentId: string, version: int)
    requires DistinctIds(rows) && OneCurrent(rows)
    ensures var listed := ListArtifacts(rows, documentId, version); DistinctIds(listed) && OneCurrent(listed)
  {
    var kept := Keep(rows, OfVersion(documentId, version));
    KeepKeepsOneCurrent(rows, OfVersion(documentId, version));
    SortKeepsOneCurrent(kept, OldestFirst());
  }

  lemma SortKeepsOneCurrent(rows: seq<Artifact>, le: (Artifact, Artifact) -> bool)
    requires DistinctIds(rows) && OneCurrent(rows)
    ensures DistinctIds(Sort(rows, le)) && OneCurrent(Sort(rows, le))
  {
    var sorted := Sort(rows, le);
    SortKeepsItems(rows, le);
    DistinctByMultiset(rows, sorted);
    forall i, j | 0 <= i < j < |sorted|
      ensures sorted[i].id != sorted[j].id
      ensures SameSlot(sorted[i], sorted[j]) ==> !(sorted[i].isCurrent && sorted[j].isCurrent)
    {
      assert sorted[i] in rows && sorted[j] in rows && sorted[i] != sorted[j];
      var a :| 0 <= a < |rows| && rows[a] == sorted[i];
      var b :| 0 <= b < |rows| && rows[b] == sorted[j];
      assert a < b || b < a;
    }
  }

  lemma OneCurrentHasOneTime(listed: seq<Artifact>, kind: ArtifactType, documentId: string, version: int)
    requires OneCurrent(listed) && forall x :: x in listed ==> x.documentId == documentId && x.version == version
    ensures CurrentTimesEqual(listed, kind)
  {
    forall x, y | x in listed && y in listed && x.kind == y.kind == kind && x.isCurrent && y.isCurrent
      ensures x.createdAt == y.createdAt
    {
      var a :| 0 <= a < |listed| && listed[a] == x;
      var b :| 0 <= b < |listed| && listed[b] == y;
      assert a < b || a == b || b < a;
    }
  }

  /**
   After any run of creations and deletions, releasing and signing with the default priority choose the same artifact,
   whatever files can be read, exactly if no two superseded artifacts of a type looked for were created at one time.
   */
  lemma ResolversAgree(ops: seq<Operation>, documentId: string, version: int)
    ensures var listed := ListArtifacts(Run([], ops), documentId, version);
            AlwaysAgree(listed, SignaturePriority(OtherTransition))
            <==> forall kind :: kind in DEFAULT_PRIORITY ==> OtherTimesDiffer(listed, kind)
  {
    var rows := Run([], ops);
    RunKeepsOneCurrent(ops);
    ListedMembers(rows, documentId, version);
    ListingKeepsIds(rows, documentId, version);
    var listed := ListArtifacts(rows, documentId, version);
    forall kind ensures CurrentTimesEqual(listed, kind) {
      OneCurrentHasOneTime(listed, kind, documentId, version);
    }
    ChoicesAgree(listed, DEFAULT_PRIORITY);
  }

  // --- Failing instances of the condition ---

  /** An added artifact whose slot was not cleared yet: with two current ones, releasing takes the older
      and signing the newer. */
  lemma TwoCurrentDisagree(older: Artifact, newer: Artifact, resolve: Resolver)
    requires older.kind == newer.kind == SignedPdf && older.isCurrent && newer.isCurrent
    requires older.createdAt < newer.createdAt && resolve(older).Some? && resolve(newer).Some?
    ensures Choose(ReleaseCandidates([older, newer]), DEFAULT_PRIORITY, resolve) == Some(older)
    ensures Choose(SignatureCandidates([older, newer]), DEFAULT_PRIORITY, resolve) == Some(newer)
  {
    KeepPair(older, newer, CurrentOfKind(SignedPdf));
    SortPair(older, newer, CurrentThenOldest());
    SortPair(older, newer, NewestFirst());
  }

  /** Equal creation times: releasing takes the artifact listed last, signing the one listed first. */
  lemma EqualTimesDisagree(first: Artifact, second: Artifact, resolve: Resolver)
    requires first.kind == second.kind == SignedPdf && !first.isCurrent && !second.isCurrent
    requires first.createdAt == second.createdAt && resolve(first).Some? && resolve(second).Some?
    ensures Choose(ReleaseCandidates([first, second]), DEFAULT_PRIORITY, resolve) == Some(second)
    ensures Choose(SignatureCandidates([first, second]), DEFAULT_PRIORITY, resolve) == Some(first)
  {
    NoCurrentPick([first, second], DEFAULT_PRIORITY, resolve);
    KeepPair(first, second, OfKind(SignedPdf));
    SortPair(first, second, CurrentThenOldest());
    SortPair(first, second, NewestFirst());
    assert Reversed([first, second]) == [second, first];
    assert ReleaseCandidates([first, second])(SignedPdf, false) == Reversed([first, second]);
    assert SignatureCandidates([first, second])(SignedPdf, false) == [first, second];
  }

  lemma {:induction false} NoCurrentPick(listed: seq<Artifact>, kinds: seq<ArtifactType>, resolve: Resolver)
    requires forall x :: x in listed ==> !x.isCurrent
    ensures Pick(ReleaseCandidates(listed), kinds, true, resolve).None?
    ensures Pick(SignatureCandidates(listed), kinds, true, resolve).None?
  {
    if kinds != [] {
      NoCurrentPick(listed, kinds[1..], resolve);
      var a, b := ReleaseCandidates(listed)(kinds[0], true), SignatureCandidates(listed)(kinds[0], true);
      FirstIsUsable(a, resolve);
      FirstIsUsable(b, resolve);
      forall x ensures x !in a && x !in b {
        ReleaseMembers(listed, kinds[0], true, x);
        SignatureMembers(listed, kinds[0], true, x);
      }
    }
  }

  lemma KeepPair(a: Artifact, b: Artifact, p: Artifact -> bool)
    ensures Keep([a, b], p) == (if p(a) then [a] else []) + (if p(b) then [b] else [])
  {
    assert [a, b][1..] == [b] && [b][1..] == [];
  }

  lemma SortPair(a: Artifact, b: Artifact, le: (Artifact, Artifact) -> bool)
    ensures Sort([a, b], le) == if le(a, b) then [a, b] else [b, a]
  {
    assert [a, b][1..] == [b] && [b][1..] == [];
    assert Sort([b], le) == Insert(b, Sort([b][1..], le), le) == [b];
    assert Sort([a, b], le) == Insert(a, [b], le);
    assert Insert(a, [], le) == [a];
  }
}
