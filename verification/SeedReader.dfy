/** Legacy profile files read into relational definitions, and what that translation preserves. */
module SeedReader {
  import opened Sequences
  import opened Contracts
  import opened Text
  import opened WorkflowProfiles

  /** One entry of the legacy file, its absent fields already replaced by their defaults. */
  datatype LegacyProfile = LegacyProfile(
    profileId: string,
    profileLabel: string,
    controlClass: string,
    phases: seq<string>,
    signatureKeys: seq<string>,
    fourEyesRequired: bool,
    releaseEvidenceMode: string,
    requiresEditors: bool,
    requiresReviewers: bool,
    requiresApprovers: bool,
    allowsContentChanges: bool)

  function ControlClassNamed(text: string): Option<ControlClass> {
    if text == "CONTROLLED" then Some(Controlled)
    else if text == "CONTROLLED_SHORT" then Some(ControlledShort)
    else if text == "EXTERNAL" then Some(External)
    else if text == "RECORD" then Some(RecordClass)
    else None
  }

  function NormalizeLegacyStatus(text: string): string {
    var value := Upper(Strip(text));
    if value == StatusValue(InProgress) then StatusValue(Draft) else value
  }

  function NormalizedPhases(phases: seq<string>): (r: seq<string>)
    ensures |r| == |phases| && forall i :: 0 <= i < |r| ==> r[i] == NormalizeLegacyStatus(phases[i])
  {
    seq(|phases|, i requires 0 <= i < |phases| => NormalizeLegacyStatus(phases[i]))
  }

  // --- Signature keys, as texts with an arrow ---

  predicate ArrowAt(s: string, i: int) {
    0 <= i && i + 1 < |s| && s[i] == '-' && s[i + 1] == '>'
  }

  predicate NoArrow(s: string) {
    forall i :: 0 <= i < |s| ==> !ArrowAt(s, i)
  }

  function FirstArrow(s: string, at: nat): (r: Option<nat>)
    requires at <= |s|
    ensures r.Some? ==> at <= r.value && ArrowAt(s, r.value) && forall k :: at <= k < r.value ==> !ArrowAt(s, k)
    ensures r.None? ==> forall k :: at <= k < |s| ==> !ArrowAt(s, k)
    decreases |s| - at
  {
    if at == |s| then None else if ArrowAt(s, at) then Some(at) else FirstArrow(s, at + 1)
  }

  function Join(a: string, b: string): string {
    a + ['-', '>'] + b
  }

  datatype ParsedKey = BlankKey | BadKey | SignatureKey(text: string)

  function ParseKey(value: string): ParsedKey {
    var edge := Strip(value);
    if edge == "" then BlankKey
    else match FirstArrow(edge, 0)
      case None => BadKey
      case Some(i) => SignatureKey(Join(NormalizeLegacyStatus(edge[..i]), NormalizeLegacyStatus(edge[i + 2..])))
  }

  predicate CutsInto(edge: string, i: int, a: string, b: string) {
    && ArrowAt(edge, i) && NoArrow(edge[..i])
    && NormalizeLegacyStatus(edge[..i]) == a && NormalizeLegacyStatus(edge[i + 2..]) == b
  }

  /** The key's two sides, cut at its first arrow, are legacy spellings of these two texts. */
  ghost predicate NamesPair(value: string, a: string, b: string) {
    exists i :: CutsInto(Strip(value), i, a, b)
  }

  function KeyTexts(keys: seq<string>): set<string> {
    set k | k in keys && ParseKey(k).SignatureKey? :: ParseKey(k).text
  }

  // --- One profile ---

  function RoleForTransition(fromStatus: string, toStatus: string): Role {
    if fromStatus == StatusValue(Draft) then Editor
    else if fromStatus == StatusValue(InReview) then Reviewer
    else if fromStatus == StatusValue(InApproval) then Approver
    else if toStatus == StatusValue(Approved) then Approver
    else NoRole
  }

  function TransitionFor(phases: seq<string>, index: nat, keyTexts: set<string>, fourEyes: bool): TransitionDefinition
    requires index + 1 < |phases|
  {
    var fromStatus, toStatus := phases[index], phases[index + 1];
    TransitionDefinition(
      index + 1, StatusWord(fromStatus), StatusWord(toStatus), RoleForTransition(fromStatus, toStatus), OneOfPool,
      Join(fromStatus, toStatus) in keyTexts, fourEyes && toStatus == StatusValue(Approved), false, None, true)
  }

  function TransitionsFor(phases: seq<string>, keyTexts: set<string>, fourEyes: bool): (r: seq<TransitionDefinition>)
    requires phases != []
    ensures |r| == |phases| - 1 && forall i :: 0 <= i < |r| ==> r[i] == TransitionFor(phases, i, keyTexts, fourEyes)
  {
    seq(|phases| - 1, i requires 0 <= i < |phases| - 1 => TransitionFor(phases, i, keyTexts, fourEyes))
  }

  predicate ReadablePhases(phases: seq<string>) {
    && phases != []
    && NormalizeLegacyStatus(phases[0]) == StatusValue(Draft)
    && NormalizeLegacyStatus(phases[|phases| - 1]) == StatusValue(Approved)
  }

  predicate ReadableKeys(keys: seq<string>) {
    forall k :: k in keys ==> !ParseKey(k).BadKey?
  }

  predicate IsNamed(item: LegacyProfile) {
    Strip(item.profileId) != "" && Strip(item.profileLabel) != "" && ControlClassNamed(item.controlClass).Some?
  }

  /** What the reader itself insists on; the rest is left to the validator. */
  predicate Readable(item: LegacyProfile) {
    IsNamed(item) && ReadablePhases(item.phases) && ReadableKeys(item.signatureKeys)
  }

  function Translated(item: LegacyProfile): ProfileDefinition
    requires Readable(item)
  {
    ProfileDefinition(
      Strip(item.profileId), Strip(item.profileLabel), ControlClassNamed(item.controlClass).value,
      item.releaseEvidenceMode, item.requiresEditors, item.requiresReviewers, item.requiresApprovers,
      item.allowsContentChanges, Built(item))
  }

  function Built(item: LegacyProfile): seq<TransitionDefinition>
    requires item.phases != []
  {
    TransitionsFor(NormalizedPhases(item.phases), KeyTexts(item.signatureKeys), item.fourEyesRequired)
  }

  lemma OneMoreKey(keys: seq<string>, i: nat)
    requires i < |keys|
    ensures ReadableKeys(keys[..i + 1]) <==> ReadableKeys(keys[..i]) && !ParseKey(keys[i]).BadKey?
    ensures KeyTexts(keys[..i + 1])
            == KeyTexts(keys[..i]) + (if ParseKey(keys[i]).SignatureKey? then {ParseKey(keys[i]).text} else {})
  {
    assert keys[..i + 1] == keys[..i] + [keys[i]];
  }

  method ReadSignatureKeys(keys: seq<string>) returns (texts: Option<set<string>>)
    ensures texts == if ReadableKeys(keys) then Some(KeyTexts(keys)) else None
  {
    var found: set<string> := {};
    for i := 0 to |keys|
      invariant ReadableKeys(keys[..i])
      invariant found == KeyTexts(keys[..i])
    {
      OneMoreKey(keys, i);
      var key := ParseKey(keys[i]);
      if key.BadKey? {
        return None;
      }
      if key.SignatureKey? {
        found := found + {key.text};
      }
    }
    assert keys[..|keys|] == keys;
    texts := Some(found);
  }

  /** Normalising has already turned IN_PROGRESS into DRAFT, so the reader's remapping of the first phase never acts. */
  lemma NormalizedIsNeverInProgress(text: string)
    ensures NormalizeLegacyStatus(text) != StatusValue(InProgress)
  {
    assert |StatusValue(Draft)| != |StatusValue(InProgress)|;
  }

  method BuildTransitions(phases: seq<string>, keyTexts: set<string>, fourEyes: bool)
    returns (transitions: seq<TransitionDefinition>)
    requires phases != []
    ensures transitions == TransitionsFor(phases, keyTexts, fourEyes)
  {
    transitions := [];
    for index := 0 to |phases| - 1
      invariant transitions == TransitionsFor(phases, keyTexts, fourEyes)[..index]
    {
      transitions := transitions + [TransitionFor(phases, index, keyTexts, fourEyes)];
    }
  }

  method ParseProfile(item: LegacyProfile) returns (profile: Option<ProfileDefinition>)
    ensures profile == if Readable(item) then Some(Translated(item)) else None
  {
    if !IsNamed(item) || !ReadablePhases(item.phases) {
      return None;
    }
    var texts := ReadSignatureKeys(item.signatureKeys);
    if texts.None? {
      return None;
    }
    var phases := NormalizedPhases(item.phases);
    var transitions := BuildTransitions(phases, texts.value, item.fourEyesRequired);
    profile := Some(ProfileDefinition(
      Strip(item.profileId), Strip(item.profileLabel), ControlClassNamed(item.controlClass).value,
      item.releaseEvidenceMode, item.requiresEditors, item.requiresReviewers, item.requiresApprovers,
      item.allowsContentChanges, transitions));
  }

  // --- Cutting at the first arrow is unambiguous for a left side without one ---

  lemma JoinIsUnambiguous(a: string, b: string, c: string, d: string)
    requires Join(a, b) == Join(c, d) && NoArrow(a) && NoArrow(c)
    ensures a == c && b == d
  {
    var s := Join(a, b);
    assert ArrowAt(s, |a|) && ArrowAt(s, |c|);
    NoEarlierArrow(a, b, |c|);
    NoEarlierArrow(c, d, |a|);
    assert a == s[..|a|] && c == s[..|c|] && b == s[|a| + 2..] && d == s[|c| + 2..];
  }

  lemma NoEarlierArrow(a: string, b: string, i: nat)
    requires NoArrow(a) && ArrowAt(Join(a, b), i)
    ensures i >= |a|
  {
    if i + 1 < |a| {
      assert ArrowAt(a, i);
      assert false;
    }
  }

  lemma {:induction false} StripKeepsNoArrow(s: string)
    requires NoArrow(s)
    ensures NoArrow(Strip(s))
  {
    if s != [] {
      if IsSpace(s[0]) {
        assert forall i :: 0 <= i < |s[1..]| && ArrowAt(s[1..], i) ==> ArrowAt(s, i + 1);
        StripKeepsNoArrow(s[1..]);
      } else if IsSpace(s[|s| - 1]) {
        var front := s[..|s| - 1];
        assert forall i :: 0 <= i < |front| && ArrowAt(front, i) ==> ArrowAt(s, i);
        StripKeepsNoArrow(front);
      }
    }
  }

  lemma NormalizingKeepsNoArrow(s: string)
    requires NoArrow(s)
    ensures NoArrow(NormalizeLegacyStatus(s))
  {
    StripKeepsNoArrow(s);
    var stripped := Strip(s);
    var value := Upper(stripped);
    forall i | 0 <= i < |value| ensures !ArrowAt(value, i) {
      assert !ArrowAt(stripped, i);
    }
    StatusHasNoArrow(Draft);
  }

  lemma StatusHasNoArrow(s: DocumentStatus)
    ensures NoArrow(StatusValue(s))
  {
    assert forall i :: 0 <= i < |StatusValue(s)| ==> StatusValue(s)[i] != '>';
  }

  /** For a left side without an arrow, looking up the joined text is looking for a key that names the pair. */
  lemma KeyTextMeansPair(keys: seq<string>, a: string, b: string)
    requires NoArrow(a)
    ensures Join(a, b) in KeyTexts(keys) <==> exists k :: k in keys && NamesPair(k, a, b)
  {
    forall k ensures ParseKey(k) == SignatureKey(Join(a, b)) <==> NamesPair(k, a, b) {
      ParsedKeyNamesPair(k, a, b);
    }
  }

  lemma ParsedKeyNamesPair(k: string, a: string, b: string)
    requires NoArrow(a)
    ensures ParseKey(k) == SignatureKey(Join(a, b)) <==> NamesPair(k, a, b)
  {
    if ParseKey(k) == SignatureKey(Join(a, b)) {
      CutNamesPair(Strip(k), a, b);
    }
    if NamesPair(k, a, b) {
      var j :| CutsInto(Strip(k), j, a, b);
      CutIsParsed(k, j, a, b);
    }
  }

  lemma CutNamesPair(edge: string, a: string, b: string)
    requires NoArrow(a) && FirstArrow(edge, 0).Some?
    requires var i := FirstArrow(edge, 0).value;
             Join(NormalizeLegacyStatus(edge[..i]), NormalizeLegacyStatus(edge[i + 2..])) == Join(a, b)
    ensures CutsInto(edge, FirstArrow(edge, 0).value, a, b)
  {
    var i := FirstArrow(edge, 0).value;
    FirstCutHasNoArrow(edge, i);
    NormalizingKeepsNoArrow(edge[..i]);
    JoinIsUnambiguous(NormalizeLegacyStatus(edge[..i]), NormalizeLegacyStatus(edge[i + 2..]), a, b);
  }

  lemma CutIsParsed(k: string, j: int, a: string, b: string)
    requires CutsInto(Strip(k), j, a, b)
    ensures ParseKey(k) == SignatureKey(Join(a, b))
  {
    var edge := Strip(k);
    assert FirstArrow(edge, 0).Some?;
    CutIsFirst(edge, FirstArrow(edge, 0).value, j);
  }

  lemma FirstCutHasNoArrow(edge: string, i: nat)
    requires ArrowAt(edge, i) && forall k :: 0 <= k < i ==> !ArrowAt(edge, k)
    ensures NoArrow(edge[..i])
  {
    forall k | 0 <= k < i ensures !ArrowAt(edge[..i], k) {
      assert !ArrowAt(edge, k);
    }
  }

  lemma CutIsFirst(edge: string, i: nat, j: nat)
    requires ArrowAt(edge, i) && (forall k :: 0 <= k < i ==> !ArrowAt(edge, k))
    requires ArrowAt(edge, j) && NoArrow(edge[..j])
    ensures i == j
  {
    assert i <= j;
    if i + 1 < j {
      assert ArrowAt(edge[..j], i);
      assert false;
    }
  }

  // --- The legacy words ---

  /** The legacy phases as stored words. */
  function LegacyWords(phases: seq<string>): seq<Word> {
    Words(NormalizedPhases(phases))
  }

  function WordText(w: Word): string {
    match w
    case Known(s) => StatusValue(s)
    case Other(text) => text
  }

  lemma StatusWordSpells(text: string)
    ensures WordText(StatusWord(text)) == text
  {
  }

  lemma StatusWordOfValue(s: DocumentStatus)
    ensures StatusWord(StatusValue(s)) == Known(s)
  {
  }

  /** Texts as stored words. */
  function Words(texts: seq<string>): (r: seq<Word>)
    ensures |r| == |texts| && forall i :: 0 <= i < |r| ==> r[i] == StatusWord(texts[i])
  {
    seq(|texts|, i requires 0 <= i < |texts| => StatusWord(texts[i]))
  }

  lemma BuiltPath(phases: seq<string>, keyTexts: set<string>, fourEyes: bool)
    requires phases != [] && StatusWord(phases[0]) == DRAFT
    ensures var ts := TransitionsFor(phases, keyTexts, fourEyes);
            Keep(ts, IsEnabled()) == ts && PathStatuses(ts) == Words(phases)
  {
    var ts := TransitionsFor(phases, keyTexts, fourEyes);
    KeepAll(ts, IsEnabled());
    var path := PathStatuses(ts);
    assert |path| == |phases|;
    forall i | 0 <= i < |path| ensures path[i] == Words(phases)[i] {
      if i > 0 {
        assert path[i] == ts[i - 1].toStatus;
      }
    }
  }

  /** The ends the reader checks, as words. */
  lemma ReadableEnds(phases: seq<string>)
    requires ReadablePhases(phases)
    ensures |phases| >= 2 && LegacyWords(phases)[0] == DRAFT && LegacyWords(phases)[|phases| - 1] == APPROVED
  {
    StatusWordOfValue(Draft);
    StatusWordOfValue(Approved);
    assert |StatusValue(Draft)| != |StatusValue(Approved)|;
  }

  /** The built path visits exactly the legacy phases. */
  lemma BuiltVisits(item: LegacyProfile)
    requires item.phases != [] && LegacyWords(item.phases)[0] == DRAFT
    ensures Keep(Built(item), IsEnabled()) == Built(item)
    ensures PathStatuses(Built(item)) == LegacyWords(item.phases)
  {
    BuiltPath(NormalizedPhases(item.phases), KeyTexts(item.signatureKeys), item.fourEyesRequired);
  }

  // --- When the validator accepts what the reader produced ---

  lemma BuiltTransition(item: LegacyProfile, i: nat)
    requires i + 1 < |item.phases|
    ensures var words, t := LegacyWords(item.phases), Built(item)[i];
            && t.fromStatus == words[i] && t.toStatus == words[i + 1] && t.transitionNo == i + 1
            && t.requiredRole == ExpectedRole(t.fromStatus, t.toStatus)
            && (TransitionFits(t) <==> IsAllowedStatus(words[i]) && IsAllowedStatus(words[i + 1]))
  {
    var phases := NormalizedPhases(item.phases);
    assert Built(item)[i] == TransitionFor(phases, i, KeyTexts(item.signatureKeys), item.fourEyesRequired);
    RolesAgree(phases[i], phases[i + 1]);
  }

  /** The reader's role for a pair of texts is the role the validator asks for. */
  lemma RolesAgree(fromStatus: string, toStatus: string)
    ensures RoleForTransition(fromStatus, toStatus) == ExpectedRole(StatusWord(fromStatus), StatusWord(toStatus))
  {
    StatusWordSpells(fromStatus);
    StatusWordSpells(toStatus);
    StatusWordOfValue(Draft);
    StatusWordOfValue(InReview);
    StatusWordOfValue(InApproval);
    StatusWordOfValue(Approved);
  }

  /** Transitions between consecutive words, each fitting when both its words are allowed statuses. */
  ghost predicate Between(words: seq<Word>, ts: seq<TransitionDefinition>)
  {
    && |ts| + 1 == |words|
    && (forall i :: 0 <= i < |ts| ==> ts[i].fromStatus == words[i] && ts[i].toStatus == words[i + 1])
    && (forall i :: 0 <= i < |ts| ==>
        (TransitionFits(ts[i]) <==> IsAllowedStatus(words[i]) && IsAllowedStatus(words[i + 1])))
  }

  lemma BuiltBetween(item: LegacyProfile)
    requires item.phases != []
    ensures Between(LegacyWords(item.phases), Built(item)) && IsNumbered(Built(item))
  {
    forall i | 0 <= i < |Built(item)|
      ensures var words, t := LegacyWords(item.phases), Built(item)[i];
              && t.transitionNo == i + 1 && t.fromStatus == words[i] && t.toStatus == words[i + 1]
              && (TransitionFits(t) <==> IsAllowedStatus(words[i]) && IsAllowedStatus(words[i + 1]))
    {
      BuiltTransition(item, i);
    }
  }

  lemma PathBetweenVisits(words: seq<Word>, ts: seq<TransitionDefinition>)
    requires Between(words, ts) && |words| >= 2 && words[0] == DRAFT && words[|words| - 1] == APPROVED
    ensures IsPath(ts) <==> Visits(words)
  {
    if IsPath(ts) {
      PathIsVisits(ts);
      assert PathStatuses(ts) == words;
    }
    if Visits(words) {
      VisitsMakePath(words, ts);
    }
  }

  /** The validator accepts what the reader read exactly when the legacy phases name allowed statuses, the second
      one is not the editor phase again, and none but the last repeats an earlier one. */
  lemma ValidatorAcceptsReading(item: LegacyProfile)
    requires Readable(item)
    ensures Accepted(Translated(item)) <==> Visits(LegacyWords(item.phases))
  {
    ReadableEnds(item.phases);
    BuiltBetween(item);
    PathBetweenVisits(LegacyWords(item.phases), Built(item));
    TranslatedIsLabelled(item);
    TranslatedEnabled(item);
  }

  lemma TranslatedIsLabelled(item: LegacyProfile)
    requires Readable(item)
    ensures IsLabelled(Translated(item))
  {
    StripIsIdempotent(item.profileId);
    StripIsIdempotent(item.profileLabel);
  }

  lemma TranslatedEnabled(item: LegacyProfile)
    requires Readable(item)
    ensures Enabled(Translated(item)) == Built(item)
  {
    ReadableEnds(item.phases);
    BuiltVisits(item);
  }

  lemma VisitsMakePath(words: seq<Word>, ts: seq<TransitionDefinition>)
    requires Visits(words) && Between(words, ts)
    ensures IsPath(ts)
  {
    forall i | 0 <= i < |ts| ensures TransitionFits(ts[i]) {
      assert IsAllowedStatus(words[i]) && IsAllowedStatus(words[i + 1]);
    }
    forall i | 0 < i < |ts| ensures ts[i - 1].toStatus == ts[i].fromStatus {
      assert ts[i - 1].toStatus == words[i];
    }
  }

  // --- What is read, spelled out ---

  /** A legacy status word as it is stored: trimmed and in upper case, IN_PROGRESS as DRAFT. */
  lemma NormalizedBySpelling(text: string)
    ensures NormalizeLegacyStatus(text) == if Upper(Strip(text)) == "IN_PROGRESS" then "DRAFT" else Upper(Strip(text))
  {
  }

  lemma NamedBySpelling(item: LegacyProfile)
    ensures IsNamed(item) <==>
            && Strip(item.profileId) != "" && Strip(item.profileLabel) != ""
            && (item.controlClass == "CONTROLLED" || item.controlClass == "CONTROLLED_SHORT"
                || item.controlClass == "EXTERNAL" || item.controlClass == "RECORD")
  {
  }

  /** The first phase spells the editor phase, in either vocabulary, the last one the approval. */
  lemma PhasesBySpelling(phases: seq<string>)
    ensures ReadablePhases(phases) <==>
            && phases != []
            && (Upper(Strip(phases[0])) == "DRAFT" || Upper(Strip(phases[0])) == "IN_PROGRESS")
            && Upper(Strip(phases[|phases| - 1])) == "APPROVED"
  {
    StatusWordsSpelled();
    if phases != [] {
      NormalizedBySpelling(phases[0]);
      NormalizedBySpelling(phases[|phases| - 1]);
      assert |"DRAFT"| == 5 && |"APPROVED"| == 8 && |"IN_PROGRESS"| == 11;
    }
  }

  lemma KeysBySpelling(keys: seq<string>)
    ensures ReadableKeys(keys) <==> forall k :: k in keys ==> Strip(k) == "" || exists i :: ArrowIn(Strip(k), i)
  {
    forall k ensures !ParseKey(k).BadKey? <==> Strip(k) == "" || exists i :: ArrowIn(Strip(k), i) {
      KeyHasArrow(k);
    }
  }

  /** Entries the reader accepts: named, of one of four classes, from the editor phase to APPROVED, every key with an
      arrow or blank. */
  lemma ReadableBySpelling(item: LegacyProfile)
    ensures Readable(item) <==>
            && Strip(item.profileId) != "" && Strip(item.profileLabel) != ""
            && (item.controlClass == "CONTROLLED" || item.controlClass == "CONTROLLED_SHORT"
                || item.controlClass == "EXTERNAL" || item.controlClass == "RECORD")
            && item.phases != []
            && (Upper(Strip(item.phases[0])) == "DRAFT" || Upper(Strip(item.phases[0])) == "IN_PROGRESS")
            && Upper(Strip(item.phases[|item.phases| - 1])) == "APPROVED"
            && forall k :: k in item.signatureKeys ==> Strip(k) == "" || exists i :: ArrowIn(Strip(k), i)
  {
    NamedBySpelling(item);
    PhasesBySpelling(item.phases);
    KeysBySpelling(item.signatureKeys);
  }

  ghost predicate ArrowIn(s: string, i: nat) {
    i + 1 < |s| && s[i..i + 2] == "->"
  }

  lemma KeyHasArrow(k: string)
    ensures !ParseKey(k).BadKey? <==> Strip(k) == "" || exists i :: ArrowIn(Strip(k), i)
  {
    var edge := Strip(k);
    if FirstArrow(edge, 0).Some? {
      assert ArrowIn(edge, FirstArrow(edge, 0).value);
    }
    if i: nat :| ArrowIn(edge, i) {
      assert edge[i] == edge[i..i + 2][0] && edge[i + 1] == edge[i..i + 2][1];
      assert ArrowAt(edge, i);
    }
  }

  /** A stored word from a text: a status by its spelling, or the text. */
  lemma WordBySpelling(text: string)
    ensures var w := StatusWord(text);
            && (w == Known(Draft) <==> text == "DRAFT") && (w == Known(InReview) <==> text == "IN_REVIEW")
            && (w == Known(InApproval) <==> text == "IN_APPROVAL") && (w == Known(Approved) <==> text == "APPROVED")
            && (w == Known(InProgress) <==> text == "IN_PROGRESS") && (w == Known(Planned) <==> text == "PLANNED")
            && (w == Known(Archived) <==> text == "ARCHIVED") && (w.Other? ==> w.text == text)
  {
    StatusWordsSpelled();
    StatusWordSpells(text);
  }

  /** The definition that is read: fields trimmed or taken over, and a transition from every phase to the next one. */
  lemma TranslatedBySpelling(item: LegacyProfile)
    requires Readable(item)
    ensures var p := Translated(item);
            && p.profileCode == Strip(item.profileId) && p.profileLabel == Strip(item.profileLabel)
            && (p.controlClass == Controlled <==> item.controlClass == "CONTROLLED")
            && (p.controlClass == ControlledShort <==> item.controlClass == "CONTROLLED_SHORT")
            && (p.controlClass == External <==> item.controlClass == "EXTERNAL")
            && (p.controlClass == RecordClass <==> item.controlClass == "RECORD")
            && p.releaseEvidenceMode == item.releaseEvidenceMode && p.requiresEditors == item.requiresEditors
            && p.requiresReviewers == item.requiresReviewers && p.requiresApprovers == item.requiresApprovers
            && p.allowsContentChanges == item.allowsContentChanges
            && |p.transitions| == |item.phases| - 1
            && forall i :: 0 <= i < |p.transitions| ==> ReadFrom(p.transitions[i], item, i)
  {
    forall i | 0 <= i < |item.phases| - 1 ensures ReadFrom(Translated(item).transitions[i], item, i) {
      TransitionIsReadFrom(item, i);
    }
  }

  /** A transition as it is read from two phases: who acts is said by the phase left, or by the approval reached. */
  ghost predicate ReadFrom(t: TransitionDefinition, item: LegacyProfile, i: nat)
    requires i + 1 < |item.phases|
  {
    var from, to := NormalizeLegacyStatus(item.phases[i]), NormalizeLegacyStatus(item.phases[i + 1]);
    && t.transitionNo == i + 1 && t.fromStatus == StatusWord(from) && t.toStatus == StatusWord(to)
    && t.requiredRole == (if from == "DRAFT" then Editor else if from == "IN_REVIEW" then Reviewer
                          else if from == "IN_APPROVAL" || to == "APPROVED" then Approver else NoRole)
    && t.decisionPolicy == OneOfPool && t.isEnabled && !t.revokeIfChanged && t.deadlineSeconds == None
    && (t.fourEyesRequired <==> item.fourEyesRequired && to == "APPROVED")
    && (NoArrow(from) ==> (t.signatureRequired <==> SignedInLegacy(item, i)))
  }

  lemma TransitionIsReadFrom(item: LegacyProfile, i: nat)
    requires i + 1 < |item.phases|
    ensures ReadFrom(Built(item)[i], item, i)
  {
    var phases := NormalizedPhases(item.phases);
    assert Built(item)[i] == TransitionFor(phases, i, KeyTexts(item.signatureKeys), item.fourEyesRequired);
    if NoArrow(phases[i]) {
      KeyTextMeansPair(item.signatureKeys, phases[i], phases[i + 1]);
    }
  }

  // --- The meaning that survives ---

  /** A legacy key asks for a signature between these two consecutive phases. */
  ghost predicate SignedInLegacy(item: LegacyProfile, i: nat)
    requires i + 1 < |item.phases|
  {
    exists k :: k in item.signatureKeys
      && NamesPair(k, NormalizeLegacyStatus(item.phases[i]), NormalizeLegacyStatus(item.phases[i + 1]))
  }

  lemma SignatureSurvives(item: LegacyProfile, i: nat)
    requires i + 1 < |item.phases| && IsAllowedStatus(LegacyWords(item.phases)[i])
    ensures Built(item)[i].signatureRequired <==> SignedInLegacy(item, i)
  {
    var a, b := NormalizeLegacyStatus(item.phases[i]), NormalizeLegacyStatus(item.phases[i + 1]);
    StatusWordSpells(a);
    StatusHasNoArrow(StatusWord(a).status);
    KeyTextMeansPair(item.signatureKeys, a, b);
  }

  /** A legacy key signs these two consecutive phases, and they are shown as this edge. */
  ghost predicate SignedAndShown(item: LegacyProfile, words: seq<Word>, i: nat, e: Edge)
    requires |words| == |item.phases| && i + 1 < |words|
  {
    SignedInLegacy(item, i) && ShownAs(words[i], e.source) && ShownAs(words[i + 1], e.target)
  }

  lemma BuiltSignedEdge(item: LegacyProfile, i: nat, e: Edge)
    requires Visits(LegacyWords(item.phases)) && i + 1 < |item.phases|
    ensures var words, t := LegacyWords(item.phases), Built(item)[i];
            && t.fromStatus.Known? && t.toStatus.Known?
            && (t.signatureRequired && ShownEdge(t, e) <==> SignedAndShown(item, words, i, e))
  {
    var words := LegacyWords(item.phases);
    assert IsAllowedStatus(words[i]) && IsAllowedStatus(words[i + 1]);
    BuiltTransition(item, i);
    SignatureSurvives(item, i);
  }

  lemma BuiltSignature(item: LegacyProfile, e: Edge)
    requires Visits(LegacyWords(item.phases))
    ensures var words := LegacyWords(item.phases);
            e in SignatureKeys(Built(item)) <==> exists i :: 0 <= i < |words| - 1 && SignedAndShown(item, words, i, e)
  {
    var words, ts := LegacyWords(item.phases), Built(item);
    forall i | 0 <= i < |ts|
      ensures ts[i].fromStatus.Known? && ts[i].toStatus.Known?
      ensures ts[i].signatureRequired && ShownEdge(ts[i], e) <==> SignedAndShown(item, words, i, e)
    {
      BuiltSignedEdge(item, i, e);
    }
    SignatureKeysMembers(ts, e);
  }

  lemma BuiltSignatures(item: LegacyProfile)
    requires Visits(LegacyWords(item.phases))
    ensures SameSignatures(item, LegacyWords(item.phases), SignatureKeys(Built(item)))
  {
    forall e { BuiltSignature(item, e); }
  }

  lemma BuiltFourEyes(phases: seq<string>, keyTexts: set<string>, fourEyes: bool)
    requires |phases| >= 2 && StatusWord(phases[|phases| - 1]) == APPROVED
    ensures FourEyes(TransitionsFor(phases, keyTexts, fourEyes)) == fourEyes
  {
    StatusWordSpells(phases[|phases| - 1]);
    var ts := TransitionsFor(phases, keyTexts, fourEyes);
    assert ts[|ts| - 1].fourEyesRequired == fourEyes;
  }

  /** What the runtime profile of a translated one is made of. */
  lemma RuntimeOfTranslated(item: LegacyProfile)
    requires Readable(item) && LegacyWords(item.phases)[0] == DRAFT
    ensures var p := RuntimeProfile(Translated(item));
            && p.phases == RuntimePhases(LegacyWords(item.phases)) && p.fourEyesRequired == FourEyes(Built(item))
            && p.signatureRequiredTransitions == SignatureKeys(Built(item))
  {
    BuiltVisits(item);
  }

  /** The runtime phases are the legacy phases in the runtime vocabulary, less a repeated final approval. */
  ghost predicate SamePhases(words: seq<Word>, runtime: WorkflowProfile)
    requires |words| >= 2
  {
    runtime.phases == RuntimeWords(if words[|words| - 2] == APPROVED then words[..|words| - 1] else words)
  }

  /** An edge needs a signature exactly when a legacy key names two consecutive phases that show as it. */
  ghost predicate SameSignatures(item: LegacyProfile, words: seq<Word>, keys: seq<Edge>)
    requires |words| == |item.phases|
  {
    forall e :: e in keys <==>
      exists i :: 0 <= i < |words| - 1 && SignedAndShown(item, words, i, e)
  }

  /** Reading, storing and rebuilding keeps the profile's meaning: phases, signatures and the four-eyes flag. */
  lemma ReadingKeepsMeaning(item: LegacyProfile)
    requires Readable(item) && Accepted(Translated(item))
    ensures |item.phases| >= 2
    ensures var words, runtime := LegacyWords(item.phases), RuntimeProfile(Translated(item));
            && SamePhases(words, runtime)
            && SameSignatures(item, words, runtime.signatureRequiredTransitions)
            && runtime.fourEyesRequired == item.fourEyesRequired
  {
    ValidatorAcceptsReading(item);
    VisitsKeepMeaning(item);
  }

  lemma VisitsKeepMeaning(item: LegacyProfile)
    requires Readable(item) && Visits(LegacyWords(item.phases))
    ensures var words, runtime := LegacyWords(item.phases), RuntimeProfile(Translated(item));
            && SamePhases(words, runtime)
            && SameSignatures(item, words, runtime.signatureRequiredTransitions)
            && runtime.fourEyesRequired == item.fourEyesRequired
  {
    RuntimeOfTranslated(item);
    VisitsCollapse(LegacyWords(item.phases));
    BuiltFourEyes(NormalizedPhases(item.phases), KeyTexts(item.signatureKeys), item.fourEyesRequired);
    BuiltSignatures(item);
  }

  // --- Runtime phases written as a legacy entry ---

  function Spelled(phases: seq<DocumentStatus>): (r: seq<string>)
    ensures |r| == |phases| && forall i :: 0 <= i < |r| ==> r[i] == StatusValue(phases[i])
  {
    seq(|phases|, i requires 0 <= i < |phases| => StatusValue(phases[i]))
  }

  lemma StatusNormalizes(s: DocumentStatus)
    ensures NormalizeLegacyStatus(StatusValue(s)) == StatusValue(if s == InProgress then Draft else s)
  {
    SpelledIsUpper(s);
    if s != InProgress {
      StatusWordOfValue(s);
      StatusWordOfValue(InProgress);
    }
  }

  lemma SpelledIsUpper(s: DocumentStatus)
    ensures Strip(StatusValue(s)) == StatusValue(s) && Upper(StatusValue(s)) == StatusValue(s)
  {
    var text := StatusValue(s);
    assert Strip(text) == text;
    assert forall i :: 0 <= i < |text| ==> UpperChar(text[i]) == text[i];
    assert Upper(text) == text;
  }

  function StoredWord(s: DocumentStatus): Word {
    Known(if s == InProgress then Draft else s)
  }

  lemma SpelledWord(phases: seq<DocumentStatus>, i: nat)
    requires i < |phases|
    ensures LegacyWords(Spelled(phases))[i] == StoredWord(phases[i])
  {
    StatusNormalizes(phases[i]);
    StatusWordOfValue(if phases[i] == InProgress then Draft else phases[i]);
  }

  /** Phases the engine can run, each left at most once. */
  ghost predicate RunnablePhases(phases: seq<DocumentStatus>) {
    && |phases| >= 2 && phases[0] == InProgress && phases[|phases| - 1] == Approved && phases[|phases| - 2] != Approved
    && (forall i :: 0 <= i < |phases| ==> phases[i] in {InProgress, InReview, InApproval, Approved})
    && (forall i, j :: 0 <= i < j < |phases| - 1 ==> phases[i] != phases[j])
  }

  lemma RunnableWordsVisit(phases: seq<DocumentStatus>, words: seq<Word>)
    requires RunnablePhases(phases) && |words| == |phases|
    requires forall i :: 0 <= i < |phases| ==> words[i] == StoredWord(phases[i])
    ensures Visits(words) && words[|words| - 2] != APPROVED && RuntimeWords(words) == phases
  {
    forall i, j | 0 <= i < j < |words| - 1 ensures words[i] != words[j] {
      assert phases[i] != phases[j];
    }
    if |phases| > 2 {
      assert phases[0] != phases[1];
    }
  }

  lemma SpelledWordsAreStored(phases: seq<DocumentStatus>)
    ensures var words := LegacyWords(Spelled(phases));
            |words| == |phases| && forall i :: 0 <= i < |phases| ==> words[i] == StoredWord(phases[i])
  {
    var words := LegacyWords(Spelled(phases));
    forall i | 0 <= i < |phases| ensures words[i] == StoredWord(phases[i]) {
      SpelledWord(phases, i);
    }
  }

  lemma SpelledPhasesVisit(phases: seq<DocumentStatus>)
    requires RunnablePhases(phases)
    ensures var words := LegacyWords(Spelled(phases));
            Visits(words) && words[|words| - 2] != APPROVED && RuntimeWords(words) == phases
  {
    SpelledWordsAreStored(phases);
    RunnableWordsVisit(phases, LegacyWords(Spelled(phases)));
  }

  lemma SpelledPhasesAreReadable(phases: seq<DocumentStatus>)
    requires RunnablePhases(phases)
    ensures ReadablePhases(Spelled(phases))
  {
    StatusNormalizes(phases[0]);
    StatusNormalizes(phases[|phases| - 1]);
  }

  lemma UncollapsedPhases(words: seq<Word>)
    requires Visits(words) && words[|words| - 2] != APPROVED
    ensures words[0] == DRAFT && RuntimePhases(words) == RuntimeWords(words)
  {
    VisitsCollapse(words);
  }

  lemma SpelledPhasesRun(phases: seq<DocumentStatus>)
    requires RunnablePhases(phases)
    ensures var words := LegacyWords(Spelled(phases)); words[0] == DRAFT && RuntimePhases(words) == phases
  {
    SpelledPhasesVisit(phases);
    UncollapsedPhases(LegacyWords(Spelled(phases)));
  }

  /** Runtime phases written into a legacy entry come back as they were: read, accepted, and rebuilt. */
  lemma RuntimePhasesReadBack(item: LegacyProfile, phases: seq<DocumentStatus>)
    requires RunnablePhases(phases) && item.phases == Spelled(phases)
    requires IsNamed(item) && ReadableKeys(item.signatureKeys)
    ensures Readable(item) && Accepted(Translated(item)) && RuntimeProfile(Translated(item)).phases == phases
  {
    SpelledPhasesAreReadable(phases);
    SpelledPhasesVisit(phases);
    ValidatorAcceptsReading(item);
    SpelledPhasesRun(phases);
    RuntimeOfTranslated(item);
  }
}
