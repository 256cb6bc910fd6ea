/** The release gate for migration files: what its checks say about two releases. */
module MigrationGate {
  import opened Sequences
  import opened MigrationSteps
  import Text

  /** The base release as git shows it: its files, and which of them could be read back. */
  datatype BaseRef = BaseRef(refValid: bool, listingOk: bool, files: seq<MigrationFile>, readable: set<string>)

  datatype Report = Report(
    ok: bool,
    chainValid: bool,
    noDeleted: bool,
    immutable: bool,
    appendOnly: bool,
    deleted: seq<string>,
    mutated: seq<string>,
    unreadable: seq<string>,
    nonAppend: seq<string>)

  function GateDigest(content: string): Digest {
    Sha256(CrlfToLf(content))
  }

  predicate HasName(files: seq<MigrationFile>, name: string) {
    exists i :: 0 <= i < |files| && files[i].name == name
  }

  ghost predicate DistinctNames(files: seq<MigrationFile>) {
    forall i, j :: 0 <= i < j < |files| ==> files[i].name != files[j].name
  }

  /** A file that stayed, but whose text differs beyond CR LF versus LF. */
  predicate Mutated(f: MigrationFile, current: seq<MigrationFile>) {
    exists i :: 0 <= i < |current| && current[i].name == f.name
                && GateDigest(current[i].content) != GateDigest(f.content)
  }

  function Highest(files: seq<MigrationFile>): nat {
    if files == [] then 0
    else
      var front := Highest(files[..|files| - 1]);
      var version := LeadingVersion(files[|files| - 1].name);
      if version.Some? && version.value > front then version.value else front
  }

  ghost predicate NothingDeleted(base: seq<MigrationFile>, current: seq<MigrationFile>) {
    forall f :: f in base ==> HasName(current, f.name)
  }

  ghost predicate AllReadable(base: BaseRef, current: seq<MigrationFile>) {
    forall f :: f in base.files && HasName(current, f.name) ==> f.name in base.readable
  }

  ghost predicate NothingMutated(base: BaseRef, current: seq<MigrationFile>) {
    forall f :: f in base.files && f.name in base.readable ==> !Mutated(f, current)
  }

  predicate Appends(f: MigrationFile, base: seq<MigrationFile>) {
    LeadingVersion(f.name).Some? && LeadingVersion(f.name).value > Highest(base)
  }

  ghost predicate AppendsOnly(base: seq<MigrationFile>, current: seq<MigrationFile>) {
    forall f :: f in current && !HasName(base, f.name) ==> Appends(f, base)
  }

  /** The gate's checks on the migration chain. Only the current tree is discovered, the base tree never is. */
  ghost predicate Passes(base: BaseRef, current: seq<MigrationFile>) {
    && Discover(current).Ok?
    && NothingDeleted(base.files, current)
    && AllReadable(base, current) && NothingMutated(base, current)
    && AppendsOnly(base.files, current)
  }

  method HighestVersion(files: seq<MigrationFile>) returns (highest: nat)
    ensures highest == Highest(files)
  {
    highest := 0;
    for i := 0 to |files|
      invariant highest == Highest(files[..i])
    {
      assert files[..i + 1][..i] == files[..i];
      var version := LeadingVersion(files[i].name);
      if version.Some? && version.value > highest {
        highest := version.value;
      }
    }
    assert files[..|files|] == files;
  }

  /** The names of the files that satisfy a test, in listing order. */
  method NamesOf(files: seq<MigrationFile>, p: MigrationFile -> bool) returns (names: seq<string>)
    ensures names == [] <==> forall f :: f in files ==> !p(f)
    ensures forall n :: n in names <==> exists f :: f in files && p(f) && f.name == n
  {
    names := [];
    for i := 0 to |files|
      invariant names == [] <==> forall f :: f in files[..i] ==> !p(f)
      invariant forall n :: n in names <==> exists f :: f in files[..i] && p(f) && f.name == n
    {
      assert files[..i + 1] == files[..i] + [files[i]];
      if p(files[i]) {
        assert files[i] in files[..i + 1];
        names := names + [files[i].name];
      }
    }
    assert files[..|files|] == files;
  }

  /** The gate. `otherChecks` stands for the checks that are not about the migration chain. */
  method EvaluateGate(base: BaseRef, current: seq<MigrationFile>, otherChecks: bool) returns (report: Report)
    ensures report.chainValid <==> Discover(current).Ok?
    ensures !(base.refValid && base.listingOk) ==>
              !report.noDeleted && !report.immutable && !report.appendOnly && !report.ok
    ensures base.refValid && base.listingOk ==>
      && (report.noDeleted <==> NothingDeleted(base.files, current))
      && (report.immutable <==> AllReadable(base, current) && NothingMutated(base, current))
      && (report.appendOnly <==> AppendsOnly(base.files, current))
      && (report.ok <==> otherChecks && Passes(base, current))
      && (forall n :: n in report.mutated <==>
            exists f :: f in base.files && f.name in base.readable && Mutated(f, current) && f.name == n)
  {
    var discovered := DiscoverMigrations(current);
    if !(base.refValid && base.listingOk) {
      return Report(false, discovered.Ok?, false, false, false, [], [], [], []);
    }
    var baseFiles, readable := base.files, base.readable;
    var deleted := NamesOf(baseFiles, (f: MigrationFile) => !HasName(current, f.name));
    var unreadable := NamesOf(baseFiles, (f: MigrationFile) => HasName(current, f.name) && f.name !in readable);
    var mutated := NamesOf(baseFiles, (f: MigrationFile) => f.name in readable && Mutated(f, current));
    var baseMax := HighestVersion(baseFiles);
    var nonAppend := NamesOf(current, (f: MigrationFile) =>
      !HasName(baseFiles, f.name) && (LeadingVersion(f.name).None? || LeadingVersion(f.name).value <= baseMax));
    var noDeleted, immutable, appendOnly := deleted == [], unreadable == [] && mutated == [], nonAppend == [];
    report := Report(otherChecks && discovered.Ok? && noDeleted && immutable && appendOnly,
                     discovered.Ok?, noDeleted, immutable, appendOnly, deleted, mutated, unreadable, nonAppend);
  }

  // --- The checks, name by name ---

  ghost predicate IsNameIn(name: string, files: seq<MigrationFile>) {
    exists f :: f in files && f.name == name
  }

  lemma NameIsIn(files: seq<MigrationFile>, name: string)
    ensures HasName(files, name) <==> IsNameIn(name, files)
  {
    if f :| f in files && f.name == name {
      var i :| 0 <= i < |files| && files[i] == f;
    }
    forall i | 0 <= i < |files| && files[i].name == name ensures IsNameIn(name, files) {
      assert files[i] in files;
    }
  }

  /** A current file of the same name differs in more than its line ends. */
  ghost predicate IsChanged(f: MigrationFile, current: seq<MigrationFile>) {
    exists g :: g in current && g.name == f.name && CrlfToLf(g.content) != CrlfToLf(f.content)
  }

  lemma MutatedMeansChanged(f: MigrationFile, current: seq<MigrationFile>)
    ensures Mutated(f, current) <==> IsChanged(f, current)
  {
    if g :| g in current && g.name == f.name && CrlfToLf(g.content) != CrlfToLf(f.content) {
      var i :| 0 <= i < |current| && current[i] == g;
    }
    forall i | 0 <= i < |current| && current[i].name == f.name
               && GateDigest(current[i].content) != GateDigest(f.content)
      ensures IsChanged(f, current)
    {
      assert current[i] in current;
    }
  }

  /** What the gate's checks ask of the base: each name is kept, each kept file is readable and not changed. */
  lemma BaseChecksByName(base: BaseRef, current: seq<MigrationFile>)
    ensures NothingDeleted(base.files, current) <==> forall f :: f in base.files ==> IsNameIn(f.name, current)
    ensures AllReadable(base, current) <==>
            forall f :: f in base.files ==> f.name in base.readable || !IsNameIn(f.name, current)
    ensures NothingMutated(base, current) <==>
            forall f :: f in base.files && f.name in base.readable ==> !IsChanged(f, current)
  {
    forall f | f in base.files ensures HasName(current, f.name) <==> IsNameIn(f.name, current) {
      NameIsIn(current, f.name);
    }
    forall f | f in base.files ensures Mutated(f, current) <==> IsChanged(f, current) {
      MutatedMeansChanged(f, current);
    }
  }

  lemma {:induction false} HighestIsMost(files: seq<MigrationFile>)
    ensures forall f :: f in files && LeadingVersion(f.name).Some? ==> LeadingVersion(f.name).value <= Highest(files)
    ensures Highest(files) == 0 || exists f :: f in files && LeadingVersion(f.name) == Some(Highest(files))
  {
    if files != [] {
      HighestIsMost(files[..|files| - 1]);
      assert files == files[..|files| - 1] + [files[|files| - 1]];
    }
  }

  /** And of what is new: a number that is positive and higher than every number of the base. */
  lemma NewFilesByName(base: seq<MigrationFile>, current: seq<MigrationFile>)
    ensures AppendsOnly(base, current) <==>
            forall g :: g in current ==> IsNameIn(g.name, base) || IsAbove(g, base)
  {
    HighestIsMost(base);
    forall g | g in current ensures HasName(base, g.name) <==> IsNameIn(g.name, base) {
      NameIsIn(base, g.name);
    }
    forall g | g in current ensures Appends(g, base) <==> IsAbove(g, base) {
      if IsAbove(g, base) && Highest(base) != 0 {
        var f :| f in base && LeadingVersion(f.name) == Some(Highest(base));
      }
    }
  }

  ghost predicate IsAbove(g: MigrationFile, base: seq<MigrationFile>) {
    && LeadingVersion(g.name).Some? && LeadingVersion(g.name).value > 0
    && forall f :: f in base && LeadingVersion(f.name).Some? ==>
         LeadingVersion(g.name).value > LeadingVersion(f.name).value
  }

  // --- What a passing gate means for a database migrated by the base release ---

  /** The base release's steps are the first steps of the current tree, under the same file names and gate texts. */
  ghost predicate ExtendsRelease(baseSteps: seq<Step>, steps: seq<Step>) {
    |baseSteps| <= |steps| && forall i :: 0 <= i < |baseSteps| ==>
      && steps[i].file.name == baseSteps[i].file.name
      && GateDigest(steps[i].file.content) == GateDigest(baseSteps[i].file.content)
  }

  lemma {:induction false} HighestOfSteps(files: seq<MigrationFile>, bound: nat)
    requires forall f :: f in files ==> LeadingVersion(f.name).Some? && LeadingVersion(f.name).value <= bound
    ensures Highest(files) <= bound
    ensures forall f :: f in files ==> LeadingVersion(f.name).value <= Highest(files)
  {
    if files != [] {
      HighestOfSteps(files[..|files| - 1], bound);
      assert files == files[..|files| - 1] + [files[|files| - 1]];
    }
  }

  lemma StepOf(files: seq<MigrationFile>, f: MigrationFile) returns (j: nat)
    requires Discover(files).Ok? && f in files
    ensures var steps := Discover(files).value;
            j < |steps| && steps[j].file == f && ParsedFrom(steps[j]) && steps[j].version == j + 1
  {
    DiscoveredSteps(files);
    var steps := Discover(files).value;
    j :| 0 <= j < |steps| && steps[j].file == f;
  }

  /** A kept file stays at its position: file names determine versions, and versions determine positions. */
  lemma KeptFileKeepsPosition(baseSteps: seq<Step>, steps: seq<Step>, current: seq<MigrationFile>, i: nat)
    requires Discover(current).Ok? && steps == Discover(current).value
    requires i < |baseSteps| && ContiguousFromOne(baseSteps) && ParsedFrom(baseSteps[i])
    requires HasName(current, baseSteps[i].file.name)
    ensures i < |steps| && steps[i].file.name == baseSteps[i].file.name && steps[i].file in current
  {
    DiscoveredSteps(current);
    var k :| 0 <= k < |current| && current[k].name == baseSteps[i].file.name;
    var j := StepOf(current, current[k]);
    assert steps[j].version == baseSteps[i].version;
  }

  lemma GateImpliesExtension(base: BaseRef, current: seq<MigrationFile>)
    requires Discover(base.files).Ok? && Discover(current).Ok? && AllReadable(base, current)
    requires NothingDeleted(base.files, current) && NothingMutated(base, current)
    ensures ExtendsRelease(Discover(base.files).value, Discover(current).value)
  {
    var baseSteps, steps := Discover(base.files).value, Discover(current).value;
    DiscoveredSteps(base.files);
    DiscoveredSteps(current);
    forall i | 0 <= i < |baseSteps|
      ensures i < |steps| && steps[i].file.name == baseSteps[i].file.name
      ensures GateDigest(steps[i].file.content) == GateDigest(baseSteps[i].file.content)
    {
      var f := baseSteps[i].file;
      KeptFileKeepsPosition(baseSteps, steps, current, i);
      assert !Mutated(f, current);
      var k :| 0 <= k < |current| && current[k] == steps[i].file;
    }
    KeptFileKeepsPosition(baseSteps, steps, current, |baseSteps| - 1);
  }

  lemma DeletionFreeReleasesAppend(base: BaseRef, current: seq<MigrationFile>)
    requires DistinctNames(current) && Discover(base.files).Ok? && Discover(current).Ok?
    requires NothingDeleted(base.files, current)
    ensures AppendsOnly(base.files, current)
  {
    var baseSteps, steps := Discover(base.files).value, Discover(current).value;
    DiscoveredSteps(base.files);
    DiscoveredSteps(current);
    forall f | f in base.files ensures LeadingVersion(f.name).Some? && LeadingVersion(f.name).value <= |baseSteps| {
      var i :| 0 <= i < |baseSteps| && baseSteps[i].file == f;
      assert ParsedFrom(baseSteps[i]);
    }
    HighestOfSteps(base.files, |baseSteps|);
    forall f | f in current ensures HasName(base.files, f.name) || Appends(f, base.files) {
      var j := StepOf(current, f);
      if j < |baseSteps| {
        assert baseSteps[j].file in base.files && ParsedFrom(baseSteps[j]);
        KeptFileKeepsPosition(baseSteps, steps, current, j);
        var k :| 0 <= k < |base.files| && base.files[k] == baseSteps[j].file;
        assert HasName(base.files, f.name);
      }
    }
  }

  lemma ExtensionImpliesGate(base: BaseRef, current: seq<MigrationFile>)
    requires DistinctNames(base.files) && DistinctNames(current)
    requires Discover(base.files).Ok? && Discover(current).Ok?
    requires ExtendsRelease(Discover(base.files).value, Discover(current).value)
    ensures NothingDeleted(base.files, current) && NothingMutated(base, current)
  {
    var baseSteps, steps := Discover(base.files).value, Discover(current).value;
    DiscoveredSteps(base.files);
    DiscoveredSteps(current);
    forall f | f in base.files ensures HasName(current, f.name) && !Mutated(f, current) {
      var i :| 0 <= i < |baseSteps| && baseSteps[i].file == f;
      assert steps[i].file in current;
      var k :| 0 <= k < |current| && current[k] == steps[i].file;
      assert current[k].name == f.name;
      forall m | 0 <= m < |current| && current[m].name == f.name ensures m == k {
        assert m < k || m == k || k < m;
      }
    }
  }

  // --- The base chain need not be checked ---

  lemma NameOrderIsTotal()
    ensures TotalPreorder(NameOrder())
  {
    forall a: MigrationFile, b: MigrationFile ensures NameOrder()(a, b) || NameOrder()(b, a) {
      Text.LessIsTotal(a.name, b.name);
    }
    forall a: MigrationFile, b: MigrationFile, c: MigrationFile | NameOrder()(a, b) && NameOrder()(b, c)
      ensures NameOrder()(a, c)
    {
      if a.name != b.name && b.name != c.name {
        Text.LessIsTransitive(a.name, b.name, c.name);
      }
    }
  }

  /** Steps in version order are in name order. */
  lemma StepsAscend(files: seq<MigrationFile>, i: nat, j: nat)
    requires Discover(files).Ok? && i < j < |Discover(files).value|
    ensures Text.AtMost(Discover(files).value[i].file.name, Discover(files).value[j].file.name)
  {
    NameOrderIsTotal();
    SortSorts(files, NameOrder());
    ParsedInOrder(Sort(files, NameOrder()));
    assert NameOrder()(Sort(files, NameOrder())[i], Sort(files, NameOrder())[j]);
  }

  /** The position of a kept base file among the current steps, which its name determines. */
  lemma PositionOf(base: seq<MigrationFile>, current: seq<MigrationFile>, f: MigrationFile) returns (j: nat)
    requires Discover(current).Ok? && NothingDeleted(base, current) && f in base
    ensures var steps := Discover(current).value;
            j < |steps| && steps[j].file.name == f.name && ParseName(f.name) == Some((j + 1, steps[j].name))
  {
    var k :| 0 <= k < |current| && current[k].name == f.name;
    j := StepOf(current, current[k]);
  }

  /** What the files of a base sorted by name are in the current tree. */
  ghost predicate PositionsOf(pos: seq<nat>, sorted: seq<MigrationFile>, steps: seq<Step>) {
    |pos| == |sorted| && forall i :: 0 <= i < |pos| ==>
      && pos[i] < |steps| && steps[pos[i]].file.name == sorted[i].name
      && ParseName(sorted[i].name) == Some((pos[i] + 1, steps[pos[i]].name))
  }

  lemma {:induction false} AllPositions(base: seq<MigrationFile>, current: seq<MigrationFile>,
                                        files: seq<MigrationFile>)
    returns (pos: seq<nat>)
    requires Discover(current).Ok? && NothingDeleted(base, current) && forall f :: f in files ==> f in base
    ensures PositionsOf(pos, files, Discover(current).value)
  {
    pos := [];
    if files != [] {
      var front, last := files[..|files| - 1], files[|files| - 1];
      var before := AllPositions(base, current, front);
      var j := PositionOf(base, current, last);
      pos := before + [j];
    }
  }

  ghost predicate Ascending(pos: seq<nat>) {
    forall i, j :: 0 <= i < j < |pos| ==> pos[i] < pos[j]
  }

  lemma SortedNamesDiffer(base: seq<MigrationFile>, i: nat, j: nat)
    requires DistinctNames(base) && i < j < |base|
    ensures var sorted := Sort(base, NameOrder()); |sorted| == |base| && sorted[i].name != sorted[j].name
  {
    SortKeepsItems(base, NameOrder());
    var sorted := Sort(base, NameOrder());
    DistinctByMultiset(base, sorted);
    assert sorted[i] in base && sorted[j] in base && sorted[i] != sorted[j];
  }

  /** Files in name order stand at ascending positions, because the current steps are in name order as well. */
  lemma PositionsAscend(base: seq<MigrationFile>, current: seq<MigrationFile>, pos: seq<nat>)
    requires DistinctNames(base) && Discover(current).Ok?
    requires PositionsOf(pos, Sort(base, NameOrder()), Discover(current).value)
    ensures Ascending(pos)
  {
    var sorted := Sort(base, NameOrder());
    SortKeepsItems(base, NameOrder());
    NameOrderIsTotal();
    SortSorts(base, NameOrder());
    forall i, j | 0 <= i < j < |pos| ensures pos[i] < pos[j] {
      SortedNamesDiffer(base, i, j);
      assert NameOrder()(sorted[i], sorted[j]);
      if pos[j] < pos[i] {
        StepsAscend(current, pos[j], pos[i]);
        Text.LessIsTotal(sorted[i].name, sorted[j].name);
        AtMostIsAntisymmetric(sorted[i].name, sorted[j].name);
      }
    }
  }

  lemma AtMostIsAntisymmetric(a: string, b: string)
    requires Text.AtMost(a, b) && Text.AtMost(b, a)
    ensures a == b
  {
    if a != b {
      Text.LessIsTransitive(a, b, a);
      Text.LessIsIrreflexive(a);
    }
  }

  lemma {:induction false} AscendingIsAtLeast(pos: seq<nat>, i: nat)
    requires Ascending(pos) && i < |pos|
    ensures pos[i] >= i
  {
    if i > 0 {
      AscendingIsAtLeast(pos, i - 1);
    }
  }

  /** Ascending positions without a gap below any of them are 0, 1, 2, ... */
  lemma {:induction false} DenseFromZero(pos: seq<nat>, i: nat)
    requires Ascending(pos) && i < |pos|
    requires forall k, j :: 0 <= k < |pos| && 0 <= j < pos[k] ==> j in pos
    ensures forall k :: 0 <= k <= i ==> pos[k] == k
  {
    if i > 0 {
      DenseFromZero(pos, i - 1);
    }
    AscendingIsAtLeast(pos, i);
    if pos[i] > i {
      assert i in pos;
      var p :| 0 <= p < |pos| && pos[p] == i;
    }
  }

  lemma {:induction false} HighestIsVersion(base: seq<MigrationFile>, f: MigrationFile)
    requires f in base && LeadingVersion(f.name).Some?
    ensures LeadingVersion(f.name).value <= Highest(base)
  {
    if f != base[|base| - 1] {
      HighestIsVersion(base[..|base| - 1], f);
    }
  }

  /** A current step that is not above every base file has the name of a base file. */
  lemma LowStepIsKept(base: seq<MigrationFile>, current: seq<MigrationFile>, f: MigrationFile, j: nat)
    returns (kept: MigrationFile)
    requires Discover(current).Ok? && AppendsOnly(base, current) && j < |Discover(current).value|
    requires f in base && ParseName(f.name).Some? && j < ParseName(f.name).value.0
    ensures kept in base && kept.name == Discover(current).value[j].file.name
  {
    DiscoveredSteps(current);
    var low := Discover(current).value[j];
    assert ParsedFrom(low) && low.file in current;
    ParsedLeads(low.file.name);
    ParsedLeads(f.name);
    HighestIsVersion(base, f);
    var b :| 0 <= b < |base| && base[b].name == low.file.name;
    kept := base[b];
  }

  /** Appending only, no current file below a base file is new. */
  lemma NoGapBelow(base: seq<MigrationFile>, current: seq<MigrationFile>, sorted: seq<MigrationFile>, pos: seq<nat>,
                   k: nat, j: nat)
    requires Discover(current).Ok? && AppendsOnly(base, current) && forall f :: f in sorted <==> f in base
    requires PositionsOf(pos, sorted, Discover(current).value) && k < |pos| && j < pos[k]
    ensures j in pos
  {
    var kept := LowStepIsKept(base, current, sorted[k], j);
    var i :| 0 <= i < |sorted| && sorted[i] == kept;
    SameNameSamePosition(current, pos[i], j);
  }

  lemma SameNameSamePosition(files: seq<MigrationFile>, i: nat, j: nat)
    requires Discover(files).Ok? && i < |Discover(files).value| && j < |Discover(files).value|
    requires Discover(files).value[i].file.name == Discover(files).value[j].file.name
    ensures i == j
  {
    DiscoveredSteps(files);
    assert ParsedFrom(Discover(files).value[i]) && ParsedFrom(Discover(files).value[j]);
  }

  lemma {:induction false} ParseAllSucceeds(files: seq<MigrationFile>)
    requires forall i :: 0 <= i < |files| ==> ParseName(files[i].name).Some?
    ensures ParseAll(files).Ok?
  {
    if files != [] {
      ParseAllSucceeds(files[..|files| - 1]);
    }
  }

  lemma {:induction false} UniqueMeansDistinct<T>(s: seq<T>)
    ensures Unique(s) <==> Distinct(s)
  {
    if s != [] {
      UniqueMeansDistinct(s[1..]);
      if Distinct(s) {
        assert forall i :: 0 <= i < |s[1..]| ==> s[1..][i] == s[i + 1];
      }
      if Unique(s) {
        forall i, j | 0 <= i < j < |s| ensures s[i] != s[j] {
          assert s[j] == s[1..][j - 1];
          assert i > 0 ==> s[i] == s[1..][i - 1];
        }
      }
    }
  }

  lemma StepNamesDiffer(files: seq<MigrationFile>, i: nat, j: nat)
    requires Discover(files).Ok? && i < j < |Discover(files).value|
    ensures Discover(files).value[i].name != Discover(files).value[j].name
  {
    var steps := Discover(files).value;
    var names := seq(|steps|, k requires 0 <= k < |steps| => steps[k].name);
    UniqueMeansDistinct(names);
    assert names[i] != names[j];
  }

  /** A tree whose files, in name order, are the first steps of a valid chain is a valid chain. */
  lemma FirstStepsAreAChain(base: seq<MigrationFile>, current: seq<MigrationFile>, pos: seq<nat>)
    requires base != [] && Discover(current).Ok?
    requires PositionsOf(pos, Sort(base, NameOrder()), Discover(current).value)
    requires forall i :: 0 <= i < |pos| ==> pos[i] == i
    ensures Discover(base).Ok?
  {
    var sorted := Sort(base, NameOrder());
    SortKeepsItems(base, NameOrder());
    ParseAllSucceeds(sorted);
    ParsedInOrder(sorted);
    var parsed := ParseAll(sorted).value;
    assert forall i :: 0 <= i < |parsed| ==> ParsedFrom(parsed[i]) && parsed[i].file == sorted[i];
    ParsedAsSteps(parsed, current);
  }

  lemma ParsedAsSteps(parsed: seq<Step>, current: seq<MigrationFile>)
    requires Discover(current).Ok? && |parsed| <= |Discover(current).value|
    requires forall i :: 0 <= i < |parsed| ==>
               parsed[i].version == i + 1 && parsed[i].name == Discover(current).value[i].name
    ensures Unique(seq(|parsed|, i requires 0 <= i < |parsed| => parsed[i].version))
    ensures Unique(seq(|parsed|, i requires 0 <= i < |parsed| => parsed[i].name))
  {
    var versions := seq(|parsed|, i requires 0 <= i < |parsed| => parsed[i].version);
    var names := seq(|parsed|, i requires 0 <= i < |parsed| => parsed[i].name);
    UniqueMeansDistinct(versions);
    UniqueMeansDistinct(names);
    forall i, j | 0 <= i < j < |names| ensures names[i] != names[j] {
      StepNamesDiffer(current, i, j);
    }
  }

  /**
   What the append-only check is for: into a valid current chain that has kept every base file, nothing can have been
   inserted below the base's highest version, so the base chain is valid itself.
   */
  lemma AppendOnlyMeansValidBase(base: seq<MigrationFile>, current: seq<MigrationFile>)
    requires DistinctNames(base) && base != []
    requires Discover(current).Ok? && NothingDeleted(base, current) && AppendsOnly(base, current)
    ensures Discover(base).Ok?
  {
    var sorted := Sort(base, NameOrder());
    SortKeepsItems(base, NameOrder());
    var pos := AllPositions(base, current, sorted);
    PositionsAscend(base, current, pos);
    forall k, j | 0 <= k < |pos| && 0 <= j < pos[k] ensures j in pos {
      NoGapBelow(base, current, sorted, pos, k, j);
    }
    DenseFromZero(pos, |pos| - 1);
    FirstStepsAreAChain(base, current, pos);
  }

  lemma ParsedLeads(name: string)
    requires ParseName(name).Some?
    ensures LeadingVersion(name) == Some(ParseName(name).value.0)
  {
  }

  lemma VersionsAreCounted(files: seq<MigrationFile>, f: MigrationFile)
    requires Discover(files).Ok? && f in files
    ensures ParseName(f.name).Some? && ParseName(f.name).value.0 <= |files|
  {
    DiscoveredSteps(files);
    var j := StepOf(files, f);
  }

  /** The check is needed for it: with no deletion alone, the current tree may have filled a gap of the base. */
  lemma FilledGapIsNotAppended(a: MigrationFile, b: MigrationFile, c: MigrationFile)
    requires ParseName(b.name).Some? && ParseName(c.name).Some? && ParseName(c.name).value.0 > 2
    requires ParseName(b.name).value.0 < ParseName(c.name).value.0 && b.name != a.name
    ensures NothingDeleted([a, c], [a, b, c]) && !AppendsOnly([a, c], [a, b, c]) && Discover([a, c]).Err?
  {
    ParsedLeads(b.name);
    ParsedLeads(c.name);
    HighestIsVersion([a, c], c);
    assert b in [a, b, c] && !HasName([a, c], b.name) && !Appends(b, [a, c]);
    assert [a, b, c][0].name == a.name && [a, b, c][2].name == c.name;
    if Discover([a, c]).Ok? {
      VersionsAreCounted([a, c], c);
    }
  }

  // --- What passing means ---

  /** The current chain is valid and goes on where the base chain, if there is one, ends. */
  ghost predicate ExtendsChain(base: seq<MigrationFile>, current: seq<MigrationFile>) {
    && Discover(current).Ok?
    && (base != [] ==> Discover(base).Ok? && ExtendsRelease(Discover(base).value, Discover(current).value))
  }

  /**
   The gate's checks pass exactly if every kept base file can be read and the current chain extends the base chain.
   */
  lemma GateMeansExtension(base: BaseRef, current: seq<MigrationFile>)
    requires DistinctNames(base.files) && DistinctNames(current)
    ensures Passes(base, current) <==> AllReadable(base, current) && ExtendsChain(base.files, current)
  {
    if base.files == [] {
      if Discover(current).Ok? {
        EverythingAppendsToNothing(current);
      }
    } else {
      if Passes(base, current) {
        AppendOnlyMeansValidBase(base.files, current);
        GateImpliesExtension(base, current);
      }
      if ExtendsChain(base.files, current) {
        ExtensionImpliesGate(base, current);
        DeletionFreeReleasesAppend(base, current);
      }
    }
  }

  lemma EverythingAppendsToNothing(current: seq<MigrationFile>)
    requires Discover(current).Ok?
    ensures AppendsOnly([], current)
  {
    forall f | f in current ensures Appends(f, []) {
      var j := StepOf(current, f);
    }
  }

  ghost predicate Accepts(files: seq<MigrationFile>, applied: seq<AppliedMigration>) {
    Discover(files).Ok? && IsHistoryOf(applied, Discover(files).value)
  }

  /**
   Soundness of the gate: the base release, if it has migrations at all, is a valid one, and every history it accepts
   is accepted by the tree that passes, as is the history of a database that was never migrated.
   */
  lemma GateKeepsHistoriesValid(base: BaseRef, current: seq<MigrationFile>, applied: seq<AppliedMigration>)
    requires DistinctNames(base.files) && DistinctNames(current) && Passes(base, current)
    ensures base.files != [] ==> Discover(base.files).Ok?
    ensures Accepts(base.files, applied) || applied == [] ==> Accepts(current, applied)
  {
    GateMeansExtension(base, current);
    if Accepts(base.files, applied) && base.files != [] {
      ExtensionKeepsHistories(base.files, current, applied);
    }
  }

  lemma ExtensionKeepsHistories(baseFiles: seq<MigrationFile>, current: seq<MigrationFile>,
                                applied: seq<AppliedMigration>)
    requires Discover(baseFiles).Ok? && Discover(current).Ok?
    requires ExtendsRelease(Discover(baseFiles).value, Discover(current).value)
    requires IsHistoryOf(applied, Discover(baseFiles).value)
    ensures IsHistoryOf(applied, Discover(current).value)
  {
    var baseSteps, steps := Discover(baseFiles).value, Discover(current).value;
    DiscoveredSteps(baseFiles);
    DiscoveredSteps(current);
    forall i | 0 <= i < |applied| ensures Records(applied[i], steps[i]) {
      assert Records(applied[i], baseSteps[i]) && ParsedFrom(baseSteps[i]) && ParsedFrom(steps[i]);
      SameGateTextSameChecksum(baseSteps[i].file.content, steps[i].file.content);
    }
  }

  /** Texts the gate calls equal have equal step checksums, although the two normalise newlines differently. */
  lemma SameGateTextSameChecksum(a: string, b: string)
    requires GateDigest(a) == GateDigest(b)
    ensures Checksum(a) == Checksum(b)
  {
    ReadingFactorsThroughReplacement(a);
    ReadingFactorsThroughReplacement(b);
  }

  ghost predicate SameCrs(a: string, b: string) {
    |a| == |b| && forall i :: 0 <= i < |a| ==> (a[i] == '\r' <==> b[i] == '\r')
  }

  lemma {:induction false} CrToLfAt(s: string, i: nat)
    requires i < |s|
    ensures CrToLf(s)[i] == if s[i] == '\r' then '\n' else s[i]
  {
    if i > 0 {
      CrToLfAt(s[1..], i - 1);
    }
  }

  /** The gate tells more apart than the step checksum: exactly where a CR is left after the replacement of CR LF. */
  lemma GateDigestMeansChecksumAndCrs(a: string, b: string)
    ensures GateDigest(a) == GateDigest(b) <==> Checksum(a) == Checksum(b) && SameCrs(CrlfToLf(a), CrlfToLf(b))
  {
    ReadingFactorsThroughReplacement(a);
    ReadingFactorsThroughReplacement(b);
    var x, y := CrlfToLf(a), CrlfToLf(b);
    if CrToLf(x) == CrToLf(y) && SameCrs(x, y) {
      forall i | 0 <= i < |x| ensures x[i] == y[i] {
        CrToLfAt(x, i);
        CrToLfAt(y, i);
      }
    }
  }

  ghost predicate NoLoneCr(s: string) {
    forall i :: 0 <= i < |s| && s[i] == '\r' ==> i + 1 < |s| && s[i + 1] == '\n'
  }

  lemma {:induction false} NoCrIsLeft(s: string)
    requires NoLoneCr(s)
    ensures '\r' !in CrlfToLf(s)
  {
    if s != "" {
      if s[0] == '\r' {
        TailHasNoLoneCr(s, 2);
        NoCrIsLeft(s[2..]);
      } else {
        TailHasNoLoneCr(s, 1);
        NoCrIsLeft(s[1..]);
      }
    }
  }

  lemma TailHasNoLoneCr(s: string, n: nat)
    requires NoLoneCr(s) && n <= |s|
    ensures NoLoneCr(s[n..])
  {
    forall i | 0 <= i < |s[n..]| && s[n..][i] == '\r' ensures i + 1 < |s[n..]| && s[n..][i + 1] == '\n' {
      assert s[n..][i] == s[n + i];
    }
  }

  /** So on files without a lone CR the gate and the step checksum tell the same apart. */
  lemma DigestsAgreeWithoutLoneCr(a: string, b: string)
    requires NoLoneCr(a) && NoLoneCr(b)
    ensures GateDigest(a) == GateDigest(b) <==> Checksum(a) == Checksum(b)
  {
    GateDigestMeansChecksumAndCrs(a, b);
    NoCrIsLeft(a);
    NoCrIsLeft(b);
    if Checksum(a) == Checksum(b) {
      ReadingFactorsThroughReplacement(a);
      ReadingFactorsThroughReplacement(b);
    }
  }

  /** The converse fails: a CR turned into LF changes the gate's digest but not the step checksum. */
  lemma GateIsStricterThanChecksum()
    ensures GateDigest("a\rb") != GateDigest("a\nb") && Checksum("a\rb") == Checksum("a\nb")
  {
    var a, b := "a\rb", "a\nb";
    assert a[1..] == "\rb" && b[1..] == "\nb" && a[1..][1..] == "b" && b[1..][1..] == "b";
    assert CrlfToLf(a)[1] == '\r' && CrlfToLf(b)[1] == '\n';
    assert UniversalNewlines(a) == ['a'] + UniversalNewlines("\rb");
    assert UniversalNewlines("\rb") == ['\n'] + UniversalNewlines("b") == UniversalNewlines("\nb");
  }

  predicate CrlfAt(s: string, i: nat) {
    i + 1 < |s| && s[i] == '\r' && s[i + 1] == '\n'
  }

  /** A CR directly before a CR LF. */
  predicate CrCrlfAt(s: string, i: nat) {
    i < |s| && s[i] == '\r' && CrlfAt(s, i + 1)
  }

  ghost predicate HasCrlf(s: string) {
    exists i: nat :: CrlfAt(s, i)
  }

  ghost predicate HasCrCrlf(s: string) {
    exists i: nat :: CrCrlfAt(s, i)
  }

  lemma FoundInTail(s: string, n: nat, i: nat)
    requires n <= |s|
    ensures CrlfAt(s[n..], i) <==> CrlfAt(s, n + i)
    ensures CrCrlfAt(s[n..], i) <==> CrCrlfAt(s, n + i)
  {
  }

  /** Reading shortens a text exactly by its CR LF; without one it only replaces each CR. */
  lemma {:induction false} ReadingShortens(s: string)
    ensures |UniversalNewlines(s)| <= |s|
    ensures |UniversalNewlines(s)| < |s| <==> HasCrlf(s)
    ensures !HasCrlf(s) ==> UniversalNewlines(s) == CrToLf(s)
  {
    if s != "" {
      if s[0] == '\r' && |s| > 1 && s[1] == '\n' {
        assert CrlfAt(s, 0);
        ReadingShortens(s[2..]);
      } else {
        ReadingShortens(s[1..]);
        CrlfInTail(s);
      }
    }
  }

  lemma CrlfInTail(s: string)
    requires s != "" && !CrlfAt(s, 0)
    ensures HasCrlf(s) <==> HasCrlf(s[1..])
  {
    if HasCrlf(s) {
      var i: nat :| CrlfAt(s, i);
      FoundInTail(s, 1, i - 1);
    }
    if HasCrlf(s[1..]) {
      var i: nat :| CrlfAt(s[1..], i);
      FoundInTail(s, 1, i);
    }
  }

  lemma CrCrlfInTail(s: string, n: nat)
    requires n <= |s| && forall i: nat :: i < n ==> !CrCrlfAt(s, i)
    ensures HasCrCrlf(s) <==> HasCrCrlf(s[n..])
  {
    if HasCrCrlf(s) {
      var i: nat :| CrCrlfAt(s, i);
      FoundInTail(s, n, i - n);
    }
    if HasCrCrlf(s[n..]) {
      var i: nat :| CrCrlfAt(s[n..], i);
      FoundInTail(s, n, i);
    }
  }

  /** The replacement leaves a CR LF exactly where a CR stood before one. */
  lemma {:induction false} ReplacementLeavesCrlf(s: string)
    ensures HasCrlf(CrlfToLf(s)) <==> HasCrCrlf(s)
  {
    if s != "" {
      var r := CrlfToLf(s);
      if s[0] == '\r' && |s| > 1 && s[1] == '\n' {
        ReplacementLeavesCrlf(s[2..]);
        CrCrlfInTail(s, 2);
        assert r == ['\n'] + CrlfToLf(s[2..]) && r[1..] == CrlfToLf(s[2..]);
        CrlfInTail(r);
      } else {
        ReplacementLeavesCrlf(s[1..]);
        assert r == [s[0]] + CrlfToLf(s[1..]) && r[1..] == CrlfToLf(s[1..]);
        LeftAtFront(s);
        if !CrlfAt(r, 0) {
          CrlfInTail(r);
          CrCrlfInTail(s, 1);
        }
      }
    }
  }

  lemma LeftAtFront(s: string)
    requires s != "" && !CrlfAt(s, 0)
    ensures CrlfAt(CrlfToLf(s), 0) <==> CrCrlfAt(s, 0)
  {
    var r := CrlfToLf(s);
    assert r == [s[0]] + CrlfToLf(s[1..]);
    if |s| > 1 {
      assert s[1..][0] == s[1] && (|s| > 2 ==> s[1..][1] == s[2]);
    }
  }

  /** Reading what the gate's replacement left is reading the text exactly if no CR stands directly before a CR LF. */
  lemma NormalisationsComposeIff(s: string)
    ensures UniversalNewlines(CrlfToLf(s)) == UniversalNewlines(s) <==> !HasCrCrlf(s)
  {
    ReadingFactorsThroughReplacement(s);
    ReplacementLeavesCrlf(s);
    ReadingShortens(CrlfToLf(s));
  }

  /** Reading the gate's text again in text mode would not do: the two normalisations do not simply compose. */
  lemma NormalisationsDoNotCompose()
    ensures UniversalNewlines(CrlfToLf("\r\r\n")) != UniversalNewlines("\r\r\n")
  {
    var s := "\r\r\n";
    assert s[1..] == "\r\n" && s[1..][2..] == "";
    assert CrlfToLf(s) == ['\r'] + CrlfToLf("\r\n") && CrlfToLf("\r\n") == ['\n'] + "";
    assert CrlfToLf(s) == "\r\n" && "\r\n"[2..] == "";
    assert UniversalNewlines("\r\n") == "\n";
    assert |UniversalNewlines(s)| == 2;
  }
}
