/** Migration files, the steps discovered from them, and the recorded history of applied steps. */
module MigrationSteps {
  import opened Sequences
  import opened Text

  datatype MigrationFile = MigrationFile(name: string, content: string)

  /** SHA-256 taken as injective: a digest is known by its preimage. */
  datatype Digest = Sha256(preimage: string)

  datatype Step = Step(version: nat, name: string, file: MigrationFile)

  datatype AppliedMigration = AppliedMigration(version: int, name: string, checksum: Digest, fingerprint: Digest)

  datatype SchemaError =
    | InvalidFilename(name: string)
    | NoMigrations
    | DuplicateVersions
    | DuplicateNames
    | NotContiguous
    | HistoryNotContiguous
    | DatabaseIsNewer
    | HistoryMismatch(version: int)
    | MigrationInProgress
    | BootstrapRefused
    | FingerprintDrift
    | ScriptFailed(version: int)
    | ContractViolated
    | ConnectionLost
    | HistoryMissing
    | NotReady

  datatype Result<+T> = Ok(value: T) | Err(error: SchemaError)

  // --- Newline handling ---

  /** Byte-level replacement of CR LF by LF; a lone CR stays. */
  function CrlfToLf(s: string): string {
    if s == "" then ""
    else if s[0] == '\r' && |s| > 1 && s[1] == '\n' then ['\n'] + CrlfToLf(s[2..])
    else [s[0]] + CrlfToLf(s[1..])
  }

  /** Text-mode reading: CR LF and a lone CR both become LF. */
  function UniversalNewlines(s: string): string {
    if s == "" then ""
    else if s[0] == '\r' then ['\n'] + UniversalNewlines(if |s| > 1 && s[1] == '\n' then s[2..] else s[1..])
    else [s[0]] + UniversalNewlines(s[1..])
  }

  function Checksum(content: string): Digest {
    Sha256(CrlfToLf(UniversalNewlines(content)))
  }

  function CrToLf(s: string): (r: string)
    ensures |r| == |s|
  {
    if s == "" then "" else [if s[0] == '\r' then '\n' else s[0]] + CrToLf(s[1..])
  }

  /** Text-mode reading factors through the byte-level replacement, and leaves no CR behind. */
  lemma {:induction false} ReadingFactorsThroughReplacement(s: string)
    ensures UniversalNewlines(s) == CrToLf(CrlfToLf(s))
    ensures CrlfToLf(UniversalNewlines(s)) == UniversalNewlines(s)
  {
    if s != "" {
      if s[0] == '\r' && |s| > 1 && s[1] == '\n' {
        ReadingFactorsThroughReplacement(s[2..]);
      } else {
        ReadingFactorsThroughReplacement(s[1..]);
      }
    }
  }

  // --- File names ---

  /** The leading four digits of a file name, if it has them. */
  function LeadingVersion(name: string): Option<nat> {
    if |name| < 4 || !(IsDigit(name[0]) && IsDigit(name[1]) && IsDigit(name[2]) && IsDigit(name[3])) then None
    else Some(1000 * DigitValue(name[0]) + 100 * DigitValue(name[1]) + 10 * DigitValue(name[2]) + DigitValue(name[3]))
  }

  predicate IsSlugChar(c: char) {
    'a' <= c <= 'z' || IsDigit(c) || c == '_'
  }

  /** Four digits, an underscore, a non-empty lower-case slug and the suffix. */
  function ParseName(name: string): Option<(nat, string)> {
    if LeadingVersion(name).None? || |name| < 10 || name[4] != '_' || name[|name| - 4..] != ".sql" then None
    else
      var slug := name[5..|name| - 4];
      if forall i :: 0 <= i < |slug| ==> IsSlugChar(slug[i]) then Some((LeadingVersion(name).value, slug)) else None
  }

  // --- Names, read and written ---

  const DIGITS := "0123456789"

  function FourDigits(v: nat): string
    requires v < 10000
  {
    [DIGITS[v / 10 / 10 / 10], DIGITS[v / 10 / 10 % 10], DIGITS[v / 10 % 10], DIGITS[v % 10]]
  }

  lemma DigitsStand(c: char)
    ensures IsDigit(c) <==> c in DIGITS
    ensures IsDigit(c) ==> DIGITS[DigitValue(c)] == c
    ensures forall d :: 0 <= d < 10 ==> IsDigit(DIGITS[d]) && DigitValue(DIGITS[d]) == d
  {
  }

  lemma OnePlace(rest: nat, d: nat)
    requires d < 10
    ensures (10 * rest + d) / 10 == rest && (10 * rest + d) % 10 == d
  {
  }

  lemma PlacesOfNumber(v: nat)
    requires v < 10000
    ensures v == 1000 * (v / 10 / 10 / 10) + 100 * (v / 10 / 10 % 10) + 10 * (v / 10 % 10) + v % 10
    ensures v / 10 / 10 / 10 < 10
  {
    var w := v / 10;
    assert v == 10 * w + v % 10 && w == 10 * (w / 10) + w % 10 && w / 10 == 10 * (w / 10 / 10) + w / 10 % 10;
  }

  lemma FourDigitsOf(v: nat, abc: nat, ab: nat, a: nat, b: nat, c: nat, d: nat)
    requires a < 10 && b < 10 && c < 10 && d < 10
    requires v == 10 * abc + d && abc == 10 * ab + c && ab == 10 * a + b
    ensures v < 10000 && FourDigits(v) == [DIGITS[a], DIGITS[b], DIGITS[c], DIGITS[d]]
  {
    assert v / 10 == abc && v % 10 == d by { OnePlace(abc, d); }
    assert abc / 10 == ab && abc % 10 == c by { OnePlace(ab, c); }
    assert ab / 10 == a && ab % 10 == b by { OnePlace(a, b); }
  }

  lemma VersionHasDigits(name: string)
    requires LeadingVersion(name).Some?
    ensures LeadingVersion(name).value < 10000 && FourDigits(LeadingVersion(name).value) == name[..4]
  {
    var a, b, c, d := DigitValue(name[0]), DigitValue(name[1]), DigitValue(name[2]), DigitValue(name[3]);
    DigitsStand(name[0]);
    DigitsStand(name[1]);
    DigitsStand(name[2]);
    DigitsStand(name[3]);
    var ab := 10 * a + b;
    FourDigitsOf(LeadingVersion(name).value, 10 * ab + c, ab, a, b, c, d);
    assert name[..4] == [name[0], name[1], name[2], name[3]];
  }

  lemma DigitsAreVersion(name: string, v: nat)
    requires v < 10000 && |name| >= 4 && name[..4] == FourDigits(v)
    ensures LeadingVersion(name) == Some(v)
  {
    var digits := FourDigits(v);
    PlacesOfNumber(v);
    DigitsStand('0');
    assert name[0] == name[..4][0] && name[1] == name[..4][1] && name[2] == name[..4][2] && name[3] == name[..4][3];
  }

  /** A leading version is a number whose four digits the name starts with. */
  lemma LeadingVersionReads(name: string, v: nat)
    ensures LeadingVersion(name) == Some(v) <==> v < 10000 && |name| >= 4 && name[..4] == FourDigits(v)
  {
    if LeadingVersion(name).Some? {
      VersionHasDigits(name);
    }
    if v < 10000 && |name| >= 4 && name[..4] == FourDigits(v) {
      DigitsAreVersion(name, v);
    }
  }

  /** Names are read exactly as they are written: four digits, an underscore, a name of small letters, digits and
      underscores, and the ending. */
  lemma NamesReadBack(name: string, v: nat, slug: string)
    ensures ParseName(name) == Some((v, slug)) <==>
            && v < 10000 && slug != "" && (forall c :: c in slug ==> c in "abcdefghijklmnopqrstuvwxyz0123456789_")
            && name == FourDigits(v) + "_" + slug + ".sql"
  {
    LeadingVersionReads(name, v);
    forall c ensures IsSlugChar(c) <==> c in "abcdefghijklmnopqrstuvwxyz0123456789_" {
      SlugCharsSpelled(c);
    }
    if v < 10000 {
      if name == FourDigits(v) + "_" + slug + ".sql" {
        assert name[..4] == FourDigits(v) && name[5..|name| - 4] == slug && name[|name| - 4..] == ".sql";
      }
      if ParseName(name) == Some((v, slug)) {
        assert name == name[..4] + [name[4]] + name[5..|name| - 4] + name[|name| - 4..];
      }
    }
  }

  lemma SlugCharsSpelled(c: char)
    ensures IsSlugChar(c) <==> c in "abcdefghijklmnopqrstuvwxyz0123456789_"
  {
  }

  // --- Discovery ---

  function NameOrder(): (MigrationFile, MigrationFile) -> bool {
    (a: MigrationFile, b: MigrationFile) => AtMost(a.name, b.name)
  }

  function ParseAll(files: seq<MigrationFile>): Result<seq<Step>> {
    if files == [] then Ok([])
    else
      var front := ParseAll(files[..|files| - 1]);
      var last := files[|files| - 1];
      if front.Err? then front
      else match ParseName(last.name)
        case None => Err(InvalidFilename(last.name))
        case Some((version, name)) => Ok(front.value + [Step(version, name, last)])
  }

  predicate Unique<T(==)>(s: seq<T>) {
    s == [] || (s[0] !in s[1..] && Unique(s[1..]))
  }

  ghost predicate ContiguousFromOne(steps: seq<Step>) {
    forall i :: 0 <= i < |steps| ==> steps[i].version == i + 1
  }

  function Discover(files: seq<MigrationFile>): Result<seq<Step>> {
    match ParseAll(Sort(files, NameOrder()))
    case Err(e) => Err(e)
    case Ok(steps) =>
      if steps == [] then Err(NoMigrations)
      else if !Unique(seq(|steps|, i requires 0 <= i < |steps| => steps[i].version)) then Err(DuplicateVersions)
      else if !Unique(seq(|steps|, i requires 0 <= i < |steps| => steps[i].name)) then Err(DuplicateNames)
      else if exists i :: 0 <= i < |steps| && steps[i].version != i + 1 then Err(NotContiguous)
      else Ok(steps)
  }

  method DiscoverMigrations(files: seq<MigrationFile>) returns (r: Result<seq<Step>>)
    ensures r == Discover(files)
  {
    var sorted := Sort(files, NameOrder());
    var steps: seq<Step> := [];
    for i := 0 to |sorted|
      invariant ParseAll(sorted[..i]) == Ok(steps)
    {
      assert sorted[..i + 1][..i] == sorted[..i];
      var parsed := ParseName(sorted[i].name);
      if parsed.None? {
        ParseFailsOnward(sorted, i + 1);
        return Err(InvalidFilename(sorted[i].name));
      }
      steps := steps + [Step(parsed.value.0, parsed.value.1, sorted[i])];
    }
    assert sorted[..|sorted|] == sorted;
    if steps == [] {
      return Err(NoMigrations);
    }
    var versions := seq(|steps|, i requires 0 <= i < |steps| => steps[i].version);
    var names := seq(|steps|, i requires 0 <= i < |steps| => steps[i].name);
    if !Unique(versions) {
      return Err(DuplicateVersions);
    }
    if !Unique(names) {
      return Err(DuplicateNames);
    }
    if exists i :: 0 <= i < |steps| && steps[i].version != i + 1 {
      return Err(NotContiguous);
    }
    r := Ok(steps);
  }

  lemma {:induction false} ParseFailsOnward(files: seq<MigrationFile>, n: nat)
    requires n <= |files| && ParseAll(files[..n]).Err?
    ensures ParseAll(files) == ParseAll(files[..n])
    decreases |files|
  {
    if n < |files| {
      var front := files[..|files| - 1];
      assert front[..n] == files[..n];
      ParseFailsOnward(front, n);
    } else {
      assert files[..n] == files;
    }
  }

  /** Discovered steps are the files, one step each, in version order 1, 2, 3, ... */
  lemma DiscoveredSteps(files: seq<MigrationFile>)
    requires Discover(files).Ok?
    ensures var steps := Discover(files).value;
            && |steps| == |files| > 0 && ContiguousFromOne(steps)
            && (forall i :: 0 <= i < |steps| ==> steps[i].file in files && ParsedFrom(steps[i]))
            && (forall f :: f in files ==> exists i :: 0 <= i < |steps| && steps[i].file == f)
  {
    var sorted := Sort(files, NameOrder());
    SortKeepsItems(files, NameOrder());
    ParsedInOrder(sorted);
    EachFileHasAStep(files, sorted, Discover(files).value);
  }

  /** What discovery is refused for first: a name that cannot be read, or no file at all. */
  lemma UnreadableNames(files: seq<MigrationFile>)
    ensures var r := Discover(files);
            && (r.Err? && r.error.InvalidFilename? ==>
                  exists f :: f in files && r.error == InvalidFilename(f.name) && ParseName(f.name).None?)
            && ((exists f :: f in files && ParseName(f.name).None?) ==> r.Err? && r.error.InvalidFilename?)
            && (r == Err(NoMigrations) <==> files == [])
  {
    var sorted := Sort(files, NameOrder());
    SortKeepsItems(files, NameOrder());
    ParsingFailsIff(sorted);
    if files == [] {
      assert sorted == [];
    } else if ParseAll(sorted).Ok? {
      ParsedInOrder(sorted);
    }
  }

  lemma {:induction false} ParsingFailsIff(files: seq<MigrationFile>)
    ensures var r := ParseAll(files);
            if r.Err? then exists f :: f in files && r.error == InvalidFilename(f.name) && ParseName(f.name).None?
            else forall f :: f in files ==> ParseName(f.name).Some?
  {
    if files != [] {
      ParsingFailsIff(files[..|files| - 1]);
      assert files[|files| - 1] in files;
    }
  }

  lemma EachFileHasAStep(files: seq<MigrationFile>, sorted: seq<MigrationFile>, steps: seq<Step>)
    requires |steps| == |sorted| && forall i :: 0 <= i < |steps| ==> steps[i].file == sorted[i]
    requires forall f :: f in sorted <==> f in files
    ensures forall f :: f in files ==> exists i :: 0 <= i < |steps| && steps[i].file == f
  {
    forall f | f in files ensures exists i :: 0 <= i < |steps| && steps[i].file == f {
      var i :| 0 <= i < |sorted| && sorted[i] == f;
      assert steps[i].file == f;
    }
  }

  predicate ParsedFrom(step: Step) {
    ParseName(step.file.name) == Some((step.version, step.name))
  }

  lemma {:induction false} ParsedInOrder(files: seq<MigrationFile>)
    requires ParseAll(files).Ok?
    ensures var steps := ParseAll(files).value;
            |steps| == |files| && forall i :: 0 <= i < |steps| ==> steps[i].file == files[i] && ParsedFrom(steps[i])
  {
    if files != [] {
      ParsedInOrder(files[..|files| - 1]);
    }
  }

  // --- History ---

  predicate Records(row: AppliedMigration, step: Step) {
    row.version == step.version && row.name == step.name && row.checksum == Checksum(step.file.content)
  }

  /** The recorded history is a prefix of the registered steps. */
  ghost predicate IsHistoryOf(applied: seq<AppliedMigration>, steps: seq<Step>) {
    |applied| <= |steps| && forall i :: 0 <= i < |applied| ==> Records(applied[i], steps[i])
  }

  /** The first recorded row from `at` on that does not record its step. */
  function FirstMismatch(applied: seq<AppliedMigration>, steps: seq<Step>, at: nat): Option<AppliedMigration>
    requires at <= |applied| <= |steps|
    decreases |applied| - at
  {
    if at == |applied| then None
    else if !Records(applied[at], steps[at]) then Some(applied[at])
    else FirstMismatch(applied, steps, at + 1)
  }

  function CheckHistory(applied: seq<AppliedMigration>, steps: seq<Step>): Result<()> {
    if exists i :: 0 <= i < |applied| && applied[i].version != i + 1 then Err(HistoryNotContiguous)
    else if |applied| > |steps| then Err(DatabaseIsNewer)
    else match FirstMismatch(applied, steps, 0)
      case None => Ok(())
      case Some(row) => Err(HistoryMismatch(row.version))
  }

  lemma {:induction false} NoMismatch(applied: seq<AppliedMigration>, steps: seq<Step>, at: nat)
    requires at <= |applied| <= |steps|
    ensures FirstMismatch(applied, steps, at) == None <==>
            forall i :: at <= i < |applied| ==> Records(applied[i], steps[i])
    decreases |applied| - at
  {
    if at < |applied| {
      NoMismatch(applied, steps, at + 1);
    }
  }

  /** The three checks together accept exactly the prefixes of the registered steps. */
  lemma HistoryCheckAcceptsPrefixes(applied: seq<AppliedMigration>, steps: seq<Step>)
    requires ContiguousFromOne(steps)
    ensures CheckHistory(applied, steps).Ok? <==> IsHistoryOf(applied, steps)
  {
    if |applied| <= |steps| {
      NoMismatch(applied, steps, 0);
      if IsHistoryOf(applied, steps) {
        forall i | 0 <= i < |applied| ensures applied[i].version == i + 1 {
          assert Records(applied[i], steps[i]);
        }
      }
    }
  }

  /** A row that tells a step's number, name and content as read in text mode. */
  ghost predicate Tells(row: AppliedMigration, i: nat, step: Step) {
    row.version == i + 1 && row.name == step.name && row.checksum == Sha256(UniversalNewlines(step.file.content))
  }

  lemma RecordsMeansTells(row: AppliedMigration, i: nat, step: Step)
    requires step.version == i + 1
    ensures Records(row, step) <==> Tells(row, i, step)
  {
    ReadingFactorsThroughReplacement(step.file.content);
  }

  lemma {:induction false} FirstMismatchIsFirst(applied: seq<AppliedMigration>, steps: seq<Step>, at: nat)
    requires at <= |applied| <= |steps| && FirstMismatch(applied, steps, at).Some?
    ensures exists i :: at <= i < |applied| && FirstMismatch(applied, steps, at) == Some(applied[i])
                        && !Records(applied[i], steps[i]) && forall k :: at <= k < i ==> Records(applied[k], steps[k])
    decreases |applied| - at
  {
    if Records(applied[at], steps[at]) {
      FirstMismatchIsFirst(applied, steps, at + 1);
    }
  }

  /** Row `i` is the first that does not tell its step. */
  ghost predicate FirstUntold(applied: seq<AppliedMigration>, steps: seq<Step>, i: nat) {
    && i < |applied| <= |steps| && !Tells(applied[i], i, steps[i])
    && forall k :: 0 <= k < i ==> Tells(applied[k], k, steps[k])
  }

  /** The answers of the check, on the rows' own fields. */
  lemma HistoryByFields(applied: seq<AppliedMigration>, steps: seq<Step>)
    requires ContiguousFromOne(steps)
    ensures match CheckHistory(applied, steps)
            case Ok(_) => |applied| <= |steps| && forall i :: 0 <= i < |applied| ==> Tells(applied[i], i, steps[i])
            case Err(HistoryNotContiguous) => exists i :: 0 <= i < |applied| && applied[i].version != i + 1
            case Err(DatabaseIsNewer) => |applied| > |steps|
            case Err(HistoryMismatch(version)) => exists i: nat :: FirstUntold(applied, steps, i) && version == i + 1
            case Err(_) => false
  {
    if |applied| <= |steps| {
      NoMismatch(applied, steps, 0);
      forall i | 0 <= i < |applied| ensures Records(applied[i], steps[i]) <==> Tells(applied[i], i, steps[i]) {
        RecordsMeansTells(applied[i], i, steps[i]);
      }
      if FirstMismatch(applied, steps, 0).Some? {
        FirstMismatchIsFirst(applied, steps, 0);
        var i: nat :| i < |applied| && FirstMismatch(applied, steps, 0) == Some(applied[i])
                      && !Records(applied[i], steps[i]) && forall k :: 0 <= k < i ==> Records(applied[k], steps[k]);
        assert FirstUntold(applied, steps, i);
      }
    }
  }

  method ValidateHistoryPrefix(applied: seq<AppliedMigration>, steps: seq<Step>) returns (r: Result<()>)
    ensures r == CheckHistory(applied, steps)
  {
    if exists i :: 0 <= i < |applied| && applied[i].version != i + 1 {
      return Err(HistoryNotContiguous);
    }
    if |applied| > |steps| {
      return Err(DatabaseIsNewer);
    }
    for index := 0 to |applied|
      invariant FirstMismatch(applied, steps, 0) == FirstMismatch(applied, steps, index)
    {
      var row, step := applied[index], steps[index];
      if row.version != step.version || row.name != step.name || row.checksum != Checksum(step.file.content) {
        return Err(HistoryMismatch(row.version));
      }
    }
    r := Ok(());
  }
}
