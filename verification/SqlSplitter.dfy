/** The two splitters of the persistence gate: one knows doubled quotes, one only toggles, and they agree. */
module SqlSplitter {
  import opened Sequences
  import opened SqlScanner
  import Text

  datatype Mode = Mode(quote: Option<char>, depth: nat)

  const START := Mode(None, 0)

  function Outside(depth: nat, c: char): Mode {
    if IsQuote(c) then Mode(Some(c), depth)
    else if c == '(' then Mode(None, depth + 1)
    else if c == ')' then Mode(None, if depth > 0 then depth - 1 else 0)
    else Mode(None, depth)
  }

  // --- How each scanner sees a text: per character, nothing inside quotes and for quotes, else the depth ---

  type Level = Option<nat>

  function LevelOf(m: Mode, c: char): Level {
    if m.quote.Some? || IsQuote(c) then None else Some(m.depth)
  }

  function ToggleNext(m: Mode, c: char): Mode {
    if m.quote.Some? then (if c == m.quote.value then Mode(None, m.depth) else m) else Outside(m.depth, c)
  }

  /** The column splitter: every quote character toggles. */
  function ToggleLevels(s: string, i: nat, m: Mode): (levels: seq<Level>)
    requires i <= |s|
    ensures |levels| == |s| - i
    decreases |s| - i
  {
    if i == |s| then [] else [LevelOf(m, s[i])] + ToggleLevels(s, i + 1, ToggleNext(m, s[i]))
  }

  /** The statement splitter: inside quotes a doubled quote is taken as a pair. */
  function AwareLevels(s: string, i: nat, m: Mode): (levels: seq<Level>)
    requires i <= |s|
    ensures |levels| == |s| - i
    decreases |s| - i
  {
    if i == |s| then []
    else if m.quote.Some? then
      if s[i] != m.quote.value then [None] + AwareLevels(s, i + 1, m)
      else if i + 1 < |s| && s[i + 1] == m.quote.value then [None, None] + AwareLevels(s, i + 2, m)
      else [None] + AwareLevels(s, i + 1, Mode(None, m.depth))
    else [LevelOf(m, s[i])] + AwareLevels(s, i + 1, Outside(m.depth, s[i]))
  }

  /** Both scanners see the same characters as outside quotes, at the same depth, in every text. */
  lemma {:induction false} ScannersAgree(s: string, i: nat, m: Mode)
    requires i <= |s| && (m.quote.Some? ==> IsQuote(m.quote.value))
    ensures AwareLevels(s, i, m) == ToggleLevels(s, i, m)
    decreases |s| - i
  {
    if i < |s| {
      if m.quote.Some? && s[i] == m.quote.value && i + 1 < |s| && s[i + 1] == m.quote.value {
        ScannersAgree(s, i + 2, m);
        assert ToggleNext(ToggleNext(m, s[i]), s[i + 1]) == m;
        assert ToggleLevels(s, i, m) == [None] + ([None] + ToggleLevels(s, i + 2, m));
      } else {
        ScannersAgree(s, i + 1, ToggleNext(m, s[i]));
      }
    }
  }

  // --- Cutting at separators outside quotes and parentheses ---

  function Glue(head: string, pieces: seq<string>): (r: seq<string>)
    requires pieces != []
    ensures |r| == |pieces|
  {
    [head + pieces[0]] + pieces[1..]
  }

  function Cut(s: string, levels: seq<Level>, sep: char, i: nat): (pieces: seq<string>)
    requires |levels| == |s| && i <= |s|
    ensures pieces != []
    decreases |s| - i
  {
    if i == |s| then [""]
    else if levels[i] == Some(0) && s[i] == sep then [""] + Cut(s, levels, sep, i + 1)
    else Glue([s[i]], Cut(s, levels, sep, i + 1))
  }

  /** Pieces as the splitters report them: stripped, blank ones dropped. */
  function Tidy(pieces: seq<string>): seq<string> {
    if pieces == [] then []
    else (if Text.Strip(pieces[0]) != "" then [Text.Strip(pieces[0])] else []) + Tidy(pieces[1..])
  }

  function Join(pieces: seq<string>, sep: char): string
    requires pieces != []
  {
    if |pieces| == 1 then pieces[0] else pieces[0] + [sep] + Join(pieces[1..], sep)
  }

  /** No character is lost: the unstripped pieces joined by the separator are the text. */
  lemma {:induction false} PiecesJoinBack(s: string, levels: seq<Level>, sep: char, i: nat)
    requires |levels| == |s| && i <= |s|
    ensures Join(Cut(s, levels, sep, i), sep) == s[i..]
    decreases |s| - i
  {
    if i < |s| {
      var rest := Cut(s, levels, sep, i + 1);
      PiecesJoinBack(s, levels, sep, i + 1);
      assert s[i..] == [s[i]] + s[i + 1..];
      if levels[i] == Some(0) && s[i] == sep {
        assert ([""] + rest)[1..] == rest;
      } else if |rest| > 1 {
        assert Glue([s[i]], rest)[1..] == rest[1..];
      }
    }
  }

  /** Read from a mode on, the text holds no separator that cuts. */
  predicate Uncut(t: string, m: Mode, sep: char) {
    t == "" || (!(LevelOf(m, t[0]) == Some(0) && t[0] == sep) && Uncut(t[1..], ToggleNext(m, t[0]), sep))
  }

  ghost predicate IsSeparator(sep: char) {
    !IsQuote(sep) && sep != '(' && sep != ')'
  }

  lemma {:induction false} PiecesAreUncut(s: string, levels: seq<Level>, sep: char, i: nat, m: Mode)
    requires |levels| == |s| && i <= |s| && levels[i..] == ToggleLevels(s, i, m) && IsSeparator(sep)
    ensures var pieces := Cut(s, levels, sep, i);
            Uncut(pieces[0], m, sep) && forall k :: 1 <= k < |pieces| ==> Uncut(pieces[k], START, sep)
    decreases |s| - i
  {
    if i < |s| {
      assert levels[i] == levels[i..][0] && levels[i + 1..] == levels[i..][1..];
      PiecesAreUncut(s, levels, sep, i + 1, ToggleNext(m, s[i]));
      var rest := Cut(s, levels, sep, i + 1);
      if !(levels[i] == Some(0) && s[i] == sep) {
        assert ([s[i]] + rest[0])[1..] == rest[0];
      }
    }
  }

  lemma {:induction false} UncutTextIsOnePiece(t: string, levels: seq<Level>, sep: char, i: nat, m: Mode)
    requires |levels| == |t| && i <= |t| && levels[i..] == ToggleLevels(t, i, m) && Uncut(t[i..], m, sep)
    ensures Cut(t, levels, sep, i) == [t[i..]]
    decreases |t| - i
  {
    if i < |t| {
      assert levels[i] == levels[i..][0] && levels[i + 1..] == levels[i..][1..];
      assert t[i..][1..] == t[i + 1..];
      UncutTextIsOnePiece(t, levels, sep, i + 1, ToggleNext(m, t[i]));
      assert t[i..] == [t[i]] + t[i + 1..];
    }
  }

  function Pieces(s: string, sep: char): seq<string> {
    Cut(s, ToggleLevels(s, 0, START), sep, 0)
  }

  /** Splitting is complete: the pieces join back to the text, and splitting a piece again yields just that piece. */
  lemma SplittingIsStable(s: string, sep: char)
    requires IsSeparator(sep)
    ensures Join(Pieces(s, sep), sep) == s
    ensures forall p :: p in Pieces(s, sep) ==> Pieces(p, sep) == [p]
  {
    var levels := ToggleLevels(s, 0, START);
    assert levels[0..] == levels && s[0..] == s;
    PiecesJoinBack(s, levels, sep, 0);
    PiecesAreUncut(s, levels, sep, 0, START);
    forall p | p in Pieces(s, sep) ensures Pieces(p, sep) == [p] {
      var inner := ToggleLevels(p, 0, START);
      assert inner[0..] == inner && p[0..] == p;
      UncutTextIsOnePiece(p, inner, sep, 0, START);
    }
  }

  // --- What the scan sees, by rules ---

  /** Where the scan stands before a position. */
  function ModeAt(s: string, i: nat): Mode
    requires i <= |s|
  {
    if i == 0 then START else ToggleNext(ModeAt(s, i - 1), s[i - 1])
  }

  lemma {:induction false} LevelsAt(s: string, n: nat, i: nat)
    requires n <= i < |s|
    ensures ToggleLevels(s, n, ModeAt(s, n))[i - n] == LevelOf(ModeAt(s, i), s[i])
    decreases i - n
  {
    if n < i {
      LevelsAt(s, n + 1, i);
    }
  }

  /** A quote of this kind, itself outside quotes, stands before a position and has not been closed since. */
  ghost predicate OpenedAt(s: string, a: nat, i: nat, q: char)
    requires i <= |s|
  {
    && a < i && ModeAt(s, a).quote == None && s[a] == q && (q == '\'' || q == '"')
    && forall k :: a < k < i ==> s[k] != q
  }

  /** Inside quotes means behind such an opening quote. */
  lemma {:induction false} InsideIffOpened(s: string, i: nat, q: char)
    requires i <= |s|
    ensures ModeAt(s, i).quote == Some(q) <==> exists a: nat :: OpenedAt(s, a, i, q)
  {
    if i > 0 {
      var before, c := ModeAt(s, i - 1), s[i - 1];
      InsideIffOpened(s, i - 1, q);
      forall a: nat | a < i - 1 ensures OpenedAt(s, a, i, q) <==> OpenedAt(s, a, i - 1, q) && c != q {
      }
      if before.quote == Some(q) && c != q {
        var a: nat :| OpenedAt(s, a, i - 1, q);
        assert OpenedAt(s, a, i, q);
      } else if before.quote == None && c == q && IsQuote(c) {
        assert OpenedAt(s, i - 1, i, q);
      }
    }
  }

  /** Parentheses opened less those closed, outside quotes. */
  function Balance(s: string, i: nat): int
    requires i <= |s|
  {
    if i == 0 then 0
    else if ModeAt(s, i - 1).quote.Some? then Balance(s, i - 1)
    else if s[i - 1] == '(' then Balance(s, i - 1) + 1
    else if s[i - 1] == ')' then Balance(s, i - 1) - 1
    else Balance(s, i - 1)
  }

  /** The depth is how far the balance has risen above its lowest point so far. */
  lemma {:induction false} DepthIsRise(s: string, i: nat)
    requires i <= |s|
    ensures forall k :: 0 <= k <= i ==> Balance(s, i) - Balance(s, k) <= ModeAt(s, i).depth
    ensures exists k :: 0 <= k <= i && Balance(s, i) - Balance(s, k) == ModeAt(s, i).depth
  {
    if i > 0 {
      DepthIsRise(s, i - 1);
      var low :| 0 <= low <= i - 1 && Balance(s, i - 1) - Balance(s, low) == ModeAt(s, i - 1).depth;
      if ModeAt(s, i - 1).quote == None && s[i - 1] == ')' && ModeAt(s, i - 1).depth == 0 {
        assert Balance(s, i) - Balance(s, i) == ModeAt(s, i).depth;
      } else {
        assert Balance(s, i) - Balance(s, low) == ModeAt(s, i).depth;
      }
    }
  }

  /** A separator cuts exactly if it stands outside quotes and the balance has never been lower: no parenthesis opened
      before it is still open, however many were closed too often. */
  lemma CutsByRules(s: string, sep: char, i: nat)
    requires i < |s| && IsSeparator(sep)
    ensures ToggleLevels(s, 0, START)[i] == Some(0) && s[i] == sep <==>
            && s[i] == sep && (forall a: nat, q :: !OpenedAt(s, a, i, q))
            && forall k :: 0 <= k <= i ==> Balance(s, i) <= Balance(s, k)
  {
    LevelsAt(s, 0, i);
    DepthIsRise(s, i);
    if ModeAt(s, i).quote.Some? {
      InsideIffOpened(s, i, ModeAt(s, i).quote.value);
    }
    forall a: nat, q | OpenedAt(s, a, i, q) ensures ModeAt(s, i).quote.Some? {
      InsideIffOpened(s, i, q);
    }
  }

  // --- The scanners themselves ---

  lemma GlueTwice(a: string, b: string, pieces: seq<string>)
    requires pieces != []
    ensures Glue(a, Glue(b, pieces)) == Glue(a + b, pieces)
  {
    assert a + (b + pieces[0]) == a + b + pieces[0];
  }

  lemma GlueNothing(pieces: seq<string>)
    requires pieces != []
    ensures Glue("", pieces) == pieces
  {
    assert "" + pieces[0] == pieces[0];
  }

  lemma GlueBegun(buf: string, rest: seq<string>)
    ensures Glue(buf, [""] + rest) == [buf] + rest
  {
    assert buf + "" == buf && ([""] + rest)[1..] == rest;
  }

  function NonBlank(buf: string): seq<string> {
    if Text.Strip(buf) != "" then [Text.Strip(buf)] else []
  }

  lemma TidyBegun(buf: string, rest: seq<string>)
    ensures Tidy(Glue(buf, [""] + rest)) == NonBlank(buf) + Tidy(rest)
  {
    GlueBegun(buf, rest);
    assert ([buf] + rest)[1..] == rest;
  }

  predicate CutsAt(s: string, sep: char, i: nat, m: Mode)
    requires i < |s|
  {
    LevelOf(m, s[i]) == Some(0) && s[i] == sep
  }

  /** The pieces reported from `i` on, in this mode, when `buf` is the piece begun before. */
  function Reported(buf: string, s: string, sep: char, i: nat, m: Mode): seq<string>
    requires i <= |s|
    decreases |s| - i
  {
    if i == |s| then NonBlank(buf)
    else if CutsAt(s, sep, i, m) then NonBlank(buf) + Reported("", s, sep, i + 1, ToggleNext(m, s[i]))
    else Reported(buf + [s[i]], s, sep, i + 1, ToggleNext(m, s[i]))
  }

  lemma ToggleStep(s: string, levels: seq<Level>, i: nat, m: Mode)
    requires |levels| == |s| && i < |s| && levels[i..] == ToggleLevels(s, i, m)
    ensures levels[i] == LevelOf(m, s[i]) && levels[i + 1..] == ToggleLevels(s, i + 1, ToggleNext(m, s[i]))
  {
    assert levels[i] == levels[i..][0] && levels[i + 1..] == levels[i..][1..];
  }

  lemma {:induction false} ReportedIsTidy(buf: string, s: string, levels: seq<Level>, sep: char, i: nat, m: Mode)
    requires |levels| == |s| && i <= |s| && levels[i..] == ToggleLevels(s, i, m)
    ensures Reported(buf, s, sep, i, m) == Tidy(Glue(buf, Cut(s, levels, sep, i)))
    decreases |s| - i
  {
    if i == |s| {
      TidyBegun(buf, []);
    } else {
      var rest, next := Cut(s, levels, sep, i + 1), ToggleNext(m, s[i]);
      ToggleStep(s, levels, i, m);
      if CutsAt(s, sep, i, m) {
        ReportedIsTidy("", s, levels, sep, i + 1, next);
        ReportedAtCut(buf, rest, Reported("", s, sep, i + 1, next));
      } else {
        ReportedIsTidy(buf + [s[i]], s, levels, sep, i + 1, next);
        GlueTwice(buf, [s[i]], rest);
      }
    }
  }

  lemma ReportedAtCut(buf: string, rest: seq<string>, reported: seq<string>)
    requires rest != [] && reported == Tidy(Glue("", rest))
    ensures NonBlank(buf) + reported == Tidy(Glue(buf, [""] + rest))
  {
    GlueNothing(rest);
    TidyBegun(buf, rest);
  }

  lemma AllReported(s: string, sep: char)
    ensures Reported("", s, sep, 0, START) == Tidy(Pieces(s, sep))
  {
    var levels := ToggleLevels(s, 0, START);
    assert levels[0..] == levels;
    ReportedIsTidy("", s, levels, sep, 0, START);
    GlueNothing(Cut(s, levels, sep, 0));
  }

  /** What one character does to the pieces reported so far and the piece begun. */
  lemma ReportStep(total: seq<string>, done: seq<string>, buf: string, s: string, sep: char, i: nat, m: Mode)
    requires i < |s| && total == done + Reported(buf, s, sep, i, m)
    ensures CutsAt(s, sep, i, m) ==>
              total == done + NonBlank(buf) + Reported("", s, sep, i + 1, ToggleNext(m, s[i]))
    ensures !CutsAt(s, sep, i, m) ==>
              total == done + Reported(buf + [s[i]], s, sep, i + 1, ToggleNext(m, s[i]))
  {
    if CutsAt(s, sep, i, m) {
      var rest := Reported("", s, sep, i + 1, ToggleNext(m, s[i]));
      assert done + (NonBlank(buf) + rest) == done + NonBlank(buf) + rest;
    }
  }

  /** Inside quotes, a doubled quote leads back to where the scan was. */
  lemma DoubledStep(total: seq<string>, done: seq<string>, buf: string, s: string, sep: char, i: nat, m: Mode)
    requires i + 1 < |s| && m.quote == Some(s[i]) && IsQuote(s[i]) && s[i + 1] == s[i]
    requires total == done + Reported(buf, s, sep, i, m)
    ensures total == done + Reported(buf + [s[i]] + [s[i + 1]], s, sep, i + 2, m)
  {
    ReportStep(total, done, buf, s, sep, i, m);
    ReportStep(total, done, buf + [s[i]], s, sep, i + 1, ToggleNext(m, s[i]));
  }

  method SplitColumns(body: string) returns (parts: seq<string>)
    ensures parts == Tidy(Pieces(body, ','))
  {
    parts := [];
    var buf := "";
    var depth: nat := 0;
    var inQuote: Option<char> := None;
    ghost var total := Reported("", body, ',', 0, START);
    for i := 0 to |body|
      invariant total == parts + Reported(buf, body, ',', i, Mode(inQuote, depth))
    {
      var ch := body[i];
      ReportStep(total, parts, buf, body, ',', i, Mode(inQuote, depth));
      if inQuote.Some? {
        buf := buf + [ch];
        if ch == inQuote.value {
          inQuote := None;
        }
        continue;
      }
      if IsQuote(ch) {
        inQuote := Some(ch);
        buf := buf + [ch];
        continue;
      }
      if ch == '(' {
        depth := depth + 1;
        buf := buf + [ch];
        continue;
      }
      if ch == ')' {
        depth := if depth > 0 then depth - 1 else 0;
        buf := buf + [ch];
        continue;
      }
      if ch == ',' && depth == 0 {
        var part := Text.Strip(buf);
        if part != "" {
          parts := parts + [part];
        }
        buf := "";
        continue;
      }
      buf := buf + [ch];
    }
    var tail := Text.Strip(buf);
    if tail != "" {
      parts := parts + [tail];
    }
    AllReported(body, ',');
  }

  method SplitSqlStatements(sql: string) returns (r: Option<seq<string>>)
    ensures r == if Stripped(sql).None? then None else Some(Tidy(Pieces(Stripped(sql).value, ';')))
  {
    var stripped := StripSqlComments(sql);
    if stripped.None? {
      return None;
    }
    var statements := SplitCleaned(stripped.value);
    r := Some(statements);
  }

  method SplitCleaned(cleaned: string) returns (statements: seq<string>)
    ensures statements == Tidy(Pieces(cleaned, ';'))
  {
    statements := [];
    var buf := "";
    var depth: nat := 0;
    var inQuote: Option<char> := None;
    var i := 0;
    ghost var total := Reported("", cleaned, ';', 0, START);
    while i < |cleaned|
      invariant 0 <= i <= |cleaned| && (inQuote.Some? ==> IsQuote(inQuote.value))
      invariant total == statements + Reported(buf, cleaned, ';', i, Mode(inQuote, depth))
      decreases |cleaned| - i
    {
      var ch := cleaned[i];
      if inQuote == Some(ch) && i + 1 < |cleaned| && cleaned[i + 1] == ch {
        DoubledStep(total, statements, buf, cleaned, ';', i, Mode(inQuote, depth));
      } else {
        ReportStep(total, statements, buf, cleaned, ';', i, Mode(inQuote, depth));
      }
      if inQuote.Some? {
        buf := buf + [ch];
        if ch == inQuote.value {
          if i + 1 < |cleaned| && cleaned[i + 1] == inQuote.value {
            buf := buf + [cleaned[i + 1]];
            i := i + 2;
            continue;
          }
          inQuote := None;
        }
        i := i + 1;
        continue;
      }
      if IsQuote(ch) {
        inQuote := Some(ch);
        buf := buf + [ch];
        i := i + 1;
        continue;
      }
      if ch == '(' {
        depth := depth + 1;
        buf := buf + [ch];
        i := i + 1;
        continue;
      }
      if ch == ')' {
        depth := if depth > 0 then depth - 1 else 0;
        buf := buf + [ch];
        i := i + 1;
        continue;
      }
      if ch == ';' && depth == 0 {
        var stmt := Text.Strip(buf);
        if stmt != "" {
          statements := statements + [stmt];
        }
        buf := "";
        i := i + 1;
        continue;
      }
      buf := buf + [ch];
      i := i + 1;
    }
    var tail := Text.Strip(buf);
    if tail != "" {
      statements := statements + [tail];
    }
    AllReported(cleaned, ';');
  }
}
