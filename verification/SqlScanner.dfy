/** Comment stripping in the persistence gate: a scan by position, and the token grammar it follows. */
module SqlScanner {
  import opened Sequences

  predicate IsQuote(c: char) {
    c == '\'' || c == '"'
  }

  /** The two quotes. */
  lemma QuotesSpelled(c: char)
    ensures IsQuote(c) <==> c in {'\'', '"'}
  {
  }

  // --- Token grammar ---

  datatype Token =
    | LineComment(text: string)
    | BlockComment(text: string)
    | Quoted(quote: char, body: string)
    | Plain(c: char)

  function Render(t: Token): string {
    match t
    case LineComment(text) => "--" + text
    case BlockComment(text) => "/*" + text + "*/"
    case Quoted(q, body) => [q] + body + [q]
    case Plain(c) => [c]
  }

  function RenderAll(ts: seq<Token>): string {
    if ts == [] then "" else Render(ts[0]) + RenderAll(ts[1..])
  }

  predicate IsComment(t: Token) {
    t.LineComment? || t.BlockComment?
  }

  /** The text of the tokens that are not comments. */
  function Kept(ts: seq<Token>): string {
    if ts == [] then "" else (if IsComment(ts[0]) then "" else Render(ts[0])) + Kept(ts[1..])
  }

  predicate StartsWith(s: string, c: char) {
    s != "" && s[0] == c
  }

  /** No closing mark begins inside the comment text. */
  predicate ClosesAtEnd(text: string) {
    forall i :: 0 <= i < |text| ==> !((text + "*/")[i] == '*' && (text + "*/")[i + 1] == '/')
  }

  /** From position `k` on, quote characters inside a quoted text come in pairs. */
  predicate QuotesDoubled(body: string, q: char, k: nat)
    requires k <= |body|
    decreases |body| - k
  {
    if k == |body| then true
    else if body[k] != q then QuotesDoubled(body, q, k + 1)
    else k + 1 < |body| && body[k + 1] == q && QuotesDoubled(body, q, k + 2)
  }

  /** What makes a token the one the grammar chooses, given the text that follows it. */
  predicate TokenFits(t: Token, rest: string) {
    match t
    case LineComment(text) => '\n' !in text && (rest == "" || rest[0] == '\n')
    case BlockComment(text) => ClosesAtEnd(text)
    case Quoted(q, body) => IsQuote(q) && QuotesDoubled(body, q, 0) && !StartsWith(rest, q)
    case Plain(c) => !IsQuote(c) && !(c == '-' && StartsWith(rest, '-')) && !(c == '/' && StartsWith(rest, '*'))
  }

  predicate WellFormed(ts: seq<Token>) {
    ts == [] || (TokenFits(ts[0], RenderAll(ts[1..])) && WellFormed(ts[1..]))
  }

  // --- The scan as a function of the position ---

  function LineEnd(s: string, i: nat): (end: nat)
    requires i <= |s|
    ensures i <= end <= |s|
    decreases |s| - i
  {
    if i == |s| || s[i] == '\n' then i else LineEnd(s, i + 1)
  }

  lemma {:induction false} LineEndIsFirst(s: string, i: nat)
    requires i <= |s|
    ensures var end := LineEnd(s, i); (end < |s| ==> s[end] == '\n') && forall k :: i <= k < end ==> s[k] != '\n'
    decreases |s| - i
  {
    if i < |s| && s[i] != '\n' {
      LineEndIsFirst(s, i + 1);
    }
  }

  predicate ClosesBlock(s: string, k: nat) {
    k + 1 < |s| && s[k] == '*' && s[k + 1] == '/'
  }

  /** The first closing mark of a block comment from `i` on. */
  function CloseFrom(s: string, i: nat): (n: Option<nat>)
    requires i <= |s|
    ensures n.Some? ==> i <= n.value && n.value + 1 < |s|
    decreases |s| - i
  {
    if i == |s| then None else if ClosesBlock(s, i) then Some(i) else CloseFrom(s, i + 1)
  }

  lemma {:induction false} CloseIsFirst(s: string, i: nat)
    requires i <= |s|
    ensures var n := CloseFrom(s, i);
            && (n.Some? ==> ClosesBlock(s, n.value) && forall k :: i <= k < n.value ==> !ClosesBlock(s, k))
            && (n.None? ==> forall k :: i <= k ==> !ClosesBlock(s, k))
    decreases |s| - i
  {
    if i < |s| && !ClosesBlock(s, i) {
      CloseIsFirst(s, i + 1);
    }
  }

  /** The closing quote from `i` on; a doubled quote does not close. */
  function QuoteFrom(s: string, i: nat, q: char): (n: Option<nat>)
    requires i <= |s|
    ensures n.Some? ==> i <= n.value < |s|
    decreases |s| - i
  {
    if i == |s| then None
    else if s[i] != q then QuoteFrom(s, i + 1, q)
    else if i + 1 < |s| && s[i + 1] == q then QuoteFrom(s, i + 2, q)
    else Some(i)
  }

  predicate At2(s: string, i: nat, a: char, b: char) {
    i + 1 < |s| && s[i] == a && s[i + 1] == b
  }

  /** The token at a position, and the position behind it. */
  function NextToken(s: string, i: nat): (r: Option<(Token, nat)>)
    requires i < |s|
    ensures r.Some? ==> i < r.value.1 <= |s|
  {
    if At2(s, i, '-', '-') then Some((LineComment(s[i + 2..LineEnd(s, i + 2)]), LineEnd(s, i + 2)))
    else if At2(s, i, '/', '*') then
      match CloseFrom(s, i + 2)
      case None => None
      case Some(n) => Some((BlockComment(s[i + 2..n]), n + 2))
    else if IsQuote(s[i]) then
      match QuoteFrom(s, i + 1, s[i])
      case None => None
      case Some(n) => Some((Quoted(s[i], s[i + 1..n]), n + 1))
    else Some((Plain(s[i]), i + 1))
  }

  function TokensFrom(s: string, i: nat): Option<seq<Token>>
    requires i <= |s|
    decreases |s| - i
  {
    if i == |s| then Some([])
    else match NextToken(s, i)
      case None => None
      case Some((t, next)) =>
        var rest := TokensFrom(s, next);
        if rest.None? then None else Some([t] + rest.value)
  }

  function StrippedFrom(s: string, i: nat): Option<string>
    requires i <= |s|
  {
    var ts := TokensFrom(s, i);
    if ts.None? then None else Some(Kept(ts.value))
  }

  function Stripped(s: string): Option<string> {
    StrippedFrom(s, 0)
  }

  // --- Scan and grammar agree ---

  lemma {:induction false} QuoteFromDoubles(s: string, start: nat, i: nat, q: char, n: nat)
    requires start <= i <= |s| && QuoteFrom(s, i, q) == Some(n)
    ensures s[n] == q && QuotesDoubled(s[start..n], q, i - start) && (n + 1 < |s| ==> s[n + 1] != q)
    decreases |s| - i
  {
    if s[i] != q {
      QuoteFromDoubles(s, start, i + 1, q, n);
    } else if i + 1 < |s| && s[i + 1] == q {
      QuoteFromDoubles(s, start, i + 2, q, n);
    }
  }

  lemma {:induction false} QuoteFromFinds(s: string, start: nat, i: nat, q: char, n: nat)
    requires start <= i <= n < |s| && s[n] == q && QuotesDoubled(s[start..n], q, i - start)
    requires n + 1 < |s| ==> s[n + 1] != q
    ensures QuoteFrom(s, i, q) == Some(n)
    decreases n - i
  {
    if i < n {
      assert s[start..n][i - start] == s[i];
      if s[i] != q {
        QuoteFromFinds(s, start, i + 1, q, n);
      } else {
        assert s[start..n][i - start + 1] == s[i + 1];
        QuoteFromFinds(s, start, i + 2, q, n);
      }
    }
  }

  lemma CloseMeansClosesAtEnd(s: string, i: nat, n: nat)
    requires i <= n && ClosesBlock(s, n)
    ensures ClosesAtEnd(s[i..n]) <==> forall k :: i <= k < n ==> !ClosesBlock(s, k)
  {
    var text := s[i..n] + "*/";
    assert text == s[i..n + 2];
    if ClosesAtEnd(s[i..n]) {
      forall k | i <= k < n ensures !ClosesBlock(s, k) {
        assert text[k - i] == s[k] && text[k - i + 1] == s[k + 1];
      }
    }
    if forall k :: i <= k < n ==> !ClosesBlock(s, k) {
      forall k | 0 <= k < n - i ensures !(text[k] == '*' && text[k + 1] == '/') {
        assert !ClosesBlock(s, i + k);
        assert text[k] == s[i + k] && text[k + 1] == s[i + k + 1];
      }
    }
  }

  lemma SplitSlice(s: string, i: nat, a: string, b: string)
    requires i <= |s| && s[i..] == a + b
    ensures i + |a| <= |s| && s[i..i + |a|] == a && s[i + |a|..] == b
  {
    assert |s[i..]| == |a| + |b|;
    forall k | 0 <= k < |a| ensures s[i + k] == a[k] {
      assert s[i..][k] == a[k];
    }
    forall k | 0 <= k < |b| ensures s[i + |a| + k] == b[k] {
      assert s[i..][|a| + k] == b[k];
    }
  }

  lemma SliceGrows(s: string, a: nat, b: nat)
    requires a <= b < |s|
    ensures s[a..b + 1] == s[a..b] + [s[b]]
  {
  }

  lemma LineCommentFits(s: string, i: nat)
    requires At2(s, i, '-', '-')
    ensures var end := LineEnd(s, i + 2);
            var t := LineComment(s[i + 2..end]);
            Render(t) == s[i..end] && TokenFits(t, s[end..])
  {
    var end := LineEnd(s, i + 2);
    LineEndIsFirst(s, i + 2);
    assert s[i..i + 2] == "--";
    assert s[i..end] == s[i..i + 2] + s[i + 2..end];
  }

  lemma BlockCommentFits(s: string, i: nat, n: nat)
    requires At2(s, i, '/', '*') && CloseFrom(s, i + 2) == Some(n)
    ensures var t := BlockComment(s[i + 2..n]); Render(t) == s[i..n + 2] && TokenFits(t, s[n + 2..])
  {
    CloseIsFirst(s, i + 2);
    CloseMeansClosesAtEnd(s, i + 2, n);
    assert s[i..i + 2] == "/*" && s[n..n + 2] == "*/";
    assert s[i..n + 2] == s[i..i + 2] + s[i + 2..n] + s[n..n + 2];
  }

  lemma Bracketed(s: string, i: nat, n: nat)
    requires i < n < |s|
    ensures [s[i]] + s[i + 1..n] + [s[n]] == s[i..n + 1]
  {
  }

  lemma QuotedRenders(s: string, i: nat, n: nat)
    requires i < |s| && QuoteFrom(s, i + 1, s[i]) == Some(n)
    ensures Render(Quoted(s[i], s[i + 1..n])) == s[i..n + 1]
  {
    QuoteFromDoubles(s, i + 1, i + 1, s[i], n);
    Bracketed(s, i, n);
  }

  lemma QuotedFits(s: string, i: nat, n: nat)
    requires i < |s| && IsQuote(s[i]) && QuoteFrom(s, i + 1, s[i]) == Some(n)
    ensures TokenFits(Quoted(s[i], s[i + 1..n]), s[n + 1..])
  {
    QuoteFromDoubles(s, i + 1, i + 1, s[i], n);
    assert n + 1 < |s| ==> s[n + 1..][0] == s[n + 1];
  }

  /** The token the scan takes reads its text back and fits what follows. */
  lemma NextTokenFits(s: string, i: nat)
    requires i < |s| && NextToken(s, i).Some?
    ensures var (t, next) := NextToken(s, i).value; Render(t) == s[i..next] && TokenFits(t, s[next..])
  {
    if At2(s, i, '-', '-') {
      LineCommentFits(s, i);
    } else if At2(s, i, '/', '*') {
      BlockCommentFits(s, i, CloseFrom(s, i + 2).value);
    } else if IsQuote(s[i]) {
      QuotedFits(s, i, QuoteFrom(s, i + 1, s[i]).value);
      QuotedRenders(s, i, QuoteFrom(s, i + 1, s[i]).value);
    }
  }

  lemma RenderIsNotEmpty(t: Token)
    ensures Render(t) != ""
  {
  }

  /** A token that fits is the one the scan takes. */
  lemma NextTokenIsFound(s: string, i: nat, t: Token)
    requires i + |Render(t)| <= |s| && s[i..i + |Render(t)|] == Render(t) && TokenFits(t, s[i + |Render(t)|..])
    ensures i < |s| && NextToken(s, i) == Some((t, i + |Render(t)|))
  {
    RenderIsNotEmpty(t);
    match t
    case LineComment(text) => LineCommentIsFound(s, i, text);
    case BlockComment(text) => BlockCommentIsFound(s, i, text);
    case Quoted(q, body) => QuotedIsFound(s, i, q, body);
    case Plain(c) => PlainIsFound(s, i, c);
  }

  lemma LineCommentIsFound(s: string, i: nat, text: string)
    requires i + 2 + |text| <= |s| && s[i..i + 2 + |text|] == "--" + text
    requires TokenFits(LineComment(text), s[i + 2 + |text|..])
    ensures NextToken(s, i) == Some((LineComment(text), i + 2 + |text|))
  {
    var n := i + 2 + |text|;
    assert s[i] == s[i..n][0] && s[i + 1] == s[i..n][1];
    assert s[i + 2..n] == s[i..n][2..] == text;
    forall k | i + 2 <= k < n ensures s[k] != '\n' {
      assert s[k] == text[k - i - 2];
    }
    assert n < |s| ==> s[n] == s[n..][0];
    LineEndIsFirst(s, i + 2);
  }

  lemma BlockCommentIsFound(s: string, i: nat, text: string)
    requires i + 4 + |text| <= |s| && s[i..i + 4 + |text|] == "/*" + text + "*/" && ClosesAtEnd(text)
    ensures NextToken(s, i) == Some((BlockComment(text), i + 4 + |text|))
  {
    var n := i + 2 + |text|;
    BlockCommentParts(s, i, text);
    CloseMeansClosesAtEnd(s, i + 2, n);
    CloseIsFirst(s, i + 2);
    assert CloseFrom(s, i + 2) == Some(n);
  }

  lemma BlockCommentParts(s: string, i: nat, text: string)
    requires i + 4 + |text| <= |s| && s[i..i + 4 + |text|] == "/*" + text + "*/"
    ensures At2(s, i, '/', '*') && ClosesBlock(s, i + 2 + |text|) && s[i + 2..i + 2 + |text|] == text
  {
    var whole := "/*" + text + "*/";
    var n := i + |whole|;
    forall k | 0 <= k < |whole| ensures s[i + k] == whole[k] {
      assert s[i..n][k] == whole[k];
    }
    assert s[i + 0] == whole[0] && s[i + 1] == whole[1];
    assert s[i + (|text| + 2)] == whole[|text| + 2] && s[i + (|text| + 3)] == whole[|text| + 3];
    forall k | 0 <= k < |text| ensures s[i + 2 + k] == text[k] {
      assert s[i + (k + 2)] == whole[k + 2];
    }
  }

  lemma QuotedParts(s: string, i: nat, q: char, body: string)
    requires i + 2 + |body| <= |s| && s[i..i + 2 + |body|] == [q] + body + [q]
    ensures s[i] == q && s[i + 1 + |body|] == q && s[i + 1..i + 1 + |body|] == body
  {
    var whole := [q] + body + [q];
    forall k | 0 <= k < |whole| ensures s[i + k] == whole[k] {
      assert s[i..i + |whole|][k] == whole[k];
    }
    assert s[i + 0] == whole[0] && s[i + (|body| + 1)] == whole[|body| + 1];
    forall k | 0 <= k < |body| ensures s[i + 1 + k] == body[k] {
      assert s[i + (k + 1)] == whole[k + 1];
    }
  }

  lemma QuotedIsFound(s: string, i: nat, q: char, body: string)
    requires i + 2 + |body| <= |s| && s[i..i + 2 + |body|] == [q] + body + [q]
    requires TokenFits(Quoted(q, body), s[i + 2 + |body|..])
    ensures NextToken(s, i) == Some((Quoted(q, body), i + 2 + |body|))
  {
    var n := i + 1 + |body|;
    QuotedParts(s, i, q, body);
    assert n + 1 < |s| ==> s[n + 1] == s[n + 1..][0];
    QuoteFromFinds(s, i + 1, i + 1, q, n);
  }

  lemma PlainIsFound(s: string, i: nat, c: char)
    requires i < |s| && s[i..i + 1] == [c] && TokenFits(Plain(c), s[i + 1..])
    ensures NextToken(s, i) == Some((Plain(c), i + 1))
  {
    assert s[i] == s[i..i + 1][0];
    assert i + 1 < |s| ==> s[i + 1] == s[i + 1..][0];
  }

  lemma RenderCons(t: Token, ts: seq<Token>)
    ensures RenderAll([t] + ts) == Render(t) + RenderAll(ts)
    ensures WellFormed([t] + ts) <==> TokenFits(t, RenderAll(ts)) && WellFormed(ts)
  {
    assert ([t] + ts)[1..] == ts;
  }

  lemma TokensStep(s: string, i: nat, t: Token, next: nat)
    requires i < next <= |s| && NextToken(s, i) == Some((t, next))
    ensures TokensFrom(s, i).Some? <==> TokensFrom(s, next).Some?
    ensures TokensFrom(s, next).Some? ==> TokensFrom(s, i).value == [t] + TokensFrom(s, next).value
  {
  }

  lemma ReadBackStep(s: string, i: nat, t: Token, next: nat, ts: seq<Token>)
    requires i < next <= |s| && Render(t) == s[i..next] && TokenFits(t, s[next..])
    requires RenderAll(ts) == s[next..] && WellFormed(ts)
    ensures RenderAll([t] + ts) == s[i..] && WellFormed([t] + ts)
  {
    RenderCons(t, ts);
    assert s[i..] == s[i..next] + s[next..];
  }

  /** Every tokenisation the scan finds is a well-formed reading of the text. */
  lemma {:induction false} TokensRenderBack(s: string, i: nat, ts: seq<Token>)
    requires i <= |s| && TokensFrom(s, i) == Some(ts)
    ensures RenderAll(ts) == s[i..] && WellFormed(ts)
    decreases |s| - i
  {
    if i < |s| {
      var (t, next) := NextToken(s, i).value;
      TokensStep(s, i, t, next);
      var rest := TokensFrom(s, next).value;
      TokensRenderBack(s, next, rest);
      NextTokenFits(s, i);
      ReadBackStep(s, i, t, next, rest);
    }
  }

  lemma TokensLeft(s: string, i: nat, t: Token, tail: string) returns (next: nat)
    requires i <= |s| && s[i..] == Render(t) + tail
    ensures next == i + |Render(t)| <= |s| && s[i..next] == Render(t) && s[next..] == tail
  {
    SplitSlice(s, i, Render(t), tail);
    next := i + |Render(t)|;
  }

  /** A token that fits is taken first, and what is found behind it follows. */
  lemma FoundStep(s: string, i: nat, t: Token, rest: string, next: nat, ts: seq<Token>)
    requires i <= |s| && s[i..] == Render(t) + rest && TokenFits(t, rest) && next == i + |Render(t)|
    requires next <= |s| && TokensFrom(s, next) == Some(ts)
    ensures TokensFrom(s, i) == Some([t] + ts)
  {
    SplitSlice(s, i, Render(t), rest);
    NextTokenIsFound(s, i, t);
    TokensStep(s, i, t, next);
  }

  lemma NothingLeft(s: string, i: nat)
    requires i <= |s| && s[i..] == RenderAll([])
    ensures TokensFrom(s, i) == Some([])
  {
    assert |s[i..]| == 0;
  }

  /** Every well-formed token sequence is the one the scan finds in its text. */
  lemma {:induction false} WellFormedTokensAreFound(s: string, i: nat, ts: seq<Token>)
    requires i <= |s| && WellFormed(ts) && RenderAll(ts) == s[i..]
    ensures TokensFrom(s, i) == Some(ts)
    decreases |ts|
  {
    if ts == [] {
      NothingLeft(s, i);
    } else {
      var t, behind := ts[0], ts[1..];
      var next := TokensLeft(s, i, t, RenderAll(behind));
      WellFormedTokensAreFound(s, next, behind);
      FoundStep(s, i, t, RenderAll(behind), next, behind);
      assert ts == [t] + behind;
    }
  }

  /**
   Comment stripping is the grammar's: it fails exactly on texts no well-formed token sequence renders to, and
   otherwise returns the rendering of the non-comment tokens, quoted texts untouched.
   */
  lemma StrippingFollowsGrammar(s: string)
    ensures forall ts :: WellFormed(ts) && RenderAll(ts) == s ==> Stripped(s) == Some(Kept(ts))
    ensures Stripped(s).Some? ==> exists ts :: WellFormed(ts) && RenderAll(ts) == s
  {
    assert s[0..] == s;
    forall ts | WellFormed(ts) && RenderAll(ts) == s ensures Stripped(s) == Some(Kept(ts)) {
      WellFormedTokensAreFound(s, 0, ts);
    }
    if Stripped(s).Some? {
      TokensRenderBack(s, 0, TokensFrom(s, 0).value);
    }
  }

  // --- Where stripping fails ---

  /** Tokens as the grammar chooses them, when this text follows the last one. */
  predicate WellFormedBefore(ts: seq<Token>, rest: string) {
    ts == [] || (TokenFits(ts[0], RenderAll(ts[1..]) + rest) && WellFormedBefore(ts[1..], rest))
  }

  /** A block comment without an end mark, or a quote after which every quote character is doubled. */
  ghost predicate Unclosed(rest: string) {
    || (At2(rest, 0, '/', '*') && forall k :: 2 <= k ==> !ClosesBlock(rest, k))
    || (rest != "" && IsQuote(rest[0]) && QuotesDoubled(rest[1..], rest[0], 0))
  }

  /** The text is these tokens, followed by something that is never closed. */
  ghost predicate EndsUnclosed(s: string, ts: seq<Token>, rest: string) {
    s == RenderAll(ts) + rest && WellFormedBefore(ts, rest) && Unclosed(rest)
  }

  lemma {:induction false} NeverClosedIsDoubled(s: string, start: nat, i: nat, q: char)
    requires start <= i <= |s|
    ensures QuoteFrom(s, i, q).None? <==> QuotesDoubled(s[start..], q, i - start)
    decreases |s| - i
  {
    if i < |s| {
      assert s[start..][i - start] == s[i];
      if s[i] != q {
        NeverClosedIsDoubled(s, start, i + 1, q);
      } else if i + 1 < |s| && s[i + 1] == q {
        assert s[start..][i - start + 1] == s[i + 1];
        NeverClosedIsDoubled(s, start, i + 2, q);
      }
    }
  }

  lemma OpenBlockStays(s: string, i: nat)
    requires At2(s, i, '/', '*')
    ensures CloseFrom(s, i + 2).None? <==> forall k :: 2 <= k ==> !ClosesBlock(s[i..], k)
  {
    CloseIsFirst(s, i + 2);
    assert forall k :: 2 <= k ==> (ClosesBlock(s[i..], k) <==> ClosesBlock(s, i + k));
    if CloseFrom(s, i + 2).Some? {
      assert ClosesBlock(s[i..], CloseFrom(s, i + 2).value - i);
    }
  }

  /** The scan finds no token exactly where something is never closed. */
  lemma NoTokenMeansUnclosed(s: string, i: nat)
    requires i < |s|
    ensures NextToken(s, i).None? <==> Unclosed(s[i..])
  {
    assert s[i..][0] == s[i] && (i + 1 < |s| ==> s[i..][1] == s[i + 1]);
    if At2(s, i, '/', '*') {
      OpenBlockStays(s, i);
    }
    assert s[i..][1..] == s[i + 1..];
    NeverClosedIsDoubled(s, i + 1, i + 1, s[i]);
  }

  lemma PrependToken(t: Token, tail: string, ts: seq<Token>, rest: string)
    requires TokenFits(t, tail) && EndsUnclosed(tail, ts, rest)
    ensures EndsUnclosed(Render(t) + tail, [t] + ts, rest)
  {
    assert ([t] + ts)[1..] == ts;
    assert Render(t) + (RenderAll(ts) + rest) == Render(t) + RenderAll(ts) + rest;
  }

  lemma {:induction false} FailureIsUnclosed(s: string, i: nat) returns (ts: seq<Token>, rest: string)
    requires i <= |s| && TokensFrom(s, i).None?
    ensures EndsUnclosed(s[i..], ts, rest)
    decreases |s| - i
  {
    if NextToken(s, i).None? {
      NoTokenMeansUnclosed(s, i);
      ts, rest := [], s[i..];
    } else {
      var (t, next) := NextToken(s, i).value;
      TokensStep(s, i, t, next);
      ts, rest := FailureIsUnclosed(s, next);
      TokenAndRest(s, i, t, next);
      PrependToken(t, s[next..], ts, rest);
      ts := [t] + ts;
    }
  }

  lemma TokenAndRest(s: string, i: nat, t: Token, next: nat)
    requires i < next <= |s| && NextToken(s, i) == Some((t, next))
    ensures s[i..] == Render(t) + s[next..] && TokenFits(t, s[next..])
  {
    NextTokenFits(s, i);
    assert s[i..] == s[i..next] + s[next..];
  }

  lemma FailureStep(s: string, i: nat, t: Token, after: string, next: nat)
    requires i <= |s| && s[i..] == Render(t) + after && TokenFits(t, after) && next == i + |Render(t)|
    requires next <= |s| && TokensFrom(s, next).None?
    ensures TokensFrom(s, i).None?
  {
    SplitSlice(s, i, Render(t), after);
    NextTokenIsFound(s, i, t);
    TokensStep(s, i, t, next);
  }

  lemma UnclosedHasNoTokens(s: string, i: nat)
    requires i <= |s| && Unclosed(s[i..])
    ensures TokensFrom(s, i).None?
  {
    assert |s[i..]| > 0;
    NoTokenMeansUnclosed(s, i);
  }

  lemma HeadAndTail(ts: seq<Token>, rest: string)
    requires ts != [] && WellFormedBefore(ts, rest)
    ensures RenderAll(ts) + rest == Render(ts[0]) + (RenderAll(ts[1..]) + rest)
    ensures TokenFits(ts[0], RenderAll(ts[1..]) + rest) && WellFormedBefore(ts[1..], rest)
  {
  }

  /** Well-formed tokens before a text that has none do not help. */
  lemma {:induction false} TokensBeforeFailure(s: string, i: nat, ts: seq<Token>, rest: string, end: nat)
    requires i <= |s| && s[i..] == RenderAll(ts) + rest && WellFormedBefore(ts, rest)
    requires end == |s| - |rest| && TokensFrom(s, end).None?
    ensures TokensFrom(s, i).None?
    decreases |ts|
  {
    if ts == [] {
      assert |s[i..]| == |rest|;
    } else {
      HeadAndTail(ts, rest);
      var t, tail := ts[0], RenderAll(ts[1..]) + rest;
      var next := TokensLeft(s, i, t, tail);
      TokensBeforeFailure(s, next, ts[1..], rest, end);
      FailureStep(s, i, t, tail, next);
    }
  }

  lemma UnclosedFails(s: string, ts: seq<Token>, rest: string)
    requires EndsUnclosed(s, ts, rest)
    ensures TokensFrom(s, 0).None?
  {
    assert s[0..] == s && s[|s| - |rest|..] == rest;
    UnclosedHasNoTokens(s, |s| - |rest|);
    TokensBeforeFailure(s, 0, ts, rest, |s| - |rest|);
  }

  /** Stripping fails exactly on texts that are well-formed tokens followed by an unclosed block comment or quote. */
  lemma StrippingFailsIffUnclosed(s: string)
    ensures Stripped(s).None? <==> exists ts, rest :: EndsUnclosed(s, ts, rest)
  {
    assert s[0..] == s;
    if Stripped(s).None? {
      var ts, rest := FailureIsUnclosed(s, 0);
    }
    if ts, rest :| EndsUnclosed(s, ts, rest) {
      UnclosedFails(s, ts, rest);
    }
  }

  // --- The scan itself ---

  function KeptText(t: Token): string {
    if IsComment(t) then "" else Render(t)
  }

  function Then(out: string, rest: Option<string>): Option<string> {
    if rest.None? then None else Some(out + rest.value)
  }

  lemma KeptBehind(out: string, t: Token, ts: seq<Token>)
    ensures out + Kept([t] + ts) == out + KeptText(t) + Kept(ts)
  {
    assert ([t] + ts)[1..] == ts;
    assert out + (KeptText(t) + Kept(ts)) == out + KeptText(t) + Kept(ts);
  }

  lemma StripToken(s: string, i: nat, out: string, t: Token, next: nat, kept: string)
    requires i < next <= |s| && NextToken(s, i) == Some((t, next)) && KeptText(t) == kept
    ensures Then(out, StrippedFrom(s, i)) == Then(out + kept, StrippedFrom(s, next))
  {
    TokensStep(s, i, t, next);
    if TokensFrom(s, next).Some? {
      KeptBehind(out, t, TokensFrom(s, next).value);
    }
  }

  /** What one round of the scan does to the output and the position. */
  lemma StripStep(s: string, i: nat, out: string)
    requires i < |s|
    ensures var next := NextToken(s, i);
            Then(out, StrippedFrom(s, i))
            == if next.None? then None else Then(out + KeptText(next.value.0), StrippedFrom(s, next.value.1))
  {
    match NextToken(s, i)
    case None =>
    case Some((t, next)) => StripToken(s, i, out, t, next, KeptText(t));
  }

  lemma CommentStep(s: string, i: nat, out: string)
    requires At2(s, i, '-', '-') || At2(s, i, '/', '*')
    ensures Then(out, StrippedFrom(s, i))
            == if At2(s, i, '-', '-') then Then(out, StrippedFrom(s, LineEnd(s, i + 2)))
               else if CloseFrom(s, i + 2).None? then None
               else Then(out, StrippedFrom(s, CloseFrom(s, i + 2).value + 2))
  {
    StripStep(s, i, out);
    assert out + "" == out;
  }

  lemma QuotedToken(s: string, i: nat)
    requires i < |s| && IsQuote(s[i])
    ensures var n := QuoteFrom(s, i + 1, s[i]);
            NextToken(s, i) == if n.None? then None else Some((Quoted(s[i], s[i + 1..n.value]), n.value + 1))
  {
  }

  lemma QuotedStep(s: string, i: nat, out: string)
    requires i < |s| && IsQuote(s[i])
    ensures var n := QuoteFrom(s, i + 1, s[i]);
            Then(out, StrippedFrom(s, i))
            == if n.None? then None else Then(out + s[i..n.value + 1], StrippedFrom(s, n.value + 1))
  {
    QuotedToken(s, i);
    match QuoteFrom(s, i + 1, s[i])
    case None =>
      StripStep(s, i, out);
    case Some(n) =>
      QuotedRenders(s, i, n);
      StripToken(s, i, out, Quoted(s[i], s[i + 1..n]), n + 1, s[i..n + 1]);
  }

  lemma PlainStep(s: string, i: nat, out: string)
    requires i < |s| && !At2(s, i, '-', '-') && !At2(s, i, '/', '*') && !IsQuote(s[i])
    ensures Then(out, StrippedFrom(s, i)) == Then(out + [s[i]], StrippedFrom(s, i + 1))
  {
    StripStep(s, i, out);
  }

  method StripSqlComments(sql: string) returns (r: Option<string>)
    ensures r == Stripped(sql)
  {
    var out := "";
    var i := 0;
    ghost var total := Stripped(sql);
    assert total.Some? ==> "" + total.value == total.value;
    while i < |sql|
      invariant 0 <= i <= |sql|
      invariant total == Then(out, StrippedFrom(sql, i))
      decreases |sql| - i
    {
      var step := ScanOne(sql, i, out, total);
      if step.None? {
        return None;
      }
      out, i := step.value.0, step.value.1;
    }
    assert out + "" == out;
    r := Some(out);
  }

  /** One round of the scan: the output and position behind a comment, a quoted text or a single character. */
  method ScanOne(sql: string, i: nat, out: string, ghost total: Option<string>) returns (step: Option<(string, nat)>)
    requires i < |sql| && total == Then(out, StrippedFrom(sql, i))
    ensures step.Some? ==> i < step.value.1 <= |sql|
    ensures total == if step.None? then None else Then(step.value.0, StrippedFrom(sql, step.value.1))
  {
    if At2(sql, i, '-', '-') || At2(sql, i, '/', '*') {
      step := ScanComment(sql, i, out, total);
      return;
    }
    if IsQuote(sql[i]) {
      step := ScanQuoted(sql, i, out, total);
      return;
    }
    PlainStep(sql, i, out);
    step := Some((out + [sql[i]], i + 1));
  }

  method ScanQuoted(sql: string, i: nat, out: string, ghost total: Option<string>) returns (step: Option<(string, nat)>)
    requires i < |sql| && IsQuote(sql[i])
    requires total == Then(out, StrippedFrom(sql, i))
    ensures step.Some? ==> i < step.value.1 <= |sql|
    ensures total == if step.None? then None else Then(step.value.0, StrippedFrom(sql, step.value.1))
  {
    QuotedStep(sql, i, out);
    var quoted, next := CopyQuoted(sql, i);
    step := if quoted.None? then None else Some((out + quoted.value, next));
  }

  method ScanComment(sql: string, i: nat, out: string, ghost total: Option<string>)
    returns (step: Option<(string, nat)>)
    requires At2(sql, i, '-', '-') || At2(sql, i, '/', '*')
    requires total == Then(out, StrippedFrom(sql, i))
    ensures step.Some? ==> i < step.value.1 <= |sql|
    ensures total == if step.None? then None else Then(step.value.0, StrippedFrom(sql, step.value.1))
  {
    CommentStep(sql, i, out);
    if At2(sql, i, '-', '-') {
      var next := SkipLine(sql, i);
      return Some((out, next));
    }
    var end := CloseFrom(sql, i + 2);
    step := if end.None? then None else Some((out, end.value + 2));
  }

  /** From a line comment's first dash to the newline or the end. */
  method SkipLine(sql: string, start: nat) returns (i: nat)
    requires At2(sql, start, '-', '-')
    ensures i == LineEnd(sql, start + 2)
  {
    i := start;
    while i < |sql| && sql[i] != '\n'
      invariant start <= i <= |sql|
      invariant LineEnd(sql, start) == LineEnd(sql, i)
    {
      i := i + 1;
    }
    assert LineEnd(sql, start) == LineEnd(sql, start + 1) == LineEnd(sql, start + 2);
  }

  /** From an opening quote to its closing one, doubled quotes included; nothing if it is never closed. */
  method CopyQuoted(sql: string, start: nat) returns (text: Option<string>, i: nat)
    requires start < |sql| && IsQuote(sql[start])
    ensures var n := QuoteFrom(sql, start + 1, sql[start]);
            if n.None? then text == None else text == Some(sql[start..n.value + 1]) && i == n.value + 1
  {
    var quote := sql[start];
    var out := [quote];
    i := start + 1;
    while i < |sql|
      invariant start + 1 <= i <= |sql| && out == sql[start..i]
      invariant QuoteFrom(sql, start + 1, quote) == QuoteFrom(sql, i, quote)
      decreases |sql| - i
    {
      SliceGrows(sql, start, i);
      if sql[i] == quote {
        out := out + [sql[i]];
        i := i + 1;
        if i < |sql| && sql[i] == quote {
          SliceGrows(sql, start, i);
          out := out + [sql[i]];
          i := i + 1;
          continue;
        }
        return Some(out), i;
      }
      out := out + [sql[i]];
      i := i + 1;
    }
    text := None;
  }
}
