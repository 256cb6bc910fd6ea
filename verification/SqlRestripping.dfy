/** Stripping what has been stripped: when nothing more goes, and when the first pass has made a new comment. */
module SqlRestripping {
  import opened Sequences
  import opened SqlScanner

  // --- Texts that lose nothing ---

  /** From `i` on, the scan comes to the end without taking a comment. */
  predicate CommentFree(s: string, i: nat)
    requires i <= |s|
    decreases |s| - i
  {
    if i == |s| then true
    else if At2(s, i, '-', '-') || At2(s, i, '/', '*') then false
    else if IsQuote(s[i]) then
      match QuoteFrom(s, i + 1, s[i])
      case None => false
      case Some(n) => CommentFree(s, n + 1)
    else CommentFree(s, i + 1)
  }

  lemma {:induction false} KeptIsShorter(ts: seq<Token>)
    ensures |Kept(ts)| <= |RenderAll(ts)|
  {
    if ts != [] {
      KeptIsShorter(ts[1..]);
    }
  }

  lemma StrippedIsShorter(s: string, i: nat)
    requires i <= |s| && StrippedFrom(s, i).Some?
    ensures |StrippedFrom(s, i).value| <= |s| - i
  {
    TokensRenderBack(s, i, TokensFrom(s, i).value);
    KeptIsShorter(TokensFrom(s, i).value);
  }

  lemma StrippedStep(s: string, i: nat, t: Token, next: nat)
    requires i < next <= |s| && NextToken(s, i) == Some((t, next))
    ensures StrippedFrom(s, i) == Then(KeptText(t), StrippedFrom(s, next))
  {
    StripStep(s, i, "");
    if StrippedFrom(s, next).Some? {
      assert "" + KeptText(t) == KeptText(t);
    }
    if StrippedFrom(s, i).Some? {
      assert "" + StrippedFrom(s, i).value == StrippedFrom(s, i).value;
    }
  }

  lemma SameTail(s: string, i: nat, next: nat, rest: string)
    requires i <= next <= |s|
    ensures s[i..next] + rest == s[i..] <==> rest == s[next..]
  {
    assert s[i..] == s[i..next] + s[next..];
    if s[i..next] + rest == s[i..] {
      assert rest == (s[i..next] + rest)[next - i..];
      assert s[next..] == s[i..][next - i..];
    }
  }

  lemma KeptTokenStep(s: string, i: nat, t: Token, next: nat)
    requires i < next <= |s| && NextToken(s, i) == Some((t, next)) && !IsComment(t)
    ensures StrippedFrom(s, i) == Some(s[i..]) <==> StrippedFrom(s, next) == Some(s[next..])
  {
    StrippedStep(s, i, t, next);
    NextTokenFits(s, i);
    if StrippedFrom(s, next).Some? {
      SameTail(s, i, next, StrippedFrom(s, next).value);
    }
  }

  lemma CommentIsLost(s: string, i: nat)
    requires At2(s, i, '-', '-') || At2(s, i, '/', '*')
    ensures StrippedFrom(s, i) != Some(s[i..])
  {
    if NextToken(s, i).Some? {
      var (t, next) := NextToken(s, i).value;
      StrippedStep(s, i, t, next);
      if StrippedFrom(s, next).Some? {
        StrippedIsShorter(s, next);
        assert |StrippedFrom(s, i).value| == |StrippedFrom(s, next).value|;
      }
    }
  }

  /** Stripping changes nothing exactly if the scan takes no comment. */
  lemma {:induction false} CommentFreeIsUnchanged(s: string, i: nat)
    requires i <= |s|
    ensures StrippedFrom(s, i) == Some(s[i..]) <==> CommentFree(s, i)
    decreases |s| - i
  {
    if i == |s| {
      assert s[i..] == "";
    } else if At2(s, i, '-', '-') || At2(s, i, '/', '*') {
      CommentIsLost(s, i);
    } else if NextToken(s, i).Some? {
      var (t, next) := NextToken(s, i).value;
      KeptTokenStep(s, i, t, next);
      CommentFreeIsUnchanged(s, next);
    }
  }

  // --- What was kept, scanned again ---

  /** A token that is not a comment and reads the same whatever follows it, up to joining with that. */
  predicate Solid(t: Token) {
    match t
    case Plain(c) => !IsQuote(c)
    case Quoted(q, body) => IsQuote(q) && QuotesDoubled(body, q, 0)
    case _ => false
  }

  /** Two characters that open a comment if they come to stand side by side. */
  predicate Joins(a: Token, b: Token) {
    (a == Plain('-') && b == Plain('-')) || (a == Plain('/') && b == Plain('*'))
  }

  predicate JoinFree(ks: seq<Token>) {
    forall i :: 0 <= i < |ks| - 1 ==> !Joins(ks[i], ks[i + 1])
  }

  lemma JoinFreeCons(k: Token, rest: seq<Token>)
    ensures JoinFree([k] + rest) <==> JoinFree(rest) && (rest != [] ==> !Joins(k, rest[0]))
  {
    var ks := [k] + rest;
    assert forall i :: 0 <= i < |rest| ==> ks[i + 1] == rest[i];
    if JoinFree(ks) {
      forall i | 0 <= i < |rest| - 1 ensures !Joins(rest[i], rest[i + 1]) {
        assert !Joins(ks[i + 1], ks[i + 2]);
      }
      assert rest != [] ==> !Joins(ks[0], ks[1]);
    }
    if JoinFree(rest) && (rest != [] ==> !Joins(k, rest[0])) {
      forall i | 0 <= i < |ks| - 1 ensures !Joins(ks[i], ks[i + 1]) {
        assert i > 0 ==> !Joins(rest[i - 1], rest[i]);
      }
    }
  }

  lemma RenderStarts(ks: seq<Token>)
    requires ks != []
    ensures RenderAll(ks) != "" && RenderAll(ks)[0] == Render(ks[0])[0]
  {
    RenderIsNotEmpty(ks[0]);
  }

  /** Behind a single character, a comment opens exactly if the next kept token joins with it. */
  lemma PlainIsJoined(s: string, i: nat, c: char, rest: seq<Token>)
    requires i < |s| && s[i] == c && s[i + 1..] == RenderAll(rest) && AllSolid(rest)
    ensures At2(s, i, '-', '-') || At2(s, i, '/', '*') <==> rest != [] && Joins(Plain(c), rest[0])
  {
    if rest == [] {
      assert |s[i + 1..]| == 0;
    } else {
      RenderStarts(rest);
      assert s[i + 1..][0] == s[i + 1];
      assert rest[0] in rest;
    }
  }

  /** The doubled quotes of a quoted text do not stop the search for its end. */
  lemma {:induction false} QuoteFromThrough(s: string, start: nat, i: nat, q: char, n: nat)
    requires start <= i <= n < |s| && s[n] == q && QuotesDoubled(s[start..n], q, i - start)
    ensures QuoteFrom(s, i, q) == QuoteFrom(s, n, q)
    decreases n - i
  {
    if i < n {
      assert s[start..n][i - start] == s[i];
      if s[i] != q {
        QuoteFromThrough(s, start, i + 1, q, n);
      } else {
        assert s[start..n][i - start + 1] == s[i + 1];
        QuoteFromThrough(s, start, i + 2, q, n);
      }
    }
  }

  /** Behind a quoted text, the scan goes on as if it began there, even if another quoted text has moved up to it. */
  lemma QuotedIsPassed(s: string, i: nat, q: char, body: string)
    requires i + 2 + |body| <= |s| && s[i..i + 2 + |body|] == [q] + body + [q] && Solid(Quoted(q, body))
    ensures CommentFree(s, i) <==> CommentFree(s, i + 2 + |body|)
  {
    var n := i + 1 + |body|;
    QuotedParts(s, i, q, body);
    QuoteFromThrough(s, i + 1, i + 1, q, n);
  }

  lemma JoinFreeSplits(ks: seq<Token>)
    requires ks != []
    ensures JoinFree(ks) <==> JoinFree(ks[1..]) && (ks[1..] != [] ==> !Joins(ks[0], ks[1..][0]))
  {
    assert ks == [ks[0]] + ks[1..];
    JoinFreeCons(ks[0], ks[1..]);
  }

  ghost predicate AllSolid(ks: seq<Token>) {
    forall k :: k in ks ==> Solid(k)
  }

  lemma SolidSplits(ks: seq<Token>)
    requires AllSolid(ks) && ks != []
    ensures Solid(ks[0]) && AllSolid(ks[1..])
  {
  }

  /** Kept tokens are scanned again without a comment exactly if no two of them join. */
  lemma {:induction false} KeptScansFreeIffJoinFree(s: string, i: nat, ks: seq<Token>)
    requires i <= |s| && s[i..] == RenderAll(ks) && AllSolid(ks)
    ensures CommentFree(s, i) <==> JoinFree(ks)
    decreases |ks|
  {
    if ks == [] {
      assert |s[i..]| == 0;
    } else {
      var next := TokensLeft(s, i, ks[0], RenderAll(ks[1..]));
      SolidSplits(ks);
      KeptScansFreeIffJoinFree(s, next, ks[1..]);
      KeptHead(s, i, ks[0], ks[1..], next);
      JoinFreeSplits(ks);
    }
  }

  lemma KeptHead(s: string, i: nat, k: Token, rest: seq<Token>, next: nat)
    requires Solid(k) && next == i + |Render(k)| <= |s| && s[i..next] == Render(k)
    requires s[next..] == RenderAll(rest) && AllSolid(rest)
    ensures CommentFree(s, i) <==> CommentFree(s, next) && (rest != [] ==> !Joins(k, rest[0]))
  {
    if k.Plain? {
      PlainHead(s, i, k.c, rest);
    } else {
      QuotedHead(s, i, k, next);
    }
  }

  lemma QuotedHead(s: string, i: nat, k: Token, next: nat)
    requires Solid(k) && k.Quoted? && next == i + |Render(k)| <= |s| && s[i..next] == Render(k)
    ensures CommentFree(s, i) <==> CommentFree(s, next)
  {
    QuotedIsPassed(s, i, k.quote, k.body);
  }

  lemma PlainHead(s: string, i: nat, c: char, rest: seq<Token>)
    requires !IsQuote(c) && i < |s| && s[i..i + 1] == [c]
    requires s[i + 1..] == RenderAll(rest) && AllSolid(rest)
    ensures CommentFree(s, i) <==> CommentFree(s, i + 1) && (rest != [] ==> !Joins(Plain(c), rest[0]))
  {
    assert s[i] == s[i..i + 1][0];
    PlainIsJoined(s, i, c, rest);
  }

  // --- From the tokens of the text to the kept ones ---

  function KeptTokens(ts: seq<Token>): (ks: seq<Token>)
    ensures forall k :: k in ks ==> k in ts && !IsComment(k)
  {
    if ts == [] then [] else (if IsComment(ts[0]) then [] else [ts[0]]) + KeptTokens(ts[1..])
  }

  lemma {:induction false} KeptTokensRender(ts: seq<Token>)
    ensures RenderAll(KeptTokens(ts)) == Kept(ts)
  {
    if ts != [] {
      KeptTokensRender(ts[1..]);
      if IsComment(ts[0]) {
        assert [] + KeptTokens(ts[1..]) == KeptTokens(ts[1..]);
        assert "" + Kept(ts[1..]) == Kept(ts[1..]);
      } else {
        RenderCons(ts[0], KeptTokens(ts[1..]));
      }
    }
  }

  lemma {:induction false} KeptTokensAreSolid(ts: seq<Token>)
    requires WellFormed(ts)
    ensures AllSolid(KeptTokens(ts))
  {
    if ts != [] {
      KeptTokensAreSolid(ts[1..]);
    }
  }

  /** Only comments stand between `from` and `to`. */
  predicate OnlyComments(ts: seq<Token>, from: nat, to: nat)
    requires to <= |ts|
  {
    forall k :: from <= k < to ==> IsComment(ts[k])
  }

  /** Two dashes, or a slash and a star, with comments and nothing else between them. */
  predicate JoinedAt(ts: seq<Token>, i: nat, j: nat) {
    i + 1 < j < |ts| && Joins(ts[i], ts[j]) && OnlyComments(ts, i + 1, j)
  }

  ghost predicate CommentsDivide(ts: seq<Token>) {
    exists i: nat, j: nat :: JoinedAt(ts, i, j)
  }

  lemma JoinedInTail(t: Token, rest: seq<Token>, i: nat, j: nat)
    ensures JoinedAt([t] + rest, i + 1, j + 1) <==> JoinedAt(rest, i, j)
  {
    var ts := [t] + rest;
    if j < |rest| {
      assert forall k: nat :: k < |rest| ==> ts[k + 1] == rest[k];
      if OnlyComments(ts, i + 2, j + 1) {
        forall k | i + 1 <= k < j ensures IsComment(rest[k]) {
          assert IsComment(ts[k + 1]);
        }
      }
      if OnlyComments(rest, i + 1, j) {
        forall k | i + 2 <= k < j + 1 ensures IsComment(ts[k]) {
          assert IsComment(rest[k - 1]);
        }
      }
    }
  }

  /** The first kept token, and where it stood. */
  lemma {:induction false} FirstKept(ts: seq<Token>) returns (m: nat)
    ensures m <= |ts| && OnlyComments(ts, 0, m)
    ensures m < |ts| ==> !IsComment(ts[m]) && KeptTokens(ts) != [] && KeptTokens(ts)[0] == ts[m]
    ensures m == |ts| ==> KeptTokens(ts) == []
  {
    if ts == [] {
      m := 0;
    } else if !IsComment(ts[0]) {
      m := 0;
    } else {
      var n := FirstKept(ts[1..]);
      m := n + 1;
      assert KeptTokens(ts) == KeptTokens(ts[1..]);
      forall k | 0 <= k < m ensures IsComment(ts[k]) {
        assert k > 0 ==> ts[k] == ts[1..][k - 1];
      }
    }
  }

  /** Tokens side by side do not join: the grammar would have read a comment. */
  lemma NeighboursDoNotJoin(t: Token, rest: seq<Token>)
    requires TokenFits(t, RenderAll(rest)) && rest != []
    ensures !Joins(t, rest[0])
  {
    RenderStarts(rest);
  }

  /** The head joins with the first kept token of the rest exactly if comments alone divide it from some later one. */
  lemma HeadJoins(t: Token, rest: seq<Token>)
    requires TokenFits(t, RenderAll(rest)) && !IsComment(t)
    ensures (exists j: nat :: JoinedAt([t] + rest, 0, j)) <==> KeptTokens(rest) != [] && Joins(t, KeptTokens(rest)[0])
  {
    var ts := [t] + rest;
    var m := FirstKept(rest);
    if m < |rest| {
      if m == 0 {
        NeighboursDoNotJoin(t, rest);
      }
      CommentsInTail(t, rest, m);
      if Joins(t, rest[m]) {
        assert JoinedAt(ts, 0, m + 1);
      }
    }
    if j: nat :| JoinedAt(ts, 0, j) {
      assert ts[j] == rest[j - 1] && !IsComment(ts[j]);
      assert m < |rest| ==> ts[m + 1] == rest[m];
      assert m == j - 1;
    }
  }

  lemma CommentsInTail(t: Token, rest: seq<Token>, m: nat)
    requires m <= |rest| && OnlyComments(rest, 0, m)
    ensures OnlyComments([t] + rest, 1, m + 1)
  {
    forall k | 1 <= k < m + 1 ensures IsComment(([t] + rest)[k]) {
      assert IsComment(rest[k - 1]);
    }
  }

  lemma DivideCons(t: Token, rest: seq<Token>)
    ensures CommentsDivide([t] + rest) <==> CommentsDivide(rest) || exists j: nat :: JoinedAt([t] + rest, 0, j)
  {
    if CommentsDivide([t] + rest) {
      var i: nat, j: nat :| JoinedAt([t] + rest, i, j);
      if i > 0 {
        JoinedInTail(t, rest, i - 1, j - 1);
      }
    }
    if CommentsDivide(rest) {
      var i: nat, j: nat :| JoinedAt(rest, i, j);
      JoinedInTail(t, rest, i, j);
    }
  }

  lemma {:induction false} DividedIffNotJoinFree(ts: seq<Token>)
    requires WellFormed(ts)
    ensures CommentsDivide(ts) <==> !JoinFree(KeptTokens(ts))
  {
    if ts != [] {
      var t, rest := ts[0], ts[1..];
      DividedIffNotJoinFree(rest);
      assert ts == [t] + rest;
      DivideCons(t, rest);
      if IsComment(t) {
        assert KeptTokens(ts) == KeptTokens(rest);
      } else {
        HeadJoins(t, rest);
        JoinFreeCons(t, KeptTokens(rest));
      }
    }
  }

  /**
   When stripping is idempotent: what a text was stripped to is left alone by stripping it again if and only if the text
   has nowhere two dashes, or a slash and a star, with comments and nothing else between them. Quoted texts that come to
   stand side by side do no harm.
   */
  lemma StrippingTwiceIsOnceIff(s: string)
    requires Stripped(s).Some?
    ensures Stripped(Stripped(s).value) == Stripped(s) <==> !CommentsDivide(TokensFrom(s, 0).value)
  {
    var ts, t := TokensFrom(s, 0).value, Stripped(s).value;
    TokensRenderBack(s, 0, ts);
    KeptTokensRender(ts);
    KeptTokensAreSolid(ts);
    DividedIffNotJoinFree(ts);
    assert t[0..] == t;
    KeptScansFreeIffJoinFree(t, 0, KeptTokens(ts));
    CommentFreeIsUnchanged(t, 0);
  }

  // --- A failing instance ---

  /** Stripping once may leave what stripping again takes for a comment. */
  lemma StrippingTwiceDiffers()
    ensures Stripped("-/**/-x") == Some("--x") && Stripped("--x") == Some("")
  {
    CommentBetweenDashes();
    TokenThenRest(LineComment("x"), [], "", "");
    ReadsAs("--x", [LineComment("x")] + [], "");
  }

  lemma DashAndX()
    ensures var ts := [Plain('-'), Plain('x')]; WellFormed(ts) && RenderAll(ts) == "-x" && Kept(ts) == "-x"
  {
    TokenThenRest(Plain('x'), [], "", "");
    TokenThenRest(Plain('-'), [Plain('x')], "x", "x");
    assert [Plain('-')] + [Plain('x')] == [Plain('-'), Plain('x')];
  }

  lemma CommentThenDash()
    ensures var ts := [BlockComment(""), Plain('-'), Plain('x')];
            WellFormed(ts) && RenderAll(ts) == "/**/-x" && Kept(ts) == "-x"
  {
    DashAndX();
    TokenThenRest(BlockComment(""), [Plain('-'), Plain('x')], "-x", "-x");
    assert [BlockComment("")] + [Plain('-'), Plain('x')] == [BlockComment(""), Plain('-'), Plain('x')];
  }

  lemma CommentBetweenDashes()
    ensures Stripped("-/**/-x") == Some("--x")
  {
    CommentThenDash();
    var rest := [BlockComment(""), Plain('-'), Plain('x')];
    TokenThenRest(Plain('-'), rest, "/**/-x", "-x");
    ReadsAs("-/**/-x", [Plain('-')] + rest, "--x");
  }

  lemma ReadsAs(s: string, ts: seq<Token>, kept: string)
    requires WellFormed(ts) && RenderAll(ts) == s && Kept(ts) == kept
    ensures Stripped(s) == Some(kept)
  {
    assert s[0..] == s;
    WellFormedTokensAreFound(s, 0, ts);
  }

  lemma TokenThenRest(t: Token, ts: seq<Token>, text: string, kept: string)
    requires WellFormed(ts) && RenderAll(ts) == text && Kept(ts) == kept && TokenFits(t, text)
    ensures WellFormed([t] + ts) && RenderAll([t] + ts) == Render(t) + text
    ensures Kept([t] + ts) == (if IsComment(t) then "" else Render(t)) + kept
  {
    assert ([t] + ts)[1..] == ts;
  }
}
