/** Glob patterns: `*` matches anything without a slash, `**` anything, `?` one character that
    is not a slash. The matcher fills a table row by row; the meaning is a cut of the text into
    one piece per token. */
module Glob {

  datatype Token = Char(c: char) | Star | GlobStar | Question

  // ---- What a pattern means ----

  predicate PieceOk(token: Token, piece: string) {
    match token
    case Char(c) => piece == [c]
    case Star => '/' !in piece
    case GlobStar => true
    case Question => |piece| == 1 && piece[0] != '/'
  }

  function Concat(pieces: seq<string>): string {
    if pieces == [] then [] else Concat(pieces[..|pieces| - 1]) + pieces[|pieces| - 1]
  }

  ghost predicate IsCut(tokens: seq<Token>, text: string, pieces: seq<string>) {
    && |pieces| == |tokens| && Concat(pieces) == text
    && forall i :: 0 <= i < |tokens| ==> PieceOk(tokens[i], pieces[i])
  }

  ghost predicate Matches(tokens: seq<Token>, text: string) {
    exists pieces :: IsCut(tokens, text, pieces)
  }

  lemma MatchesNothing(text: string)
    ensures Matches([], text) <==> text == []
  {
    assert text == [] ==> IsCut([], text, []);
  }

  /** The last token takes the end of the text, the others the rest. */
  lemma MatchesLast(tokens: seq<Token>, t: Token, text: string)
    ensures Matches(tokens + [t], text) <==>
      exists k :: 0 <= k <= |text| && PieceOk(t, text[k..]) && Matches(tokens, text[..k])
  {
    if Matches(tokens + [t], text) {
      var pieces :| IsCut(tokens + [t], text, pieces);
      var init, last := pieces[..|tokens|], pieces[|tokens|];
      var k := |Concat(init)|;
      assert text == Concat(init) + last;
      assert text[..k] == Concat(init) && text[k..] == last;
      forall i | 0 <= i < |tokens| ensures PieceOk(tokens[i], init[i]) {
        assert PieceOk((tokens + [t])[i], pieces[i]);
      }
      assert IsCut(tokens, text[..k], init);
      assert PieceOk((tokens + [t])[|tokens|], pieces[|tokens|]);
    }
    if k :| 0 <= k <= |text| && PieceOk(t, text[k..]) && Matches(tokens, text[..k]) {
      var init :| IsCut(tokens, text[..k], init);
      var pieces := init + [text[k..]];
      assert pieces[..|init|] == init;
      assert text == text[..k] + text[k..];
      assert IsCut(tokens + [t], text, pieces);
    }
  }

  // ---- The recurrences of the table ----

  lemma LastIsChar(tokens: seq<Token>, t: Token, text: string)
    requires t.Char? || t.Question?
    ensures Matches(tokens + [t], text) <==>
      text != [] && PieceOk(t, text[|text| - 1..]) && Matches(tokens, text[..|text| - 1])
  {
    hide Matches;
    MatchesLast(tokens, t, text);
  }

  lemma LastIsStar(tokens: seq<Token>, t: Token, text: string)
    requires t.Star? || t.GlobStar?
    ensures Matches(tokens + [t], text) <==>
      || Matches(tokens, text)
      || (text != [] && PieceOk(t, text[|text| - 1..]) && Matches(tokens + [t], text[..|text| - 1]))
  {
    hide Matches;
    MatchesLast(tokens, t, text);
    assert text[..|text|] == text && text[|text|..] == [];
    if text != [] {
      var init := text[..|text| - 1];
      MatchesLast(tokens, t, init);
      assert forall k :: 0 <= k <= |init| ==> init[..k] == text[..k] && text[k..] == init[k..] + [text[|text| - 1]];
    }
  }

  /** One cell of the table. */
  lemma Cell(tokens: seq<Token>, t: Token, text: string, j: nat)
    requires 0 < j <= |text|
    ensures Matches(tokens + [t], text[..j]) <==>
      match t
      case Star => Matches(tokens, text[..j]) || (text[j - 1] != '/' && Matches(tokens + [t], text[..j - 1]))
      case GlobStar => Matches(tokens, text[..j]) || Matches(tokens + [t], text[..j - 1])
      case Question => text[j - 1] != '/' && Matches(tokens, text[..j - 1])
      case Char(c) => c == text[j - 1] && Matches(tokens, text[..j - 1])
  {
    hide Matches;
    var prefix := text[..j];
    assert prefix[..|prefix| - 1] == text[..j - 1] && prefix[|prefix| - 1..] == [text[j - 1]];
    if t.Char? || t.Question? {
      LastIsChar(tokens, t, prefix);
    } else {
      LastIsStar(tokens, t, prefix);
    }
  }

  lemma CellZero(tokens: seq<Token>, t: Token)
    ensures Matches(tokens + [t], []) <==> (t.Star? || t.GlobStar?) && Matches(tokens, [])
  {
    hide Matches;
    if t.Char? || t.Question? {
      LastIsChar(tokens, t, []);
    } else {
      LastIsStar(tokens, t, []);
    }
  }

  /** `glob_match_tokens`: two rows of a table over the prefixes of the text. */
  method GlobMatchTokens(tokens: seq<Token>, t: string) returns (r: bool)
    ensures r <==> Matches(tokens, t)
  {
    hide Matches;
    var m := |t|;
    var prev := new bool[m + 1](_ => false);
    prev[0] := true;
    forall j | 0 <= j <= m ensures Matches([], t[..j]) <==> j == 0 {
      MatchesNothing(t[..j]);
    }
    var i := 0;
    assert tokens[..0] == [];
    while i < |tokens|
      invariant 0 <= i <= |tokens|
      invariant prev.Length == m + 1
      invariant forall j :: 0 <= j <= m ==> (prev[j] <==> Matches(tokens[..i], t[..j]))
    {
      var token := tokens[i];
      ghost var before, through := tokens[..i], tokens[..i] + [token];
      assert tokens[..i + 1] == through;
      var curr := new bool[m + 1](_ => false);
      CellZero(before, token);
      assert t[..0] == [];
      match token {
        case Star => curr[0] := prev[0];
        case GlobStar => curr[0] := prev[0];
        case _ =>
      }
      var j := 1;
      while j <= m
        invariant 1 <= j <= m + 1
        invariant forall k :: 0 <= k <= m ==> (prev[k] <==> Matches(before, t[..k]))
        invariant forall k :: 0 <= k < j ==> (curr[k] <==> Matches(through, t[..k]))
      {
        Cell(before, token, t, j);
        curr[j] := match token
                   case Star => prev[j] || (t[j - 1] != '/' && curr[j - 1])
                   case GlobStar => prev[j] || curr[j - 1]
                   case Question => t[j - 1] != '/' && prev[j - 1]
                   case Char(c) => c == t[j - 1] && prev[j - 1];
        j := j + 1;
      }
      prev := curr;
      i := i + 1;
    }
    assert tokens[..i] == tokens && t[..m] == t;
    r := prev[m];
  }

  // ---- Patterns ----

  function StripDotSlash(s: string): string {
    if |s| >= 2 && s[0] == '.' && s[1] == '/' then s[2..] else s
  }

  /** One leading "./" is dropped, and nothing else. */
  lemma DotSlashDropped(s: string)
    ensures StripDotSlash("./" + s) == s
    ensures !("./" <= s) ==> StripDotSlash(s) == s
  {
    assert ("./" + s)[2..] == s;
    assert |s| >= 2 && s[0] == '.' && s[1] == '/' ==> "./" == s[..2];
  }

  /** The length of the run of stars at the start. */
  function StarRun(s: string): (n: nat)
    ensures n <= |s|
  {
    if s != [] && s[0] == '*' then 1 + StarRun(s[1..]) else 0
  }

  function Tokenize(p: string, globstar: bool): seq<Token> {
    if p == [] then []
    else if p[0] == '*' then
      if globstar then
        var n := StarRun(p);
        [if n >= 2 then GlobStar else Star] + Tokenize(p[n..], globstar)
      else [Star] + Tokenize(p[1..], globstar)
    else if p[0] == '?' then [Question] + Tokenize(p[1..], globstar)
    else [Char(p[0])] + Tokenize(p[1..], globstar)
  }

  lemma {:induction false} StarRunEnds(s: string)
    ensures forall i :: 0 <= i < StarRun(s) ==> s[i] == '*'
    ensures StarRun(s) < |s| ==> s[StarRun(s)] != '*'
  {
    if s != [] && s[0] == '*' {
      StarRunEnds(s[1..]);
    }
  }

  lemma StarRunIs(s: string, n: nat)
    requires n <= |s| && forall i :: 0 <= i < n ==> s[i] == '*'
    requires n < |s| ==> s[n] != '*'
    ensures StarRun(s) == n
  {
    StarRunEnds(s);
  }

  lemma TokenizeStars(p: string, start: nat, i: nat, globstar: bool)
    requires start < i <= |p| && forall k :: start <= k < i ==> p[k] == '*'
    requires if globstar then i < |p| ==> p[i] != '*' else i == start + 1
    ensures Tokenize(p[start..], globstar) == [if i - start >= 2 then GlobStar else Star] + Tokenize(p[i..], globstar)
  {
    var rest := p[start..];
    assert rest[i - start..] == p[i..];
    if globstar {
      StarRunIs(rest, i - start);
    }
    hide StarRun;
  }

  lemma TokenizeOther(p: string, start: nat, globstar: bool)
    requires start < |p| && p[start] != '*'
    ensures Tokenize(p[start..], globstar)
         == [if p[start] == '?' then Question else Char(p[start])] + Tokenize(p[start + 1..], globstar)
  {
    assert p[start..][1..] == p[start + 1..];
  }

  lemma TokenizeNothing(globstar: bool)
    ensures Tokenize([], globstar) == []
  {
  }

  /** `tokenize`: one pass over the characters, a run of stars counted by an inner loop. */
  method TokenizePattern(p: string, globstar: bool) returns (tokens: seq<Token>)
    ensures tokens == Tokenize(p, globstar)
    ensures globstar ==> IsNormal(tokens)
  {
    hide *;
    tokens := [];
    var i := 0;
    assert p[0..] == p;
    while i < |p|
      invariant 0 <= i <= |p|
      invariant tokens + Tokenize(p[i..], globstar) == Tokenize(p, globstar)
    {
      var start, c := i, p[i];
      i := i + 1;
      if c == '*' {
        var count := 1;
        while globstar && i < |p| && p[i] == '*'
          invariant start < i <= |p| && count == i - start && (!globstar ==> count == 1)
          invariant forall k :: start <= k < i ==> p[k] == '*'
        {
          i, count := i + 1, count + 1;
        }
        TokenizeStars(p, start, i, globstar);
        tokens := tokens + [if count >= 2 then GlobStar else Star];
      } else {
        TokenizeOther(p, start, globstar);
        tokens := tokens + [if c == '?' then Question else Char(c)];
      }
    }
    assert p[i..] == [];
    TokenizeNothing(globstar);
    if globstar {
      TokensAreNormal(p);
    }
  }

  // ---- Patterns and token lists stand for each other ----

  predicate IsStarry(t: Token) {
    t.Star? || t.GlobStar?
  }

  /** No wildcard hides in a character, and no two stars are neighbours. */
  ghost predicate IsNormal(tokens: seq<Token>) {
    && (forall i :: 0 <= i < |tokens| && tokens[i].Char? ==> tokens[i].c != '*' && tokens[i].c != '?')
    && (forall i, j :: 0 <= i < j == i + 1 < |tokens| ==> !IsStarry(tokens[i]) || !IsStarry(tokens[j]))
  }

  function PrintToken(t: Token): string {
    match t
    case Char(c) => [c]
    case Star => "*"
    case GlobStar => "**"
    case Question => "?"
  }

  function PrintTokens(tokens: seq<Token>): string {
    if tokens == [] then [] else PrintToken(tokens[0]) + PrintTokens(tokens[1..])
  }

  lemma FirstToken(p: string)
    ensures Tokenize(p, true) == [] <==> p == []
    ensures p != [] ==> (IsStarry(Tokenize(p, true)[0]) <==> p[0] == '*')
  {
  }

  /** Every pattern yields a normal token list. */
  lemma {:induction false} TokensAreNormal(p: string)
    ensures IsNormal(Tokenize(p, true))
    decreases |p|
  {
    if p != [] {
      var n := if p[0] == '*' then StarRun(p) else 1;
      StarRunEnds(p);
      TokensAreNormal(p[n..]);
      FirstToken(p[n..]);
      var rest := Tokenize(p[n..], true);
      var t := Tokenize(p, true)[0];
      assert Tokenize(p, true) == [t] + rest;
      hide Tokenize, StarRun;
      assert rest != [] ==> !IsStarry(t) || !IsStarry(rest[0]);
    }
  }

  /** And every normal token list is what its printed pattern yields. */
  lemma {:induction false} TokenizePrinted(tokens: seq<Token>)
    requires IsNormal(tokens)
    ensures Tokenize(PrintTokens(tokens), true) == tokens
  {
    if tokens == [] {
      TokenizeNothing(true);
    } else {
      var t, rest := tokens[0], tokens[1..];
      assert PrintTokens(tokens) == PrintToken(t) + PrintTokens(rest);
      assert rest != [] ==> rest[0] == tokens[1];
      hide Tokenize, PrintTokens, PrintToken;
      TokenizePrinted(rest);
      FirstToken(PrintTokens(rest));
      TokenizeOne(t, PrintTokens(rest));
      assert tokens == [t] + rest;
    }
  }

  lemma TokenizeOne(t: Token, q: string)
    requires (t.Char? ==> t.c != '*' && t.c != '?') && (IsStarry(t) && q != [] ==> q[0] != '*')
    ensures Tokenize(PrintToken(t) + q, true) == [t] + Tokenize(q, true)
  {
    hide Tokenize;
    var w := PrintToken(t);
    var p := w + q;
    assert p[0..] == p && p[|w|..] == q;
    if IsStarry(t) {
      TokenizeStars(p, 0, |w|, true);
    } else {
      TokenizeOther(p, 0, true);
    }
  }

  predicate HasWildcards(p: string) {
    '*' in p || '?' in p
  }

  lemma {:induction false} LiteralTokens(p: string, globstar: bool)
    requires !HasWildcards(p)
    ensures Tokenize(p, globstar) == seq(|p|, i requires 0 <= i < |p| => Char(p[i]))
  {
    if p != [] {
      LiteralTokens(p[1..], globstar);
    }
  }

  lemma {:induction false} LiteralMatches(p: string, text: string)
    ensures Matches(seq(|p|, i requires 0 <= i < |p| => Char(p[i])), text) <==> p == text
  {
    var tokens := seq(|p|, i requires 0 <= i < |p| => Char(p[i]));
    if p == [] {
      MatchesNothing(text);
      assert tokens == [];
    } else {
      var init, last := p[..|p| - 1], p[|p| - 1];
      var initTokens := seq(|init|, i requires 0 <= i < |init| => Char(init[i]));
      assert tokens == initTokens + [Char(last)];
      hide Matches;
      LastIsChar(initTokens, Char(last), text);
      if text != [] {
        LiteralMatches(init, text[..|text| - 1]);
        assert text == text[..|text| - 1] + [text[|text| - 1]] && p == init + [last];
      }
    }
  }

  /** `glob_match` and `glob_match_simple`: comparing a pattern without wildcards directly, as
      the source does, agrees with matching its tokens. */
  method GlobMatch(pattern: string, text: string, globstar: bool) returns (r: bool)
    ensures r <==> Matches(Tokenize(StripDotSlash(pattern), globstar), StripDotSlash(text))
  {
    var p, t := StripDotSlash(pattern), StripDotSlash(text);
    if !HasWildcards(p) {
      LiteralTokens(p, globstar);
      LiteralMatches(p, t);
      r := p == t;
    } else {
      var tokens := TokenizePattern(p, globstar);
      r := GlobMatchTokens(tokens, t);
    }
  }
}
