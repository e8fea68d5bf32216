/** Matching an observed message against a pinned format string. */
module PinnedMessage {

  /** A format string read from left to right: literal characters, a hole for exactly one
      character, and a hole for any string. */
  datatype Token = Literal(c: char) | One | Many

  function Tokens(pinned: string): seq<Token>
    decreases |pinned|
  {
    if pinned == [] then []
    else if "%.*s" <= pinned then [Many] + Tokens(pinned[4..])
    else if "%s" <= pinned then [Many] + Tokens(pinned[2..])
    else if "%c" <= pinned then [One] + Tokens(pinned[2..])
    else [Literal(pinned[0])] + Tokens(pinned[1..])
  }

  /** A substitution gives each hole a string, and a one-character hole one character. */
  predicate Fits(tokens: seq<Token>, holes: seq<string>) {
    if tokens == [] then holes == []
    else if tokens[0].Literal? then Fits(tokens[1..], holes)
    else holes != [] && (tokens[0].One? ==> |holes[0]| == 1) && Fits(tokens[1..], holes[1..])
  }

  function Substitute(tokens: seq<Token>, holes: seq<string>): string
    requires Fits(tokens, holes)
  {
    if tokens == [] then ""
    else if tokens[0].Literal? then [tokens[0].c] + Substitute(tokens[1..], holes)
    else holes[0] + Substitute(tokens[1..], holes[1..])
  }

  ghost predicate Yields(tokens: seq<Token>, holes: seq<string>, observed: string) {
    Fits(tokens, holes) && Substitute(tokens, holes) == observed
  }

  /** Some substitution turns the format into the observed text. */
  ghost predicate Explains(tokens: seq<Token>, observed: string) {
    exists holes: seq<string> :: Yields(tokens, holes, observed)
  }

  lemma ExplainsNothing(observed: string)
    ensures Explains([], observed) <==> observed == ""
  {
    assert Yields([], [], "");
  }

  lemma ExplainsLiteral(c: char, rest: seq<Token>, observed: string)
    ensures Explains([Literal(c)] + rest, observed) <==>
            observed != "" && observed[0] == c && Explains(rest, observed[1..])
  {
    var tokens := [Literal(c)] + rest;
    assert tokens[1..] == rest;
    if Explains(tokens, observed) {
      var holes: seq<string> :| Yields(tokens, holes, observed);
      assert observed[1..] == Substitute(rest, holes);
      assert Yields(rest, holes, observed[1..]);
    }
    if observed != "" && observed[0] == c && Explains(rest, observed[1..]) {
      var holes: seq<string> :| Yields(rest, holes, observed[1..]);
      assert observed == [c] + observed[1..];
      assert Yields(tokens, holes, observed);
    }
  }

  lemma HoleSplits(hole: Token, rest: seq<Token>, observed: string, k: nat)
    requires !hole.Literal? && k <= |observed| && (hole.One? ==> k == 1) && Explains(rest, observed[k..])
    ensures Explains([hole] + rest, observed)
  {
    var tokens := [hole] + rest;
    var holes: seq<string> :| Yields(rest, holes, observed[k..]);
    var all := [observed[..k]] + holes;
    assert tokens[1..] == rest && all[1..] == holes;
    assert observed == observed[..k] + observed[k..];
    assert Yields(tokens, all, observed);
  }

  lemma HoleTaken(hole: Token, rest: seq<Token>, observed: string) returns (k: nat)
    requires !hole.Literal? && Explains([hole] + rest, observed)
    ensures k <= |observed| && (hole.One? ==> k == 1) && Explains(rest, observed[k..])
  {
    var tokens := [hole] + rest;
    var holes: seq<string> :| Yields(tokens, holes, observed);
    assert tokens[1..] == rest;
    k := |holes[0]|;
    assert observed[k..] == Substitute(rest, holes[1..]);
    assert Yields(rest, holes[1..], observed[k..]);
  }

  function Literals(s: string): (t: seq<Token>)
    ensures |t| == |s| && forall i :: 0 <= i < |s| ==> t[i] == Literal(s[i])
  {
    seq(|s|, i requires 0 <= i < |s| => Literal(s[i]))
  }

  /** A literal prefix must be a prefix of the observed text. */
  lemma {:induction false} ExplainsPrefix(s: string, rest: seq<Token>, observed: string)
    ensures Explains(Literals(s) + rest, observed) <==> s <= observed && Explains(rest, observed[|s|..])
    decreases |s|
  {
    if s == "" {
      assert Literals(s) + rest == rest && observed[0..] == observed;
    } else {
      assert Literals(s) + rest == [Literal(s[0])] + (Literals(s[1..]) + rest);
      ExplainsLiteral(s[0], Literals(s[1..]) + rest, observed);
      if observed != "" && observed[0] == s[0] {
        ExplainsPrefix(s[1..], rest, observed[1..]);
        PrefixCons(s, observed);
      }
    }
  }

  lemma PrefixCons(s: string, observed: string)
    requires s != "" && observed != "" && observed[0] == s[0]
    ensures s <= observed <==> s[1..] <= observed[1..]
    ensures s <= observed ==> observed[1..][|s| - 1..] == observed[|s|..]
  {
    if s[1..] <= observed[1..] {
      forall i | 0 <= i < |s| ensures s[i] == observed[i] {
        if i > 0 { assert s[1..][i - 1] == observed[1..][i - 1]; }
      }
    }
    if s <= observed {
      forall i | 0 <= i < |s| - 1 ensures s[1..][i] == observed[1..][i] { assert s[i + 1] == observed[i + 1]; }
    }
  }

  // ------------------------------------------------------- the segment scanner

  /** What follows the literal prefix. */
  datatype Tail = End | SingleCharacter(rest: string) | AnyCharacters(rest: string)

  function TailTokens(tail: Tail): seq<Token> {
    match tail
    case End => []
    case SingleCharacter(rest) => [One] + Tokens(rest)
    case AnyCharacters(rest) => [Many] + Tokens(rest)
  }

  predicate Placeholder(text: string) { "%.*s" <= text || "%s" <= text || "%c" <= text }

  lemma TokensLiteral(pinned: string)
    requires pinned != "" && !Placeholder(pinned)
    ensures Tokens(pinned) == [Literal(pinned[0])] + Tokens(pinned[1..])
  {}

  lemma LiteralsCons(s: string, t: seq<Token>)
    requires s != ""
    ensures Literals(s) + t == [Literal(s[0])] + (Literals(s[1..]) + t)
  {}

  lemma {:induction false} LiteralRun(pinned: string, start: nat)
    requires start <= |pinned| && forall i :: 0 <= i < start ==> !Placeholder(pinned[i..])
    ensures Tokens(pinned) == Literals(pinned[..start]) + Tokens(pinned[start..])
    decreases start
  {
    if start == 0 {
      assert pinned[0..] == pinned;
    } else {
      assert !Placeholder(pinned[0..]) && pinned[0..] == pinned;
      TokensLiteral(pinned);
      forall i | 0 <= i < start - 1 ensures !Placeholder(pinned[1..][i..]) {
        assert pinned[1..][i..] == pinned[i + 1..];
      }
      LiteralRun(pinned[1..], start - 1);
      assert pinned[1..][start - 1..] == pinned[start..];
      assert pinned[..start][1..] == pinned[1..][..start - 1];
      LiteralsCons(pinned[..start], Tokens(pinned[start..]));
    }
  }

  lemma PlaceholderPercent(text: string)
    requires Placeholder(text)
    ensures text != "" && text[0] == '%'
  {
    if "%.*s" <= text { assert text[0] == "%.*s"[0]; }
    if "%s" <= text { assert text[0] == "%s"[0]; }
    if "%c" <= text { assert text[0] == "%c"[0]; }
  }

  method FindPercent(text: string, from: nat) returns (start: nat)
    requires from <= |text|
    ensures from <= start <= |text| && (start < |text| ==> text[start] == '%')
    ensures forall i :: from <= i < start ==> text[i] != '%'
  {
    start := from;
    while start < |text| && text[start] != '%'
      invariant from <= start <= |text| && forall i :: from <= i < start ==> text[i] != '%'
    {
      start := start + 1;
    }
  }

  lemma NoPercent(text: string, i: nat)
    requires i <= |text| && (i < |text| ==> text[i] != '%')
    ensures !Placeholder(text[i..])
  {
    if Placeholder(text[i..]) { PlaceholderPercent(text[i..]); }
  }

  /** Splits a format string into its literal prefix and its first placeholder. */
  method NextSegment(pinned: string) returns (literal: string, tail: Tail)
    ensures Tokens(pinned) == Literals(literal) + TailTokens(tail)
    ensures tail.End? || |tail.rest| < |pinned|
  {
    var search := 0;
    while true
      invariant search <= |pinned| && forall i :: 0 <= i < search ==> !Placeholder(pinned[i..])
      decreases |pinned| - search
    {
      var start := FindPercent(pinned, search);
      forall i | search <= i < start ensures !Placeholder(pinned[i..]) { NoPercent(pinned, i); }
      LiteralRun(pinned, start);
      if start == |pinned| {
        break;
      }
      var text := pinned[start..];
      if "%.*s" <= text {
        return pinned[..start], AnyCharacters(text[4..]);
      }
      if "%s" <= text {
        return pinned[..start], AnyCharacters(text[2..]);
      }
      if "%c" <= text {
        return pinned[..start], SingleCharacter(text[2..]);
      }
      search := start + 1;
    }
    assert pinned[..|pinned|] == pinned && pinned[|pinned|..] == "";
    return pinned, End;
  }

  // ------------------------------------------------------- the matcher

  /** True exactly when some substitution, any string for a string hole and exactly one
      character for a character hole, turns the pinned text into the observed one. */
  method MatchesPinnedMessage(pinned: string, observed: string) returns (matched: bool)
    ensures matched <==> Explains(Tokens(pinned), observed)
    decreases |pinned|
  {
    var literal, tail := NextSegment(pinned);
    ExplainsPrefix(literal, TailTokens(tail), observed);
    if !(literal <= observed) {
      return false;
    }
    var remaining := observed[|literal|..];
    match tail {
      case End =>
        ExplainsNothing(remaining);
        return remaining == "";
      case SingleCharacter(rest) =>
        if remaining == "" {
          OneNeedsCharacter(Tokens(rest));
          return false;
        }
        matched := MatchesPinnedMessage(rest, remaining[1..]);
        ExplainsOne(Tokens(rest), remaining);
      case AnyCharacters(rest) =>
        for end := 0 to |remaining| + 1
          invariant forall k :: 0 <= k < end ==> !Explains(Tokens(rest), remaining[k..])
        {
          var here := MatchesPinnedMessage(rest, remaining[end..]);
          if here {
            HoleSplits(Many, Tokens(rest), remaining, end);
            return true;
          }
        }
        ManyExhausted(Tokens(rest), remaining);
        return false;
    }
  }

  lemma OneNeedsCharacter(rest: seq<Token>)
    ensures !Explains([One] + rest, "")
  {
    if Explains([One] + rest, "") { var k := HoleTaken(One, rest, ""); }
  }

  lemma ExplainsOne(rest: seq<Token>, observed: string)
    requires observed != ""
    ensures Explains([One] + rest, observed) <==> Explains(rest, observed[1..])
  {
    if Explains([One] + rest, observed) { var k := HoleTaken(One, rest, observed); }
    if Explains(rest, observed[1..]) { HoleSplits(One, rest, observed, 1); }
  }

  lemma ManyExhausted(rest: seq<Token>, observed: string)
    requires forall k :: 0 <= k <= |observed| ==> !Explains(rest, observed[k..])
    ensures !Explains([Many] + rest, observed)
  {
    if Explains([Many] + rest, observed) { var k := HoleTaken(Many, rest, observed); }
  }

  // ------------------------------------------------------- messages piece by piece

  /** A format string in pieces, as it is written. */
  datatype Piece = Character(c: char) | StringHole | PrecisionHole | CharacterHole

  function Written(p: Piece): string {
    match p
    case Character(c) => [c]
    case StringHole => "%s"
    case PrecisionHole => "%.*s"
    case CharacterHole => "%c"
  }

  function WrittenAll(ps: seq<Piece>): string { if ps == [] then "" else Written(ps[0]) + WrittenAll(ps[1..]) }

  /** No hole is read as characters: no character stands where a hole begins. */
  predicate Greedy(ps: seq<Piece>) {
    ps != [] ==>
      && Greedy(ps[1..])
      && (ps[0].Character? ==>
            !("%s" <= WrittenAll(ps)) && !("%.*s" <= WrittenAll(ps)) && !("%c" <= WrittenAll(ps)))
  }

  /** What may stand for a piece: a character for itself, one character for a character hole
      and any text for the others. */
  predicate Stands(p: Piece, text: string) {
    match p
    case Character(c) => text == [c]
    case CharacterHole => |text| == 1
    case _ => true
  }

  predicate AllStand(ps: seq<Piece>, texts: seq<string>) {
    |ps| == |texts| && forall i :: 0 <= i < |ps| ==> Stands(ps[i], texts[i])
  }

  function Joined(texts: seq<string>): string { if texts == [] then "" else texts[0] + Joined(texts[1..]) }

  /** The observed text is the format with every piece replaced by what may stand for it. */
  ghost predicate Instance(ps: seq<Piece>, observed: string) {
    exists texts: seq<string> :: AllStand(ps, texts) && Joined(texts) == observed
  }

  ghost predicate IsMessageOf(pinned: string, observed: string) {
    exists ps: seq<Piece> :: Greedy(ps) && WrittenAll(ps) == pinned && Instance(ps, observed)
  }

  function Kind(p: Piece): Token {
    match p
    case Character(c) => Literal(c)
    case CharacterHole => One
    case _ => Many
  }

  function Kinds(ps: seq<Piece>): seq<Token> { if ps == [] then [] else [Kind(ps[0])] + Kinds(ps[1..]) }

  lemma TokensStep(p: Piece, rest: string)
    requires p.Character? ==> !Placeholder(Written(p) + rest)
    ensures Tokens(Written(p) + rest) == [Kind(p)] + Tokens(rest)
  {
    var all := Written(p) + rest;
    match p
    case Character(c) => assert all[1..] == rest;
    case StringHole =>
      assert all[2..] == rest && "%s" <= all && all[1] == 's';
      assert !("%.*s" <= all) by { assert "%.*s"[1] == '.'; }
    case PrecisionHole => assert all[4..] == rest && "%.*s" <= all;
    case CharacterHole =>
      assert all[2..] == rest && "%c" <= all && all[1] == 'c';
      assert !("%.*s" <= all) && !("%s" <= all) by { assert "%.*s"[1] == '.' && "%s"[1] == 's'; }
  }

  /** Reading a format in pieces gives their kinds. */
  lemma {:induction false} TokensOfPieces(ps: seq<Piece>)
    requires Greedy(ps)
    ensures Tokens(WrittenAll(ps)) == Kinds(ps)
  {
    if ps != [] {
      TokensOfPieces(ps[1..]);
      TokensStep(ps[0], WrittenAll(ps[1..]));
    }
  }

  lemma PiecesCons(p: Piece, rest: seq<Piece>)
    requires Greedy(rest) && (p.Character? ==> !Placeholder(Written(p) + WrittenAll(rest)))
    ensures Greedy([p] + rest) && WrittenAll([p] + rest) == Written(p) + WrittenAll(rest)
  {
    assert ([p] + rest)[1..] == rest;
  }

  /** Every format can be read in pieces. */
  lemma {:induction false} PiecesOf(pinned: string) returns (ps: seq<Piece>)
    ensures Greedy(ps) && WrittenAll(ps) == pinned
    decreases |pinned|
  {
    if pinned == "" {
      ps := [];
    } else {
      var p := if "%.*s" <= pinned then PrecisionHole
               else if "%s" <= pinned then StringHole
               else if "%c" <= pinned then CharacterHole
               else Character(pinned[0]);
      var n := |Written(p)|;
      assert Written(p) + pinned[n..] == pinned;
      var rest := PiecesOf(pinned[n..]);
      PiecesCons(p, rest);
      ps := [p] + rest;
    }
  }

  lemma InstanceCons(p: Piece, rest: seq<Piece>, observed: string)
    ensures Instance([p] + rest, observed) <==>
            exists k: nat :: k <= |observed| && Stands(p, observed[..k]) && Instance(rest, observed[k..])
  {
    var ps := [p] + rest;
    assert ps[1..] == rest;
    if texts: seq<string> :| AllStand(ps, texts) && Joined(texts) == observed {
      var k := |texts[0]|;
      assert observed[..k] == texts[0] && observed[k..] == Joined(texts[1..]);
      assert AllStand(rest, texts[1..]) by {
        forall i | 0 <= i < |rest| ensures Stands(rest[i], texts[1..][i]) { assert Stands(ps[i + 1], texts[i + 1]); }
      }
      assert Stands(p, observed[..k]) by { assert Stands(ps[0], texts[0]); }
    }
    if k: nat :| k <= |observed| && Stands(p, observed[..k]) && Instance(rest, observed[k..]) {
      var texts: seq<string> :| AllStand(rest, texts) && Joined(texts) == observed[k..];
      var all := [observed[..k]] + texts;
      assert all[1..] == texts && observed == observed[..k] + observed[k..];
      assert AllStand(ps, all);
    }
  }

  /** Substitution into tokens is replacement of pieces. */
  lemma {:induction false} InstanceExactly(ps: seq<Piece>, observed: string)
    ensures Explains(Kinds(ps), observed) <==> Instance(ps, observed)
    decreases |ps|
  {
    if ps == [] {
      ExplainsNothing(observed);
      if observed == "" { assert AllStand(ps, []) && Joined([]) == ""; }
    } else {
      var p, rest := ps[0], ps[1..];
      assert ps == [p] + rest;
      forall k: nat | k <= |observed| ensures Explains(Kinds(rest), observed[k..]) <==> Instance(rest, observed[k..]) {
        InstanceExactly(rest, observed[k..]);
      }
      InstanceCons(p, rest, observed);
      ExplainsCons(p, Kinds(rest), observed);
    }
  }

  lemma ExplainsCons(p: Piece, rest: seq<Token>, observed: string)
    ensures Explains([Kind(p)] + rest, observed) <==>
            exists k: nat :: k <= |observed| && Stands(p, observed[..k]) && Explains(rest, observed[k..])
  {
    if p.Character? {
      ExplainsLiteral(p.c, rest, observed);
      if observed != "" && observed[0] == p.c { assert observed[..1] == [p.c]; }
    } else {
      if Explains([Kind(p)] + rest, observed) { var k := HoleTaken(Kind(p), rest, observed); }
      if k: nat :| k <= |observed| && Stands(p, observed[..k]) && Explains(rest, observed[k..]) {
        HoleSplits(Kind(p), rest, observed, k);
      }
    }
  }

  /** The matcher's condition, said of the format as written: it can be read in pieces, and
      the observed text has for every piece what may stand for it. */
  lemma MessageExactly(pinned: string, observed: string)
    ensures Explains(Tokens(pinned), observed) <==> IsMessageOf(pinned, observed)
  {
    var ps := PiecesOf(pinned);
    TokensOfPieces(ps);
    InstanceExactly(ps, observed);
    if qs: seq<Piece> :| Greedy(qs) && WrittenAll(qs) == pinned && Instance(qs, observed) {
      TokensOfPieces(qs);
      InstanceExactly(qs, observed);
    }
  }
}
