/** Reading the text that `code_of` returns once more. Taking a comment out can join what stood on either
    side of it; where it does not, the comment-free text reads as the same pieces without their comments,
    and stripping it again changes nothing. */
module SourceComments {
  import opened Wrappers
  import opened Text
  import opened Lists
  import opened SourceProbe
  import opened SourceGrammar
  import opened SourceReading
  import opened SourceAnswer

  /** The pieces that are left: block comments gone, a line comment's newline kept. */
  function Bare(ps: List<Piece>): (r: List<Piece>)
    decreases ps
  {
    if ps.Nil? then Nil
    else if ps.head.Block? then Bare(ps.tail)
    else Cons(BarePiece(ps.head), Bare(ps.tail))
  }

  function BarePiece(p: Piece): (r: Piece)
    requires !p.Block?
    decreases p, 0
  {
    match p
    case Line(_) => Code('\n')
    case Group(body) => Group(Bare(body))
    case _ => p
  }

  /** A `"` comes next, behind `#`s only, once the comments are gone. */
  predicate RawAhead(ps: List<Piece>) {
    ps.Cons? && match ps.head
      case Block(_) => RawAhead(ps.tail)
      case Code(c) => c == '#' && RawAhead(ps.tail)
      case Quoted(quote, _) => quote == '"'
      case _ => false
  }

  /** A `'` comes next, once the comments are gone. */
  predicate TickAhead(ps: List<Piece>) {
    ps.Cons? && match ps.head
      case Block(_) => TickAhead(ps.tail)
      case Quoted(quote, _) => quote == '\''
      case Lifetime => true
      case _ => false
  }

  /** Taking the comments out joins nothing: no `r` becomes the start of a raw string, and no lifetime of
      one letter becomes a character. */
  predicate FuseFree(ps: List<Piece>)
    decreases ps
  {
    ps.Nil? || (FuseFree(ps.tail) && match ps.head
      case Code(c) => c == 'r' ==> !RawAhead(ps.tail)
      case Lifetime => !(ps.tail.Cons? && ps.tail.head.Code? && TickAhead(ps.tail.tail))
      case Group(body) => FuseFree(body)
      case _ => true)
  }

  // ------------------------------------------------------------------ what is left is spelled as before

  lemma {:induction false} BareSource(ps: List<Piece>)
    ensures Source(Bare(ps)) == Uncommented(ps) && Uncommented(Bare(ps)) == Uncommented(ps)
    decreases ps
  {
    if ps.Cons? {
      BareSource(ps.tail);
      if !ps.head.Block? {
        BarePieceText(ps.head);
      } else {
        assert [] + Uncommented(ps.tail) == Uncommented(ps.tail);
      }
    }
  }

  lemma {:induction false} BarePieceText(p: Piece)
    requires !p.Block?
    ensures PieceText(BarePiece(p)) == BareText(p) && BareText(BarePiece(p)) == BareText(p)
    decreases p, 0
  {
    if p.Group? {
      BareSource(p.body);
    }
  }

  // ------------------------------------------------------------------ what comes next in the comment-free text
  //
  // `u` is the comment-free text: at `j` it holds what is left of the pieces, and then a `}`.

  predicate LeftAt(ps: List<Piece>, u: string, j: nat) {
    OccursAt(u, Uncommented(ps) + "}", j)
  }

  lemma LeftEnds(u: string, j: nat)
    requires LeftAt(Nil, u, j)
    ensures j < |u| && u[j] == '}'
  {
    assert u[j + 0] == (Uncommented(Nil) + "}")[0];
  }

  lemma LeftSplits(p: Piece, ps: List<Piece>, u: string, j: nat)
    requires LeftAt(Cons(p, ps), u, j)
    ensures OccursAt(u, BareText(p), j) && LeftAt(ps, u, j + |BareText(p)|)
  {
    var a, b := BareText(p), Uncommented(ps) + "}";
    assert Uncommented(Cons(p, ps)) + "}" == a + b;
    OccursSplits(u, a, b, j);
  }

  lemma OccursSplits(t: string, a: string, b: string, i: nat)
    requires OccursAt(t, a + b, i)
    ensures OccursAt(t, a, i) && OccursAt(t, b, i + |a|)
  {
    forall k | 0 <= k < |a|
      ensures t[i + k] == a[k]
    {
      assert t[i + k] == (a + b)[k];
    }
    forall k | 0 <= k < |b|
      ensures t[i + |a| + k] == b[k]
    {
      assert t[i + (|a| + k)] == (a + b)[|a| + k];
    }
  }

  lemma FirstOf(u: string, w: string, j: nat)
    requires w != [] && OccursAt(u, w, j)
    ensures j < |u| && u[j] == w[0]
  {
    assert u[j + 0] == w[0];
  }

  /** The first character of what is left of a piece. */
  function FirstLeft(p: Piece): (c: char)
    requires !p.Block?
  {
    match p
    case Code(c) => c
    case Lifetime => '\''
    case Line(_) => '\n'
    case Quoted(quote, _) => quote
    case Raw(_, _) => 'r'
    case Group(_) => '{'
  }

  lemma LeftFirst(p: Piece, ps: List<Piece>, u: string, j: nat)
    requires !p.Block? && LeftAt(Cons(p, ps), u, j)
    ensures j < |u| && u[j] == FirstLeft(p)
  {
    LeftSplits(p, ps, u, j);
    assert BareText(p) != [] && BareText(p)[0] == FirstLeft(p);
    FirstOf(u, BareText(p), j);
  }

  /** No code piece is a quote, and every literal is quoted by one. */
  predicate PlainCode(ps: List<Piece>) {
    ps.Nil? ||
    (&& (ps.head.Code? ==> ps.head.c !in {'"', '\'', '{', '}'})
     && (ps.head.Quoted? ==> ps.head.quote in {'"', '\''})
     && PlainCode(ps.tail))
  }

  lemma {:induction false} StandingIsPlain(ps: List<Piece>, t: string, i: nat)
    requires PiecesAt(ps, t, i)
    ensures PlainCode(ps)
  {
    if ps.Cons? {
      StandingIsPlain(ps.tail, t, i + |PieceText(ps.head)|);
    }
  }

  lemma {:induction false} RawAheadExactly(ps: List<Piece>, u: string, j: nat)
    requires PlainCode(ps) && LeftAt(ps, u, j)
    ensures j <= |u| && (RawOpens(u, j) <==> RawAhead(ps))
  {
    if ps.Nil? {
      LeftEnds(u, j);
    } else {
      LeftSplits(ps.head, ps.tail, u, j);
      if ps.head.Block? {
        RawAheadExactly(ps.tail, u, j);
      } else {
        LeftFirst(ps.head, ps.tail, u, j);
        if ps.head == Code('#') {
          RawAheadExactly(ps.tail, u, j + 1);
        }
      }
    }
  }

  lemma {:induction false} TickAheadExactly(ps: List<Piece>, u: string, j: nat)
    requires PlainCode(ps) && LeftAt(ps, u, j)
    ensures j < |u| && (u[j] == '\'' <==> TickAhead(ps))
  {
    if ps.Nil? {
      LeftEnds(u, j);
    } else {
      LeftSplits(ps.head, ps.tail, u, j);
      if ps.head.Block? {
        TickAheadExactly(ps.tail, u, j);
      } else {
        LeftFirst(ps.head, ps.tail, u, j);
      }
    }
  }

  // ------------------------------------------------------------------ literals read the same anywhere

  lemma {:induction false} UnitsOutward(us: List<Unit>, w: string, k: nat, u: string, j: nat, quote: char)
    requires OccursAt(u, w, j) && UnitsAt(us, w, k, quote)
    ensures UnitsAt(us, u, j + k, quote)
  {
    if us.Cons? {
      assert u[j + k] == w[k] && (us.head.Escaped? ==> u[j + (k + 1)] == w[k + 1]);
      UnitsOutward(us.tail, w, k + |UnitText(us.head)|, u, j, quote);
    }
  }

  lemma {:induction false} HashesOutward(n: nat, w: string, k: nat, u: string, j: nat)
    requires OccursAt(u, w, j) && HashesAt(n, w, k)
    ensures HashesAt(n, u, j + k)
  {
    if n > 0 {
      assert u[j + k] == w[k];
      HashesOutward(n - 1, w, k + 1, u, j);
    }
  }

  lemma FindOutward(w: string, term: string, from: nat, at: nat, u: string, j: nat)
    requires OccursAt(u, w, j) && FindFrom(w, term, from) == Some(at)
    ensures FindFrom(u, term, j + from) == Some(j + at)
  {
    OccursInWindow(u, j, w, term, at);
    forall k: nat | j + from <= k < j + at
      ensures !OccursAt(u, term, k)
    {
      OccursInWindow(u, j, w, term, k - j);
    }
    FindIs(u, term, j + from, j + at);
  }

  lemma RawOutward(hashes: nat, content: string, w: string, u: string, j: nat)
    requires OccursAt(u, w, j) && RawAt(hashes, content, w, 0)
    ensures RawAt(hashes, content, u, j)
  {
    var quote := 1 + hashes;
    assert u[j + 0] == w[0] && u[j + quote] == w[quote];
    HashesOutward(hashes, w, 1, u, j);
    OccursInWindow(u, j, w, content, quote + 1);
    FindOutward(w, Closing(hashes), quote + 1, quote + 1 + |content|, u, j);
  }

  lemma RawMoves(hashes: nat, content: string, t: string, i: nat, u: string, j: nat)
    requires RawAt(hashes, content, t, i) && OccursAt(u, PieceText(Raw(hashes, content)), j)
    ensures RawAt(hashes, content, u, j)
  {
    var w := PieceText(Raw(hashes, content));
    PieceOccurs(Raw(hashes, content), t, i);
    RawInWindow(hashes, content, t, i, w, 0);
    RawOutward(hashes, content, w, u, j);
  }

  lemma QuotedMoves(quote: char, units: List<Unit>, t: string, i: nat, u: string, j: nat)
    requires QuotedAt(quote, units, t, i) && OccursAt(u, PieceText(Quoted(quote, units)), j)
    ensures QuotedAt(quote, units, u, j)
  {
    var w := PieceText(Quoted(quote, units));
    var close := 1 + |UnitsText(units)|;
    PieceOccurs(Quoted(quote, units), t, i);
    UnitsInWindow(units, t, i, w, 1, quote);
    UnitsOutward(units, w, 1, u, j, quote);
    assert w[0] == quote && w[close] == quote && u[j + 0] == w[0] && u[j + close] == w[close];
    TickMoves(w, t, i, u, j);
  }

  /** Whether a tick opens a lifetime is decided inside a literal. */
  lemma TickMoves(w: string, t: string, i: nat, u: string, j: nat)
    requires |w| >= 2 && !StartsName(w[|w| - 1]) && OccursAt(t, w, i) && OccursAt(u, w, j)
    ensures NameAt(t, i + 1) <==> NameAt(u, j + 1)
  {
    assert t[i + 1] == w[1] == u[j + 1];
    if |w| > 2 {
      assert t[i + 2] == w[2] == u[j + 2];
    }
  }

  // ------------------------------------------------------------------ the pieces that are left stand

  /** A `}` stands behind the pieces. */
  predicate ClosedAt(ps: List<Piece>, t: string, i: nat) {
    PiecesAt(ps, t, i) && i + |Source(ps)| < |t| && t[i + |Source(ps)|] == '}'
  }

  lemma ClosedTail(ps: List<Piece>, t: string, i: nat)
    requires ps.Cons? && ClosedAt(ps, t, i)
    ensures PieceAt(ps.head, t, i) && ClosedAt(ps.tail, t, i + |PieceText(ps.head)|)
  {
  }

  lemma FirstStands(p: Piece, t: string, i: nat)
    requires PieceAt(p, t, i)
    ensures i < |t| && t[i] == if p.Block? || p.Line? then '/' else FirstLeft(p)
  {
  }

  /** What follows a slash that opens no comment is not touched. */
  lemma SlashStands(ps: List<Piece>, t: string, i: nat, u: string, j: nat)
    requires ClosedAt(ps, t, i) && LeftAt(ps, u, j) && t[i] != '/' && t[i] != '*'
    ensures j < |u| && u[j] != '/' && u[j] != '*'
  {
    if ps.Nil? {
      LeftEnds(u, j);
    } else {
      FirstStands(ps.head, t, i);
      LeftFirst(ps.head, ps.tail, u, j);
    }
  }

  lemma CodeStandsExactly(c: char, ps: List<Piece>, t: string, i: nat, u: string, j: nat)
    requires PieceAt(Code(c), t, i) && ClosedAt(ps, t, i + 1) && LeftAt(Cons(Code(c), ps), u, j)
    ensures PieceAt(Code(c), u, j) <==> (c == 'r' ==> !RawAhead(ps))
  {
    LeftSplits(Code(c), ps, u, j);
    LeftFirst(Code(c), ps, u, j);
    StandingIsPlain(ps, t, i + 1);
    RawAheadExactly(ps, u, j + 1);
    if c == '/' {
      SlashStands(ps, t, i + 1, u, j + 1);
    }
  }

  /** A name behind a tick begins with a code character or, as `r`, with a raw string. */
  lemma NameBegins(ps: List<Piece>, t: string, i: nat)
    requires NameAt(t, i) && ClosedAt(ps, t, i)
    ensures ps.Cons? && (ps.head.Code? || ps.head.Raw?) && FirstLeft(ps.head) == t[i]
  {
    if ps.Cons? {
      FirstStands(ps.head, t, i);
    }
  }

  /** Two characters decide whether a name follows. */
  lemma NameDecided(u: string, j: nat)
    requires j + 1 < |u| && StartsName(u[j])
    ensures NameAt(u, j) <==> u[j + 1] != '\''
  {
  }

  /** What is left behind the first letter of a name. */
  lemma BehindCode(c: char, ps: List<Piece>, t: string, i: nat, u: string, j: nat)
    requires ClosedAt(Cons(Code(c), ps), t, i) && LeftAt(Cons(Code(c), ps), u, j)
    ensures j + 1 < |u| && (u[j + 1] == '\'' <==> TickAhead(ps))
  {
    ClosedTail(Cons(Code(c), ps), t, i);
    LeftSplits(Code(c), ps, u, j);
    StandingIsPlain(ps, t, i + 1);
    TickAheadExactly(ps, u, j + 1);
  }

  lemma BehindRaw(p: Piece, ps: List<Piece>, u: string, j: nat)
    requires p.Raw? && LeftAt(Cons(p, ps), u, j)
    ensures j + 1 < |u| && u[j + 1] != '\''
  {
    LeftSplits(p, ps, u, j);
    RawIsNoTick(p, u, j);
  }

  /** The two characters that are left behind the tick. */
  lemma NameLeft(p: Piece, ps: List<Piece>, t: string, i: nat, u: string, j: nat)
    requires p.Code? || p.Raw?
    requires ClosedAt(Cons(p, ps), t, i) && LeftAt(Cons(p, ps), u, j)
    ensures j + 1 < |u| && u[j] == FirstLeft(p) && (u[j + 1] == '\'' <==> p.Code? && TickAhead(ps))
  {
    LeftFirst(p, ps, u, j);
    if p.Code? {
      BehindCode(p.c, ps, t, i, u, j);
    } else {
      BehindRaw(p, ps, u, j);
    }
  }

  lemma LifetimeStandsExactly(ps: List<Piece>, t: string, i: nat, u: string, j: nat)
    requires PieceAt(Lifetime, t, i) && ClosedAt(ps, t, i + 1) && LeftAt(Cons(Lifetime, ps), u, j)
    ensures PieceAt(Lifetime, u, j) <==> !(ps.Cons? && ps.head.Code? && TickAhead(ps.tail))
  {
    LeftSplits(Lifetime, ps, u, j);
    LeftFirst(Lifetime, ps, u, j);
    NameBegins(ps, t, i + 1);
    NameLeft(ps.head, ps.tail, t, i + 1, u, j + 1);
    NameDecided(u, j + 1);
  }

  lemma RawIsNoTick(p: Piece, u: string, j: nat)
    requires p.Raw? && OccursAt(u, PieceText(p), j)
    ensures j + 1 < |u| && u[j + 1] != '\''
  {
    var w := PieceText(p);
    assert w[1] == if p.hashes > 0 then '#' else '"';
    assert u[j + 1] == w[1];
  }

  lemma FuseFreeStep(p: Piece, ps: List<Piece>)
    ensures FuseFree(Cons(p, ps)) <==> Unfused(p, ps) && FuseFree(ps)
  {
  }

  lemma BareStep(p: Piece, ps: List<Piece>, u: string, j: nat)
    requires j <= |u|
    ensures p.Block? ==> Bare(Cons(p, ps)) == Bare(ps)
    ensures !p.Block? ==>
              (PiecesAt(Bare(Cons(p, ps)), u, j) <==>
               PieceAt(BarePiece(p), u, j) && PiecesAt(Bare(ps), u, j + |BareText(p)|))
  {
    if !p.Block? {
      BarePieceText(p);
    }
  }

  /** The pieces stand in `t`, and what is left of them in `u`. */
  predicate Paired(ps: List<Piece>, t: string, i: nat, u: string, j: nat) {
    ClosedAt(ps, t, i) && LeftAt(ps, u, j)
  }

  lemma PairedTail(p: Piece, ps: List<Piece>, t: string, i: nat, u: string, j: nat)
    requires Paired(Cons(p, ps), t, i, u, j)
    ensures PieceAt(p, t, i) && Paired(ps, t, i + |PieceText(p)|, u, j + |BareText(p)|)
  {
    LeftSplits(p, ps, u, j);
    ClosedTail(Cons(p, ps), t, i);
  }

  lemma NilStands(u: string, j: nat)
    requires LeftAt(Nil, u, j)
    ensures PiecesAt(Bare(Nil), u, j) && FuseFree(Nil)
  {
    LeftEnds(u, j);
  }

  lemma {:induction false} BareStandsExactly(ps: List<Piece>, t: string, i: nat, u: string, j: nat)
    requires Paired(ps, t, i, u, j)
    ensures PiecesAt(Bare(ps), u, j) <==> FuseFree(ps)
    decreases ps, 0
  {
    match ps
    case Nil => NilStands(u, j);
    case Cons(p, rest) =>
      PairedTail(p, rest, t, i, u, j);
      BareStandsExactly(rest, t, i + |PieceText(p)|, u, j + |BareText(p)|);
      HeadStandsExactly(p, rest, t, i, u, j);
  }

  lemma {:induction false} HeadStandsExactly(p: Piece, ps: List<Piece>, t: string, i: nat, u: string, j: nat)
    requires Paired(Cons(p, ps), t, i, u, j)
    requires PiecesAt(Bare(ps), u, j + |BareText(p)|) <==> FuseFree(ps)
    ensures PiecesAt(Bare(Cons(p, ps)), u, j) <==> FuseFree(Cons(p, ps))
    decreases p, 1
  {
    PairedTail(p, ps, t, i, u, j);
    FuseFreeStep(p, ps);
    BareStep(p, ps, u, j);
    if p.Block? {
      assert j + |BareText(p)| == j;
    } else {
      PieceStandsExactly(p, ps, t, i, u, j);
    }
  }

  /** Taking the comments out lets this piece stand. */
  predicate Unfused(p: Piece, ps: List<Piece>) {
    match p
    case Code(c) => c == 'r' ==> !RawAhead(ps)
    case Lifetime => !(ps.Cons? && ps.head.Code? && TickAhead(ps.tail))
    case Group(body) => FuseFree(body)
    case _ => true
  }

  lemma {:induction false} PieceStandsExactly(p: Piece, ps: List<Piece>, t: string, i: nat, u: string, j: nat)
    requires !p.Block? && PieceAt(p, t, i) && ClosedAt(ps, t, i + |PieceText(p)|) && LeftAt(Cons(p, ps), u, j)
    ensures PieceAt(BarePiece(p), u, j) <==> Unfused(p, ps)
    decreases p, 0
  {
    LeftSplits(p, ps, u, j);
    match p
    case Code(c) => CodeStandsExactly(c, ps, t, i, u, j);
    case Lifetime => LifetimeStandsExactly(ps, t, i, u, j);
    case Line(_) => LeftFirst(p, ps, u, j);
    case Quoted(quote, units) => QuotedMoves(quote, units, t, i, u, j);
    case Raw(hashes, content) => RawMoves(hashes, content, t, i, u, j);
    case Group(body) => GroupStandsExactly(body, t, i, u, j);
  }

  lemma GroupLeft(body: List<Piece>, u: string, j: nat)
    requires OccursAt(u, BareText(Group(body)), j)
    ensures var close := j + 1 + |Uncommented(body)|;
            close < |u| && u[j] == '{' && u[close] == '}' && LeftAt(body, u, j + 1)
  {
    var text, inner := Uncommented(body), Uncommented(body) + "}";
    assert BareText(Group(body)) == "{" + inner;
    OccursSplits(u, "{", inner, j);
    FirstOf(u, "{", j);
    OccursSplits(u, text, "}", j + 1);
    FirstOf(u, "}", j + 1 + |text|);
  }

  lemma GroupStep(ps: List<Piece>, u: string, j: nat, n: nat)
    requires n == |Source(ps)| && j + 1 + n < |u| && u[j] == '{' && u[j + 1 + n] == '}'
    ensures PieceAt(Group(ps), u, j) <==> PiecesAt(ps, u, j + 1)
  {
  }

  lemma {:induction false} GroupStandsExactly(body: List<Piece>, t: string, i: nat, u: string, j: nat)
    requires PieceAt(Group(body), t, i) && OccursAt(u, BareText(Group(body)), j)
    ensures PieceAt(Group(Bare(body)), u, j) <==> FuseFree(body)
    decreases body, 1
  {
    GroupLeft(body, u, j);
    BareSource(body);
    GroupStep(Bare(body), u, j, |Uncommented(body)|);
    BareStandsExactly(body, t, i + 1, u, j + 1);
  }

  // ------------------------------------------------------------------ stripping again

  /** COMMENT-FREE, EXACTLY: the text `code_of` returns reads as the group's own pieces without their
      comments if and only if taking the comments out joins nothing. */
  lemma CodeReadsExactly(source: string, open: nat, body: List<Piece>)
    requires PieceAt(Group(body), source, open)
    ensures PieceAt(Group(Bare(body)), BareText(Group(body)), 0) <==> FuseFree(body)
  {
    GroupStandsExactly(body, source, open, BareText(Group(body)), 0);
  }

  /** STABLE: and then stripping it again changes nothing. */
  lemma StripsOnce(source: string, open: nat, body: List<Piece>)
    requires PieceAt(Group(body), source, open) && FuseFree(body)
    ensures var group := PieceText(Group(body)); Strip(Strip(group)) == Strip(group) == BareText(Group(body))
  {
    var code := BareText(Group(body));
    StripsTheGroup(source, open, body);
    CodeReadsExactly(source, open, body);
    StripsTheGroup(code, 0, Bare(body));
    BareSource(body);
  }

  /** A letter, a comment and a literal with an escaped quote and two slashes in it. */
  function Fusing(): (body: List<Piece>) {
    Cons(Code('r'), Cons(Block(Nil), Cons(FusingLiteral(), Nil)))
  }

  function FusingLiteral(): (p: Piece) {
    Quoted('"', Cons(Escaped('"'), Cons(Unit.Bare('/'), Cons(Unit.Bare('/'), Nil))))
  }

  const FUSING := "{r/**/\"\\\"//\"}"
  const FUSED := "{r\"\\\"//\"}"

  lemma FusingLiteralStands()
    ensures PieceText(FusingLiteral()) == "\"\\\"//\"" && PieceAt(FusingLiteral(), FUSING, 6)
  {
    var u3 := Cons(Unit.Bare('/'), Nil);
    var u2 := Cons(Unit.Bare('/'), u3);
    assert UnitsText(Nil) == [] && UnitsText(u3) == "/" && UnitsText(u2) == "//";
    assert UnitsText(FusingLiteral().units) == "\\\"//";
    assert UnitsAt(Nil, FUSING, 11, '"') && UnitsAt(u3, FUSING, 10, '"') && UnitsAt(u2, FUSING, 9, '"');
  }

  /** A letter, a comment and a piece, with the comment and without. */
  lemma AroundComment(p: Piece)
    requires p.Quoted?
    ensures var ps := Cons(Code('r'), Cons(Block(Nil), Cons(p, Nil)));
            Source(ps) == "r" + ("/**/" + PieceText(p)) && Uncommented(ps) == "r" + PieceText(p)
  {
    var p3 := Cons(p, Nil);
    var p2 := Cons(Block(Nil), p3);
    assert PieceText(p) + [] == PieceText(p) && [] + PieceText(p) == PieceText(p);
    assert Source(Nil) == [] && Source(p3) == PieceText(p);
    assert Uncommented(Nil) == [] && Uncommented(p3) == PieceText(p) && Uncommented(p2) == PieceText(p);
    assert ProseText(Nil) == [] && PieceText(Block(Nil)) == "/**/";
    assert Source(p2) == "/**/" + PieceText(p);
  }

  lemma FusingTexts()
    ensures PieceText(Group(Fusing())) == FUSING && BareText(Group(Fusing())) == FUSED
    ensures |Source(Fusing())| == |FUSING| - 2
  {
    FusingLiteralStands();
    AroundComment(FusingLiteral());
  }

  lemma FusingStands()
    ensures PieceAt(Group(Fusing()), FUSING, 0)
  {
    FusingLiteralStands();
    FusingTexts();
    var p3 := Cons(FusingLiteral(), Nil);
    var p2 := Cons(Block(Nil), p3);
    assert ProseText(Nil) == [] && PieceText(Block(Nil)) == "/**/" && PieceText(Code('r')) == "r";
    assert PiecesAt(Nil, FUSING, 12) && PiecesAt(p3, FUSING, 6);
    assert ProseAt(Nil, FUSING, 4) && BlockAt(Nil, FUSING, 2) && PiecesAt(p2, FUSING, 2);
    assert PieceAt(Code('r'), FUSING, 1) && PiecesAt(Fusing(), FUSING, 1);
    GroupStep(Fusing(), FUSING, 0, |FUSING| - 2);
  }

  lemma FusedShrinks()
    ensures |Strip(FUSED)| == 5
  {
    var t := FUSED;
    assert HashEnd(t, 2) == 2;
    NotAt(t, Terminator(0), 3);
    FindIs(t, Terminator(0), 3, 4);
    assert Lex(t, 1) == Literal(5);
    assert FindChar(t, '\n', 6) == None;
    assert Lex(t, 5) == LineComment(9);
    assert StripFrom(t, 9) == [] && StripFrom(t, 5) == [];
    BetweenIsSlice(t, 1, 5);
    BetweenIsSlice(t, 0, 1);
    assert |StripFrom(t, 1)| == 4;
  }

  lemma FusingStrips()
    ensures Strip(FUSING) == FUSED
  {
    FusingStands();
    FusingTexts();
    StripsTheGroup(FUSING, 0, Fusing());
  }

  /** COUNTEREXAMPLE: with the comment gone, the letter and the literal are a raw string and a line
      comment, which stripping removes. */
  lemma FusedTextIsNotStable()
    ensures !FuseFree(Fusing()) && PieceAt(Group(Fusing()), FUSING, 0)
    ensures Strip(Strip(FUSING)) != Strip(FUSING)
  {
    FusingStands();
    FusingStrips();
    FusedShrinks();
    assert RawAhead(Fusing().tail);
  }
}
