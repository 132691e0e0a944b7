/** The scanner reads the grammar: it crosses every piece whole, so `body_of` returns exactly the
    brace group and `code_of` exactly that group without its comments. */
module SourceReading {
  import opened Text
  import opened Lists
  import opened Alphabets
  import opened SourceProbe
  import opened SourceGrammar

  // ------------------------------------------------------------------ the scanner's tests are the grammar's

  lemma NamesLifetime(t: string, i: nat)
    ensures OpensLifetime(t, i) <==> NameAt(t, i)
  {
  }

  /** What stands behind a tick names a lifetime: a character of the spelled-out alphabet, and no tick
      behind it. */
  predicate NameSpelled(t: string, i: nat) {
    i < |t| && t[i] in NAME_START && !(i + 1 < |t| && t[i + 1] == '\'')
  }

  lemma NameSpelledExactly(t: string, i: nat)
    ensures NameSpelled(t, i) <==> NameAt(t, i)
  {
    if i < |t| {
      NameStartExactly(t[i]);
    }
  }

  lemma {:induction false} RawOpensExactly(t: string, i: nat)
    requires i <= |t|
    ensures OpensRaw(t, i) <==> RawOpens(t, i)
    decreases |t| - i
  {
    if i < |t| && t[i] == '#' {
      RawOpensExactly(t, i + 1);
    }
  }

  lemma {:induction false} HashesSnoc(n: nat)
    ensures Hashes(n) + "#" == Hashes(n + 1)
  {
    if n > 0 {
      HashesSnoc(n - 1);
      assert Hashes(n) + "#" == "#" + (Hashes(n - 1) + "#");
    }
  }

  lemma {:induction false} TerminatorIsClosing(n: nat)
    ensures Terminator(n) == Closing(n)
  {
    if n > 0 {
      TerminatorIsClosing(n - 1);
      HashesSnoc(n - 1);
      assert Closing(n - 1) + "#" == "\"" + (Hashes(n - 1) + "#");
    }
  }

  /** A TICK, EXACTLY: it opens a lifetime if and only if a letter or `_` follows and no tick behind that;
      otherwise it opens a literal that runs to its closing tick. */
  lemma TickExactly(t: string, i: nat)
    requires i < |t| && t[i] == '\''
    ensures Lex(t, i) == Single(i + 1) <==> NameSpelled(t, i + 1)
    ensures !NameSpelled(t, i + 1) ==> Lex(t, i) == Literal(QuotedEnd(t, i + 1, '\''))
  {
    NamesLifetime(t, i + 1);
    NameSpelledExactly(t, i + 1);
  }

  /** AN `r`, EXACTLY: it opens a raw string if and only if a `"` follows, behind `#`s only. */
  lemma RawExactly(t: string, i: nat)
    requires i < |t| && t[i] == 'r'
    ensures Lex(t, i).Literal? <==> RawOpens(t, i + 1)
    ensures !RawOpens(t, i + 1) ==> Lex(t, i) == Single(i + 1)
  {
    RawOpensExactly(t, i + 1);
  }

  // ------------------------------------------------------------------ each lexeme is read whole

  lemma {:induction false} CrossesProse(ps: List<Prose>, t: string, i: nat, depth: nat)
    requires depth > 0 && ProseAt(ps, t, i)
    ensures i + |ProseText(ps)| <= |t|
    ensures BlockEnd(t, i, depth) == BlockEnd(t, i + |ProseText(ps)|, depth)
    decreases ps
  {
    if ps.Cons? {
      CrossesPart(ps.head, t, i, depth);
      CrossesProse(ps.tail, t, i + |ProsePart(ps.head)|, depth);
    }
  }

  lemma {:induction false} CrossesPart(p: Prose, t: string, i: nat, depth: nat)
    requires depth > 0 && PartAt(p, t, i)
    ensures i + |ProsePart(p)| <= |t|
    ensures BlockEnd(t, i, depth) == BlockEnd(t, i + |ProsePart(p)|, depth)
    decreases p, 0
  {
    if p.Nested? {
      CrossesProse(p.inner, t, i + 2, depth + 1);
    }
  }

  lemma {:induction false} CrossesUnits(us: List<Unit>, t: string, i: nat, quote: char)
    requires UnitsAt(us, t, i, quote) && quote != '\\'
    ensures QuotedEnd(t, i, quote) == QuotedEnd(t, i + |UnitsText(us)|, quote)
  {
    if us.Cons? {
      CrossesUnits(us.tail, t, i + |UnitText(us.head)|, quote);
    }
  }

  lemma {:induction false} CrossesHashes(n: nat, t: string, i: nat)
    requires i + n < |t| && HashesAt(n, t, i) && t[i + n] != '#'
    ensures HashEnd(t, i) == i + n
  {
    if n > 0 {
      CrossesHashes(n - 1, t, i + 1);
    }
  }

  lemma LexesLine(text: string, t: string, i: nat)
    requires PieceAt(Line(text), t, i)
    ensures Lex(t, i) == LineComment(i + 2 + |text|)
  {
    var newline := i + 2 + |text|;
    forall j | i + 1 <= j < newline
      ensures t[j] != '\n'
    {
      assert j > i + 1 ==> t[i + 2 + (j - i - 2)] == text[j - i - 2];
    }
  }

  lemma LexesBlock(inner: List<Prose>, t: string, i: nat)
    requires BlockAt(inner, t, i)
    ensures Lex(t, i) == BlockComment(i + 4 + |ProseText(inner)|)
  {
    CrossesProse(inner, t, i + 2, 1);
  }

  lemma LexesQuoted(quote: char, units: List<Unit>, t: string, i: nat)
    requires QuotedAt(quote, units, t, i)
    ensures Lex(t, i) == Literal(i + 2 + |UnitsText(units)|)
  {
    CrossesUnits(units, t, i + 1, quote);
    NamesLifetime(t, i + 1);
  }

  lemma LexesRaw(hashes: nat, content: string, t: string, i: nat)
    requires RawAt(hashes, content, t, i)
    ensures Lex(t, i) == Literal(i + 3 + 2 * hashes + |content|)
  {
    CrossesHashes(hashes, t, i + 1);
    TerminatorIsClosing(hashes);
  }

  /** Where a piece stands, the scanner sees that piece and all of it. */
  lemma LexesPiece(p: Piece, t: string, i: nat)
    requires PieceAt(p, t, i) && !p.Group?
    ensures i + |PieceText(p)| <= |t| && t[i] != '{' && t[i] != '}'
    ensures var end := i + |PieceText(p)|;
            Lex(t, i) == if p.Line? then LineComment(end - 1)
                         else if p.Block? then BlockComment(end)
                         else if p.Quoted? || p.Raw? then Literal(end)
                         else Single(end)
  {
    match p
    case Line(text) => LexesLine(text, t, i);
    case Block(inner) => LexesBlock(inner, t, i);
    case Quoted(quote, units) => LexesQuoted(quote, units, t, i);
    case Raw(hashes, content) => LexesRaw(hashes, content, t, i);
    case Lifetime => NamesLifetime(t, i + 1);
    case Code(c) =>
      if c == 'r' {
        RawExactly(t, i);
      }
  }

  // ------------------------------------------------------------------ the brace count

  /** The count that stands at `i` with `depth` open braces stands at `j` with as many. */
  predicate Crosses(t: string, i: nat, j: nat, depth: nat)
    requires i <= |t| && j <= |t| && depth > 0
  {
    GroupEnd(t, i, depth) == GroupEnd(t, j, depth)
  }

  lemma {:induction false} CrossesPieces(ps: List<Piece>, t: string, i: nat, depth: nat)
    requires depth > 0 && PiecesAt(ps, t, i)
    ensures i + |Source(ps)| <= |t| && Crosses(t, i, i + |Source(ps)|, depth)
    decreases ps
  {
    if ps.Cons? {
      var j := i + |PieceText(ps.head)|;
      CrossesPiece(ps.head, t, i, depth);
      CrossesPieces(ps.tail, t, j, depth);
      CrossesBoth(t, i, j, j + |Source(ps.tail)|, depth);
    }
  }

  lemma CrossesBoth(t: string, i: nat, j: nat, k: nat, depth: nat)
    requires i <= |t| && j <= |t| && k <= |t| && depth > 0 && Crosses(t, i, j, depth) && Crosses(t, j, k, depth)
    ensures Crosses(t, i, k, depth)
  {
  }

  lemma {:induction false} CrossesPiece(p: Piece, t: string, i: nat, depth: nat)
    requires depth > 0 && PieceAt(p, t, i)
    ensures i + |PieceText(p)| <= |t| && Crosses(t, i, i + |PieceText(p)|, depth)
    decreases p, 0
  {
    if p.Group? {
      CrossesPieces(p.body, t, i + 1, depth + 1);
      CrossesGroup(t, i, i + 1 + |Source(p.body)|, depth);
    } else {
      CrossesLexeme(p, t, i, depth);
    }
  }

  lemma CrossesLexeme(p: Piece, t: string, i: nat, depth: nat)
    requires depth > 0 && PieceAt(p, t, i) && !p.Group?
    ensures i + |PieceText(p)| <= |t| && Crosses(t, i, i + |PieceText(p)|, depth)
  {
    AdvancesPiece(p, t, i);
    CrossesAdvance(t, i, depth);
  }

  lemma AdvancesPiece(p: Piece, t: string, i: nat)
    requires PieceAt(p, t, i) && !p.Group?
    ensures i + |PieceText(p)| <= |t| && t[i] != '{' && t[i] != '}' && Advance(t, i) == i + |PieceText(p)|
  {
    LexesPiece(p, t, i);
  }

  lemma CrossesAdvance(t: string, i: nat, depth: nat)
    requires depth > 0 && i < |t| && t[i] != '{' && t[i] != '}'
    ensures Crosses(t, i, Advance(t, i), depth)
  {
  }

  lemma CrossesGroup(t: string, open: nat, close: nat, depth: nat)
    requires open < close < |t| && t[open] == '{' && t[close] == '}' && depth > 0
    requires Crosses(t, open + 1, close, depth + 1)
    ensures Crosses(t, open, close + 1, depth)
  {
  }

  // ------------------------------------------------------------------ the text between is the pieces' text

  lemma OccursBoth(t: string, a: string, b: string, i: nat)
    requires OccursAt(t, a, i) && OccursAt(t, b, i + |a|)
    ensures OccursAt(t, a + b, i)
  {
    forall k | 0 <= k < |a + b|
      ensures t[i + k] == (a + b)[k]
    {
      if k >= |a| { assert t[i + |a| + (k - |a|)] == b[k - |a|]; }
    }
  }

  lemma {:induction false} ProseOccurs(ps: List<Prose>, t: string, i: nat)
    requires ProseAt(ps, t, i)
    ensures OccursAt(t, ProseText(ps), i)
    decreases ps, 0
  {
    if ps.Cons? {
      var p := ps.head;
      if p.Nested? {
        BlockOccurs(p.inner, t, i);
      }
      ProseOccurs(ps.tail, t, i + |ProsePart(p)|);
      OccursBoth(t, ProsePart(p), ProseText(ps.tail), i);
    }
  }

  lemma {:induction false} BlockOccurs(inner: List<Prose>, t: string, i: nat)
    requires BlockAt(inner, t, i)
    ensures OccursAt(t, "/*" + ProseText(inner) + "*/", i)
    decreases inner, 1
  {
    ProseOccurs(inner, t, i + 2);
    OccursBoth(t, "/*", ProseText(inner), i);
    OccursBoth(t, "/*" + ProseText(inner), "*/", i);
  }

  lemma {:induction false} UnitsOccur(us: List<Unit>, t: string, i: nat, quote: char)
    requires UnitsAt(us, t, i, quote) && i <= |t|
    ensures OccursAt(t, UnitsText(us), i)
  {
    if us.Cons? {
      UnitsOccur(us.tail, t, i + |UnitText(us.head)|, quote);
      OccursBoth(t, UnitText(us.head), UnitsText(us.tail), i);
    }
  }

  lemma {:induction false} HashesOccur(n: nat, t: string, i: nat)
    requires HashesAt(n, t, i) && i <= |t|
    ensures OccursAt(t, Hashes(n), i)
  {
    if n > 0 {
      HashesOccur(n - 1, t, i + 1);
      OccursBoth(t, "#", Hashes(n - 1), i);
    }
  }

  lemma {:induction false} PieceOccurs(p: Piece, t: string, i: nat)
    requires PieceAt(p, t, i)
    ensures OccursAt(t, PieceText(p), i)
    decreases p, 0
  {
    match p
    case Line(text) =>
      OccursBoth(t, "//", text, i);
      OccursBoth(t, "//" + text, "\n", i);
    case Block(inner) => BlockOccurs(inner, t, i);
    case Quoted(quote, units) =>
      UnitsOccur(units, t, i + 1, quote);
      OccursBoth(t, [quote], UnitsText(units), i);
      OccursBoth(t, [quote] + UnitsText(units), [quote], i);
    case Raw(hashes, content) =>
      HashesOccur(hashes, t, i + 1);
      OccursBoth(t, "r", Hashes(hashes), i);
      OccursBoth(t, "r" + Hashes(hashes), "\"", i);
      OccursBoth(t, "r" + Hashes(hashes) + "\"", content, i);
      OccursBoth(t, "r" + Hashes(hashes) + "\"" + content, Closing(hashes), i);
    case Group(body) =>
      PiecesOccur(body, t, i + 1);
      OccursBoth(t, "{", Source(body), i);
      OccursBoth(t, "{" + Source(body), "}", i);
    case _ =>
  }

  lemma {:induction false} PiecesOccur(ps: List<Piece>, t: string, i: nat)
    requires PiecesAt(ps, t, i)
    ensures OccursAt(t, Source(ps), i)
    decreases ps
  {
    if ps.Cons? {
      PieceOccurs(ps.head, t, i);
      PiecesOccur(ps.tail, t, i + |PieceText(ps.head)|);
      OccursBoth(t, PieceText(ps.head), Source(ps.tail), i);
    }
  }

  // ------------------------------------------------------------------ the copy

  /** What is copied from each position on. */
  type Copy = nat -> string

  predicate CopiesAt(t: string, f: Copy, i: nat)
    requires i < |t|
  {
    f(i) == Kept(t, i) + f(Lex(t, i).end)
  }

  /** `f` is the copy of `t`, lexeme by lexeme. */
  ghost predicate Copies(t: string, f: Copy) {
    forall i: nat {:trigger CopiesAt(t, f, i)} :: i < |t| ==> CopiesAt(t, f, i)
  }

  /** The copy writes `w` between `i` and `j`. */
  predicate Writes(f: Copy, i: nat, j: nat, w: string) {
    f(i) == w + f(j)
  }

  lemma StripsBoth(f: Copy, i: nat, j: nat, k: nat, a: string, b: string)
    requires Writes(f, i, j, a) && Writes(f, j, k, b)
    ensures Writes(f, i, k, a + b)
  {
    JoinsText(f(i), f(j), f(k), a, b);
  }

  lemma StripsNothing(f: Copy, i: nat)
    ensures Writes(f, i, i, [])
  {
    assert [] + f(i) == f(i);
  }

  lemma {:induction false} StripsPieces(ps: List<Piece>, t: string, i: nat, f: Copy)
    requires Copies(t, f) && PiecesAt(ps, t, i)
    ensures i + |Source(ps)| <= |t| && Writes(f, i, i + |Source(ps)|, Uncommented(ps))
    decreases ps
  {
    if ps.Nil? {
      StripsNothing(f, i);
    } else {
      var j := i + |PieceText(ps.head)|;
      StripsPiece(ps.head, t, i, f);
      StripsPieces(ps.tail, t, j, f);
      StripsBoth(f, i, j, j + |Source(ps.tail)|, BareText(ps.head), Uncommented(ps.tail));
    }
  }

  lemma {:induction false} StripsPiece(p: Piece, t: string, i: nat, f: Copy)
    requires Copies(t, f) && PieceAt(p, t, i)
    ensures i + |PieceText(p)| <= |t| && Writes(f, i, i + |PieceText(p)|, BareText(p))
    decreases p, 0
  {
    if p.Group? {
      StripsPieces(p.body, t, i + 1, f);
      StripsWholeGroup(p.body, t, i, f);
    } else {
      StripsLexeme(p, t, i, f);
    }
  }

  lemma GroupTexts(body: List<Piece>)
    ensures |PieceText(Group(body))| == |Source(body)| + 2
    ensures BareText(Group(body)) == "{" + Uncommented(body) + "}"
  {
  }

  lemma StripsWholeGroup(body: List<Piece>, t: string, i: nat, f: Copy)
    requires Copies(t, f) && PieceAt(Group(body), t, i)
    requires Writes(f, i + 1, i + 1 + |Source(body)|, Uncommented(body))
    ensures i + |PieceText(Group(body))| <= |t|
    ensures Writes(f, i, i + |PieceText(Group(body))|, BareText(Group(body)))
  {
    GroupTexts(body);
    StripsGroup(t, i, i + 1 + |Source(body)|, Uncommented(body), f);
  }

  lemma StripsGroup(t: string, open: nat, close: nat, inner: string, f: Copy)
    requires Copies(t, f) && Writes(f, open + 1, close, inner)
    requires open < close < |t| && t[open] == '{' && t[close] == '}'
    ensures Writes(f, open, close + 1, "{" + inner + "}")
  {
    assert Writes(f, open, close, "{" + inner) by {
      StripsSingle(t, open, "{", f);
      StripsBoth(f, open, open + 1, close, "{", inner);
    }
    StripsClose(t, open, close, "{" + inner, f);
  }

  lemma StripsClose(t: string, i: nat, close: nat, w: string, f: Copy)
    requires Copies(t, f) && i <= close < |t| && t[close] == '}' && Writes(f, i, close, w)
    ensures Writes(f, i, close + 1, w + "}")
  {
    StripsSingle(t, close, "}", f);
    StripsBoth(f, i, close, close + 1, w, "}");
  }

  lemma StripsLexeme(p: Piece, t: string, i: nat, f: Copy)
    requires Copies(t, f) && PieceAt(p, t, i) && !p.Group?
    ensures i + |PieceText(p)| <= |t| && Writes(f, i, i + |PieceText(p)|, BareText(p))
  {
    if p.Line? {
      StripsLine(p.text, t, i, f);
    } else if p.Block? {
      BlockLength(p.inner);
      StripsBlock(p.inner, t, i, f);
    } else {
      StripsWord(p, t, i, f);
    }
  }

  lemma BlockLength(inner: List<Prose>)
    ensures |PieceText(Block(inner))| == 4 + |ProseText(inner)| && BareText(Block(inner)) == []
  {
  }

  lemma StripsBlock(inner: List<Prose>, t: string, i: nat, f: Copy)
    requires Copies(t, f) && BlockAt(inner, t, i)
    ensures i + 4 + |ProseText(inner)| <= |t| && Writes(f, i, i + 4 + |ProseText(inner)|, [])
  {
    LexesBlock(inner, t, i);
    StripsUpTo(t, i, i + 4 + |ProseText(inner)|, f);
  }

  lemma StripsUpTo(t: string, i: nat, end: nat, f: Copy)
    requires Copies(t, f) && i < |t| && Lex(t, i) == BlockComment(end)
    ensures end <= |t| && Writes(f, i, end, [])
  {
    StripsComment(t, i, f);
  }

  lemma StripsWord(p: Piece, t: string, i: nat, f: Copy)
    requires Copies(t, f) && PieceAt(p, t, i) && !p.Group? && !p.Line? && !p.Block?
    ensures i + |PieceText(p)| <= |t| && Writes(f, i, i + |PieceText(p)|, PieceText(p))
  {
    LexesPiece(p, t, i);
    PieceOccurs(p, t, i);
    StripsKept(t, i, PieceText(p), f);
  }

  lemma StripsLine(text: string, t: string, i: nat, f: Copy)
    requires Copies(t, f) && PieceAt(Line(text), t, i)
    ensures Writes(f, i, i + 3 + |text|, "\n")
  {
    var newline := i + 2 + |text|;
    LexesLine(text, t, i);
    StripsComment(t, i, f);
    StripsSingle(t, newline, "\n", f);
    StripsBoth(f, i, newline, newline + 1, [], "\n");
    assert [] + "\n" == "\n";
  }

  lemma StripsComment(t: string, i: nat, f: Copy)
    requires Copies(t, f) && i < |t| && (Lex(t, i).LineComment? || Lex(t, i).BlockComment?)
    ensures Writes(f, i, Lex(t, i).end, [])
  {
    assert CopiesAt(t, f, i);
  }

  lemma StripsKept(t: string, i: nat, w: string, f: Copy)
    requires Copies(t, f) && i < |t| && OccursAt(t, w, i)
    requires (Lex(t, i).Literal? || Lex(t, i).Single?) && Lex(t, i).end == i + |w|
    ensures Writes(f, i, i + |w|, w)
  {
    OccursBetween(t, w, i);
    assert CopiesAt(t, f, i);
  }

  lemma OccursBetween(t: string, w: string, i: nat)
    requires OccursAt(t, w, i)
    ensures Between(t, i, i + |w|) == w
  {
    OccursAsSlice(t, w, i);
    BetweenIsSlice(t, i, i + |w|);
  }

  lemma StripsSingle(t: string, i: nat, w: string, f: Copy)
    requires Copies(t, f) && i < |t| && (t[i] == '{' || t[i] == '}' || t[i] == '\n') && w == [t[i]]
    ensures Writes(f, i, i + 1, w)
  {
    assert Between(t, i, i + 1) == [t[i]] + Between(t, i + 1, i + 1);
    assert CopiesAt(t, f, i);
  }
}
