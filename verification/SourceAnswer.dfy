/** What `body_of` and `code_of` answer, in terms of the grammar, in both directions. */
module SourceAnswer {
  import opened Wrappers
  import opened Text
  import opened Lists
  import opened SourceProbe
  import opened SourceGrammar
  import opened SourceReading

  // ------------------------------------------------------------------ nothing behind the closing brace is looked at
  //
  // `u` is a window of `t` that starts at `a`. Pieces that stand in `t`, with a `}` behind them that
  // is still inside the window, stand in the window too.

  lemma {:induction false} RawOpensInWindow(t: string, a: nat, u: string, j: nat, c: nat)
    requires OccursAt(t, u, a) && j <= c < |u| && u[c] == '}'
    ensures RawOpens(t, a + j) <==> RawOpens(u, j)
    decreases c - j
  {
    assert t[a + j] == u[j];
    if j < c && u[j] == '#' {
      RawOpensInWindow(t, a, u, j + 1, c);
    }
  }

  lemma OccursInWindow(t: string, a: nat, u: string, w: string, j: nat)
    requires OccursAt(t, u, a) && j + |w| <= |u|
    ensures OccursAt(t, w, a + j) <==> OccursAt(u, w, j)
  {
    forall k | 0 <= k < |w|
      ensures t[(a + j) + k] == w[k] <==> u[j + k] == w[k]
    {
      assert u[j + k] == t[a + (j + k)];
    }
  }

  lemma FindInWindow(t: string, a: nat, u: string, w: string, from: nat, at: nat)
    requires OccursAt(t, u, a) && FindFrom(t, w, a + from) == Some(a + at) && at + |w| <= |u|
    ensures FindFrom(u, w, from) == Some(at)
  {
    OccursInWindow(t, a, u, w, at);
    forall j: nat | from <= j < at
      ensures !OccursAt(u, w, j)
    {
      OccursInWindow(t, a, u, w, j);
    }
    FindIs(u, w, from, at);
  }

  lemma {:induction false} ProseInWindow(ps: List<Prose>, t: string, a: nat, u: string, j: nat)
    requires OccursAt(t, u, a) && ProseAt(ps, t, a + j) && j + |ProseText(ps)| < |u|
    ensures ProseAt(ps, u, j)
    decreases ps, 0
  {
    if ps.Cons? {
      PartInWindow(ps.head, t, a, u, j);
      ProseInWindow(ps.tail, t, a, u, j + |ProsePart(ps.head)|);
    }
  }

  lemma {:induction false} PartInWindow(p: Prose, t: string, a: nat, u: string, j: nat)
    requires OccursAt(t, u, a) && PartAt(p, t, a + j) && j + |ProsePart(p)| < |u|
    ensures PartAt(p, u, j)
    decreases p, 0
  {
    if p.Nested? {
      BlockInWindow(p.inner, t, a, u, j);
    } else {
      assert t[a + j] == u[j] && t[a + j + 1] == t[a + (j + 1)] == u[j + 1];
    }
  }

  lemma {:induction false} BlockInWindow(inner: List<Prose>, t: string, a: nat, u: string, j: nat)
    requires OccursAt(t, u, a) && BlockAt(inner, t, a + j) && j + 4 + |ProseText(inner)| <= |u|
    ensures BlockAt(inner, u, j)
    decreases inner, 1
  {
    var close := j + 2 + |ProseText(inner)|;
    assert t[a + j] == u[j] && t[a + (j + 1)] == u[j + 1];
    assert t[a + close] == u[close] && t[a + (close + 1)] == u[close + 1];
    ProseInWindow(inner, t, a, u, j + 2);
  }

  lemma {:induction false} UnitsInWindow(us: List<Unit>, t: string, a: nat, u: string, j: nat, quote: char)
    requires OccursAt(t, u, a) && UnitsAt(us, t, a + j, quote) && j + |UnitsText(us)| <= |u|
    ensures UnitsAt(us, u, j, quote)
  {
    if us.Cons? {
      assert t[a + j] == u[j] && (us.head.Escaped? ==> t[a + (j + 1)] == u[j + 1]);
      UnitsInWindow(us.tail, t, a, u, j + |UnitText(us.head)|, quote);
    }
  }

  lemma {:induction false} HashesInWindow(n: nat, t: string, a: nat, u: string, j: nat)
    requires OccursAt(t, u, a) && HashesAt(n, t, a + j) && j + n <= |u|
    ensures HashesAt(n, u, j)
  {
    if n > 0 {
      assert t[a + j] == u[j];
      HashesInWindow(n - 1, t, a, u, j + 1);
    }
  }

  lemma LifetimeInWindow(t: string, a: nat, u: string, j: nat, c: nat)
    requires OccursAt(t, u, a) && j <= c < |u| && u[c] == '}'
    ensures NameAt(t, a + j) <==> NameAt(u, j)
  {
    assert t[a + j] == u[j] && (j + 1 < |u| ==> t[a + (j + 1)] == u[j + 1]);
  }

  lemma QuotedInWindow(quote: char, units: List<Unit>, t: string, a: nat, u: string, j: nat, c: nat)
    requires OccursAt(t, u, a) && QuotedAt(quote, units, t, a + j)
    requires j + 2 + |UnitsText(units)| <= c < |u| && u[c] == '}'
    ensures QuotedAt(quote, units, u, j)
  {
    var close := j + 1 + |UnitsText(units)|;
    assert t[a + j] == u[j] && t[a + close] == u[close];
    LifetimeInWindow(t, a, u, j + 1, c);
    UnitsInWindow(units, t, a, u, j + 1, quote);
  }

  lemma RawInWindow(hashes: nat, content: string, t: string, a: nat, u: string, j: nat)
    requires OccursAt(t, u, a) && RawAt(hashes, content, t, a + j) && j + 3 + 2 * hashes + |content| <= |u|
    ensures RawAt(hashes, content, u, j)
  {
    var quote := j + 1 + hashes;
    assert t[a + j] == u[j] && t[a + quote] == u[quote];
    HashesInWindow(hashes, t, a, u, j + 1);
    OccursInWindow(t, a, u, content, quote + 1);
    FindInWindow(t, a, u, Closing(hashes), quote + 1, quote + 1 + |content|);
  }

  lemma LineInWindow(text: string, t: string, a: nat, u: string, j: nat)
    requires OccursAt(t, u, a) && PieceAt(Line(text), t, a + j) && j + 3 + |text| <= |u|
    ensures PieceAt(Line(text), u, j)
  {
    var newline := j + 2 + |text|;
    assert t[a + j] == u[j] && t[a + (j + 1)] == u[j + 1] && t[a + newline] == u[newline];
    OccursInWindow(t, a, u, text, j + 2);
  }

  lemma CodeInWindow(ch: char, t: string, a: nat, u: string, j: nat, c: nat)
    requires OccursAt(t, u, a) && PieceAt(Code(ch), t, a + j) && j + 1 <= c < |u| && u[c] == '}'
    ensures PieceAt(Code(ch), u, j)
  {
    assert t[a + j] == u[j] && t[a + (j + 1)] == u[j + 1];
    RawOpensInWindow(t, a, u, j + 1, c);
  }

  lemma {:induction false} PieceInWindow(p: Piece, t: string, a: nat, u: string, j: nat, c: nat)
    requires OccursAt(t, u, a) && PieceAt(p, t, a + j) && j + |PieceText(p)| <= c < |u| && u[c] == '}'
    ensures PieceAt(p, u, j)
    decreases p, 0
  {
    assert t[a + j] == u[j];
    match p
    case Code(ch) => CodeInWindow(ch, t, a, u, j, c);
    case Lifetime => LifetimeInWindow(t, a, u, j + 1, c);
    case Line(text) => LineInWindow(text, t, a, u, j);
    case Block(inner) => BlockInWindow(inner, t, a, u, j);
    case Quoted(quote, units) => QuotedInWindow(quote, units, t, a, u, j, c);
    case Raw(hashes, content) => RawInWindow(hashes, content, t, a, u, j);
    case Group(body) =>
      var close := j + 1 + |Source(body)|;
      assert t[a + close] == u[close];
      PiecesInWindow(body, t, a, u, j + 1, close);
  }

  lemma {:induction false} PiecesInWindow(ps: List<Piece>, t: string, a: nat, u: string, j: nat, c: nat)
    requires OccursAt(t, u, a) && PiecesAt(ps, t, a + j) && j + |Source(ps)| <= c < |u| && u[c] == '}'
    ensures PiecesAt(ps, u, j)
    decreases ps
  {
    if ps.Cons? {
      PieceInWindow(ps.head, t, a, u, j, c);
      PiecesInWindow(ps.tail, t, a, u, j + |PieceText(ps.head)|, c);
    }
  }

  lemma GroupEnds(t: string, open: nat, body: List<Piece>)
    requires PieceAt(Group(body), t, open)
    ensures GroupEnd(t, open, 0) == Some(open + |PieceText(Group(body))|)
  {
    CrossesPieces(body, t, open + 1, 1);
  }

  lemma GroupSlice(t: string, open: nat, body: List<Piece>)
    requires PieceAt(Group(body), t, open)
    ensures var end := open + |PieceText(Group(body))|; end <= |t| && t[open..end] == PieceText(Group(body))
  {
    PieceOccurs(Group(body), t, open);
    OccursAsSlice(t, PieceText(Group(body)), open);
  }

  /** THE SCANNER READS ITEMS. Where the item's first brace opens a group of well-formed pieces,
      `body_of` returns exactly that group and `code_of` exactly the group without its comments. */
  lemma BodyIsTheGroup(source: string, signature: string, body: List<Piece>)
    requires Opening(source, signature).Ok? && PieceAt(Group(body), source, Opening(source, signature).value)
    ensures Body(source, signature) == Ok(PieceText(Group(body)))
    ensures Strip(PieceText(Group(body))) == BareText(Group(body))
  {
    var open := Opening(source, signature).value;
    ReadsTheGroup(source, open, body);
    StripsTheGroup(source, open, body);
  }

  lemma ReadsTheGroup(t: string, open: nat, body: List<Piece>)
    requires PieceAt(Group(body), t, open)
    ensures GroupAt(t, open) == Ok(PieceText(Group(body)))
  {
    GroupEnds(t, open, body);
    GroupSlice(t, open, body);
    AnswersSlice(t, open, open + |PieceText(Group(body))|);
  }

  lemma AnswersSlice(t: string, open: nat, end: nat)
    requires open < |t| && t[open] == '{' && GroupEnd(t, open, 0) == Some(end)
    ensures GroupAt(t, open) == Ok(t[open..end])
  {
  }

  ghost function StripCopy(t: string): (f: Copy) {
    (i: nat) => if i <= |t| then StripFrom(t, i) else []
  }

  lemma StripCopies(t: string)
    ensures Copies(t, StripCopy(t))
  {
  }

  lemma StripsTheGroup(source: string, open: nat, body: List<Piece>)
    requires PieceAt(Group(body), source, open)
    ensures Strip(PieceText(Group(body))) == BareText(Group(body))
  {
    var group := PieceText(Group(body));
    PieceOccurs(Group(body), source, open);
    assert group[0] == '{' && group[|group| - 1] == '}';
    PiecesInWindow(body, source, open, group, 1, |group| - 1);
    var f := StripCopy(group);
    StripCopies(group);
    StripsPiece(Group(body), group, 0, f);
    assert f(|group|) == [];
    assert BareText(Group(body)) + [] == BareText(Group(body));
  }

  // ------------------------------------------------------------------ whatever it answers is a group
  //
  // The other direction: each lexeme the scan crosses is a piece, and the braces it counts nest.
  // `...Levels` lists what stands on each level that is open at `i`, innermost first.

  lemma {:induction false} ReadsUnits(t: string, i: nat, quote: char) returns (us: List<Unit>)
    requires i <= |t| && quote != '\\' && QuotedEnd(t, i, quote) < |t|
    ensures UnitsAt(us, t, i, quote) && QuotedEnd(t, i, quote) == i + |UnitsText(us)| + 1
    ensures t[i + |UnitsText(us)|] == quote
    decreases |t| - i
  {
    if t[i] == '\\' {
      us := ReadsUnits(t, i + 2, quote);
      us := Cons(Escaped(t[i + 1]), us);
    } else if t[i] == quote {
      us := Nil;
    } else {
      us := ReadsUnits(t, i + 1, quote);
      us := Cons(Bare(t[i]), us);
    }
  }

  predicate ProseLevels(pss: List<List<Prose>>, t: string, i: nat, end: nat) {
    match pss
    case Nil => i == end
    case Cons(ps, outer) =>
      var close := i + |ProseText(ps)|;
      && ProseAt(ps, t, i) && close + 2 <= |t| && t[close] == '*' && t[close + 1] == '/'
      && ProseLevels(outer, t, close + 2, end)
  }

  lemma AddsPart(t: string, i: nat, p: Prose, pss: List<List<Prose>>, end: nat) returns (more: List<List<Prose>>)
    requires i <= |t| && PartAt(p, t, i) && ProseLevels(pss, t, i + |ProsePart(p)|, end) && pss.Cons?
    ensures ProseLevels(more, t, i, end) && Length(more) == Length(pss)
  {
    more := Cons(Cons(p, pss.head), pss.tail);
    assert |ProseText(more.head)| == |ProsePart(p)| + |ProseText(pss.head)|;
  }

  lemma OpensComment(t: string, i: nat, inner: List<Prose>, outer: List<List<Prose>>, end: nat)
    returns (pss: List<List<Prose>>)
    requires i + 1 < |t| && t[i] == '/' && t[i + 1] == '*'
    requires ProseLevels(Cons(inner, outer), t, i + 2, end) && outer.Cons?
    ensures ProseLevels(pss, t, i, end) && Length(pss) == Length(outer)
  {
    CommentStands(t, i, inner);
    pss := AddsPart(t, i, Nested(inner), outer, end);
  }

  lemma CommentStands(t: string, i: nat, inner: List<Prose>)
    requires var close := i + 2 + |ProseText(inner)|;
             && close + 2 <= |t| && t[i] == '/' && t[i + 1] == '*' && t[close] == '*' && t[close + 1] == '/'
             && ProseAt(inner, t, i + 2)
    ensures PartAt(Nested(inner), t, i) && |ProsePart(Nested(inner))| == |ProseText(inner)| + 4
  {
  }

  lemma {:induction false} ReadsProse(t: string, i: nat, depth: nat) returns (pss: List<List<Prose>>)
    requires i <= |t| && depth > 0 && BlockEnd(t, i, depth) < |t|
    ensures Length(pss) == depth && ProseLevels(pss, t, i, BlockEnd(t, i, depth))
    decreases |t| - i
  {
    var end := BlockEnd(t, i, depth);
    if t[i] == '/' && t[i + 1] == '*' {
      pss := ReadsProse(t, i + 2, depth + 1);
      pss := OpensComment(t, i, pss.head, pss.tail, end);
    } else if t[i] == '*' && t[i + 1] == '/' {
      pss := Nil;
      if depth > 1 {
        pss := ReadsProse(t, i + 2, depth - 1);
      }
      pss := Cons(Nil, pss);
    } else {
      pss := ReadsProse(t, i + 1, depth);
      pss := AddsPart(t, i, Letter(t[i]), pss, end);
    }
  }

  lemma {:induction false} ReadsHashes(t: string, i: nat)
    requires i <= |t|
    ensures HashesAt(HashEnd(t, i) - i, t, i)
    decreases |t| - i
  {
    if i < |t| && t[i] == '#' {
      ReadsHashes(t, i + 1);
    }
  }

  lemma ReadsRaw(t: string, i: nat) returns (p: Piece)
    requires i < |t| && t[i] == 'r' && OpensRaw(t, i + 1) && RawEnd(t, i + 1) < |t|
    ensures p.Raw? && PieceAt(p, t, i) && i + |PieceText(p)| == RawEnd(t, i + 1)
  {
    var quote := HashEnd(t, i + 1);
    var hashes := quote - (i + 1);
    var at := FindFrom(t, Terminator(hashes), quote + 1).value;
    ReadsHashes(t, i + 1);
    TerminatorIsClosing(hashes);
    OccursAsSlice(t, t[quote + 1..at], quote + 1);
    p := Raw(hashes, t[quote + 1..at]);
  }

  lemma ReadsLine(t: string, i: nat) returns (p: Piece)
    requires i + 1 < |t| && t[i] == '/' && t[i + 1] == '/' && Lex(t, i).end < |t|
    ensures p.Line? && PieceAt(p, t, i) && i + |PieceText(p)| == Lex(t, i).end + 1
  {
    var newline := Lex(t, i).end;
    OccursAsSlice(t, t[i + 2..newline], i + 2);
    p := Line(t[i + 2..newline]);
  }

  lemma ReadsPiece(t: string, i: nat) returns (p: Piece)
    requires i < |t| && t[i] != '{' && t[i] != '}' && Advance(t, i) < |t|
    ensures !p.Group? && PieceAt(p, t, i) && i + |PieceText(p)| == Advance(t, i)
  {
    var l := Lex(t, i);
    if l.LineComment? {
      p := ReadsLine(t, i);
    } else if l.BlockComment? {
      var pss := ReadsProse(t, i + 2, 1);
      p := Block(pss.head);
    } else if t[i] == 'r' && l.Literal? {
      p := ReadsRaw(t, i);
    } else if l.Literal? {
      NamesLifetime(t, i + 1);
      var us := ReadsUnits(t, i + 1, t[i]);
      p := Quoted(t[i], us);
    } else {
      p := ReadsSingle(t, i);
    }
  }

  lemma ReadsSingle(t: string, i: nat) returns (p: Piece)
    requires i < |t| && t[i] != '{' && t[i] != '}' && Lex(t, i) == Single(i + 1)
    ensures !p.Group? && PieceAt(p, t, i) && |PieceText(p)| == 1
  {
    NamesLifetime(t, i + 1);
    RawOpensExactly(t, i + 1);
    p := if t[i] == '\'' then Lifetime else Code(t[i]);
  }

  predicate PieceLevels(pss: List<List<Piece>>, t: string, i: nat, end: nat) {
    match pss
    case Nil => i == end
    case Cons(ps, outer) =>
      var close := i + |Source(ps)|;
      PiecesAt(ps, t, i) && close < |t| && t[close] == '}' && PieceLevels(outer, t, close + 1, end)
  }

  lemma AddsPiece(t: string, i: nat, p: Piece, pss: List<List<Piece>>, end: nat) returns (more: List<List<Piece>>)
    requires i <= |t| && PieceAt(p, t, i) && PieceLevels(pss, t, i + |PieceText(p)|, end) && pss.Cons?
    ensures PieceLevels(more, t, i, end) && Length(more) == Length(pss)
  {
    more := Cons(Cons(p, pss.head), pss.tail);
    assert |Source(more.head)| == |PieceText(p)| + |Source(pss.head)|;
  }

  lemma OpensLevel(t: string, i: nat, inner: List<Piece>, outer: List<List<Piece>>, end: nat)
    returns (pss: List<List<Piece>>)
    requires i < |t| && t[i] == '{' && PieceLevels(Cons(inner, outer), t, i + 1, end) && outer.Cons?
    ensures PieceLevels(pss, t, i, end) && Length(pss) == Length(outer)
  {
    GroupStands(t, i, inner);
    pss := AddsPiece(t, i, Group(inner), outer, end);
  }

  lemma GroupStands(t: string, i: nat, inner: List<Piece>)
    requires var close := i + 1 + |Source(inner)|;
             close < |t| && t[i] == '{' && t[close] == '}' && PiecesAt(inner, t, i + 1)
    ensures PieceAt(Group(inner), t, i) && |PieceText(Group(inner))| == |Source(inner)| + 2
  {
  }

  lemma {:induction false} ReadsPieces(t: string, i: nat, depth: nat) returns (pss: List<List<Piece>>)
    requires i <= |t| && depth > 0 && GroupEnd(t, i, depth).Some?
    ensures Length(pss) == depth && PieceLevels(pss, t, i, GroupEnd(t, i, depth).value)
    decreases |t| - i
  {
    var end := GroupEnd(t, i, depth).value;
    if t[i] == '{' {
      pss := ReadsPieces(t, i + 1, depth + 1);
      pss := OpensLevel(t, i, pss.head, pss.tail, end);
    } else if t[i] == '}' {
      pss := Nil;
      if depth > 1 {
        pss := ReadsPieces(t, i + 1, depth - 1);
      }
      pss := Cons(Nil, pss);
    } else {
      var p := ReadsPiece(t, i);
      pss := ReadsPieces(t, Advance(t, i), depth);
      pss := AddsPiece(t, i, p, pss, end);
    }
  }

  /** NOTHING BUT ITEMS. Whatever `body_of` returns is a brace group of well-formed pieces that
      stands at the item's first brace; any other text ends in one of its panics. */
  lemma BodyIsAGroup(source: string, signature: string) returns (body: List<Piece>)
    requires Body(source, signature).Ok?
    ensures Body(source, signature) == Ok(PieceText(Group(body)))
    ensures PieceAt(Group(body), source, Opening(source, signature).value)
  {
    body := ReadsAGroup(source, Opening(source, signature).value);
  }

  lemma ReadsAGroup(t: string, open: nat) returns (body: List<Piece>)
    requires open < |t| && t[open] == '{' && GroupAt(t, open).Ok?
    ensures GroupAt(t, open) == Ok(PieceText(Group(body))) && PieceAt(Group(body), t, open)
  {
    body := ReadsABody(t, open);
    ReadsTheGroup(t, open, body);
  }

  lemma ReadsABody(t: string, open: nat) returns (body: List<Piece>)
    requires open < |t| && t[open] == '{' && GroupEnd(t, open, 0).Some?
    ensures PieceAt(Group(body), t, open)
  {
    EntersGroup(t, open);
    var pss := ReadsPieces(t, open + 1, 1);
    body := pss.head;
    GroupStands(t, open, body);
  }

  lemma EntersGroup(t: string, open: nat)
    requires open < |t| && t[open] == '{'
    ensures GroupEnd(t, open, 0) == GroupEnd(t, open + 1, 1)
  {
  }
}
