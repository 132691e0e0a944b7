/** Whether the text `body_of` returns is the item's body. The scan skips comments and literals only from
    the first brace behind the declaration on; what stands before that brace is searched as plain text. */
module SourceItem {
  import opened Wrappers
  import opened Text
  import opened Lists
  import opened SourceProbe
  import opened SourceGrammar
  import opened SourceReading
  import opened SourceAnswer
  import opened SourceDeclaration

  /** An item: a head of whole pieces that starts at `start`, and a body group right behind it. */
  predicate ItemAt(source: string, start: nat, head: List<Piece>, body: List<Piece>) {
    PiecesAt(head, source, start) && PieceAt(Group(body), source, start + |Source(head)|)
  }

  predicate NoBrace(source: string, from: nat, to: nat) {
    forall k :: from <= k < to && k < |source| ==> source[k] != '{'
  }

  lemma TextHoldsNoBrace(source: string, start: nat, w: string)
    requires OccursAt(source, w, start)
    ensures NoBrace(source, start, start + |w|) <==> '{' !in w
  {
    if NoBrace(source, start, start + |w|) {
      forall i | 0 <= i < |w|
        ensures w[i] != '{'
      {
        assert source[start + i] == w[i];
      }
    }
    if '{' !in w {
      forall k | start <= k < start + |w|
        ensures source[k] != '{'
      {
        assert source[start + (k - start)] == w[k - start];
      }
    }
  }

  lemma OpensAt(source: string, from: nat, open: nat)
    requires from <= open < |source| && source[open] == '{'
    ensures FindChar(source, '{', from) == Some(open) <==> NoBrace(source, from, open)
    ensures FindChar(source, '{', from).Some? && FindChar(source, '{', from).value <= open
  {
  }

  /** The group at the end of the text `w` is the one opened if and only if `w` holds no brace. */
  predicate OpensBehind(source: string, signature: string, start: nat, w: string, body: List<Piece>) {
    && (Opening(source, signature) == Ok(start + |w|) <==> '{' !in w)
    && Opening(source, signature).Ok? && Opening(source, signature).value <= start + |w|
    && ('{' !in w ==> ReadsItem(source, signature, body))
  }

  lemma OpensBehindText(source: string, signature: string, start: nat, w: string, body: List<Piece>)
    requires DeclaredFrom(source, signature, 0) == Some(start)
    requires OccursAt(source, w, start) && PieceAt(Group(body), source, start + |w|)
    ensures OpensBehind(source, signature, start, w, body)
  {
    TextHoldsNoBrace(source, start, w);
    OpensAt(source, start, start + |w|);
    if '{' !in w {
      OpenedItemIsRead(source, signature, start + |w|, body);
    }
  }

  /** THE HEAD DECIDES: the group that is read opens at the declared item's body if and only if the item's
      head holds no brace, in a comment or a literal, and is then the answer; otherwise it opens earlier. */
  lemma OpensAtBodyExactly(source: string, signature: string, start: nat, head: List<Piece>, body: List<Piece>)
    requires DeclaredFrom(source, signature, 0) == Some(start) && ItemAt(source, start, head, body)
    ensures OpensBehind(source, signature, start, Source(head), body)
  {
    var w := HeadText(source, start, head, body);
    OpensBehindText(source, signature, start, w, body);
  }

  lemma HeadText(source: string, start: nat, head: List<Piece>, body: List<Piece>) returns (w: string)
    requires ItemAt(source, start, head, body)
    ensures w == Source(head) && OccursAt(source, w, start) && PieceAt(Group(body), source, start + |w|)
  {
    w := Source(head);
    PiecesOccur(head, source, start);
  }

  /** `body_of` returns exactly the group, and `code_of` exactly the group without its comments. */
  predicate ReadsItem(source: string, signature: string, body: List<Piece>) {
    && Body(source, signature) == Ok(PieceText(Group(body)))
    && Strip(PieceText(Group(body))) == BareText(Group(body))
  }

  lemma OpenedItemIsRead(source: string, signature: string, open: nat, body: List<Piece>)
    requires Opening(source, signature) == Ok(open) && PieceAt(Group(body), source, open)
    ensures ReadsItem(source, signature, body)
  {
    BodyIsTheGroup(source, signature, body);
  }

  /** No brace stands before `open`, behind any occurrence of the signature, up to `start`, that starts a
      line. */
  predicate NoneMisleads(source: string, signature: string, start: nat, open: nat) {
    forall j: nat :: j <= start && Declares(source, signature, j) ==> NoBrace(source, j, open)
  }

  lemma OpensExactly(source: string, signature: string, start: nat, open: nat)
    requires NeverRestarts(signature) && Declares(source, signature, start)
    requires start <= open < |source| && source[open] == '{'
    ensures Opening(source, signature) == Ok(open) <==> NoneMisleads(source, signature, start, open)
  {
    FirstDeclaration(source, signature, 0);
    var first := DeclaredFrom(source, signature, 0).value;
    OpensAt(source, first, open);
    assert Declares(source, signature, first);
  }

  /** THE SCANNER READS ITEMS, EXACTLY WHEN NOTHING MISLEADS IT. For an item at any declaration of a
      signature that never restarts, the group that is read opens at its body if and only if no brace
      stands between it and any occurrence of the signature, up to the declaration, that starts a line;
      and then `body_of` and `code_of` answer with that body. */
  lemma ItemReadExactly(source: string, signature: string, start: nat, head: List<Piece>, body: List<Piece>)
    requires NeverRestarts(signature) && Declares(source, signature, start) && ItemAt(source, start, head, body)
    ensures var open := start + |Source(head)|;
            Opening(source, signature) == Ok(open) <==> NoneMisleads(source, signature, start, open)
    ensures NoneMisleads(source, signature, start, start + |Source(head)|) ==> ReadsItem(source, signature, body)
  {
    var w := HeadText(source, start, head, body);
    GroupReadExactly(source, signature, start, start + |w|, body);
  }

  lemma GroupReadExactly(source: string, signature: string, start: nat, open: nat, body: List<Piece>)
    requires NeverRestarts(signature) && Declares(source, signature, start)
    requires start <= open && PieceAt(Group(body), source, open)
    ensures Opening(source, signature) == Ok(open) <==> NoneMisleads(source, signature, start, open)
    ensures NoneMisleads(source, signature, start, open) ==> ReadsItem(source, signature, body)
  {
    OpensExactly(source, signature, start, open);
    if NoneMisleads(source, signature, start, open) {
      OpenedItemIsRead(source, signature, open, body);
    }
  }

  /** EACH PANIC, EXACTLY: nothing is declared; something is, and no brace stands behind it; or one does, and
      no group of whole pieces stands there. */
  lemma FailsExactly(source: string, signature: string)
    ensures var start := DeclaredFrom(source, signature, 0);
            && (Body(source, signature) == Err(NotDeclared) <==> start.None?)
            && (Body(source, signature) == Err(NoBody) <==>
                  start.Some? && NoBrace(source, start.value, |source|))
            && (Body(source, signature) == Err(NeverClosed) <==>
                  && start.Some? && !NoBrace(source, start.value, |source|)
                  && forall body :: !PieceAt(Group(body), source, FindChar(source, '{', start.value).value))
  {
    var start := DeclaredFrom(source, signature, 0);
    if start.Some? && FindChar(source, '{', start.value).Some? {
      var open := FindChar(source, '{', start.value).value;
      if Body(source, signature).Ok? {
        var body := BodyIsAGroup(source, signature);
      }
      if body :| PieceAt(Group(body), source, open) {
        BodyIsTheGroup(source, signature, body);
      }
    }
  }

  // ------------------------------------------------------------------ items that are misread

  /** COUNTEREXAMPLE: a brace in a comment of the head opens the scan, which then never closes. */
  lemma BraceInHeadMisleads()
    ensures var t, head := "f/*{*/{}", Cons(Code('f'), Cons(Block(Cons(Letter('{'), Nil)), Nil));
            && DeclaredFrom(t, "f", 0) == Some(0) && ItemAt(t, 0, head, Nil)
            && Body(t, "f") == Err(NeverClosed)
  {
    var t := "f/*{*/{}";
    var note := Cons(Letter('{'), Nil);
    var head := Cons(Code('f'), Cons(Block(note), Nil));
    HeadStands();
    FirstAt(t, "f", 0);
    assert FindChar(t, '{', 3) == Some(3);
    assert FindChar(t, '{', 0) == Some(3) by {
      assert FindChar(t, '{', 2) == Some(3) && FindChar(t, '{', 1) == Some(3);
    }
    assert GroupEnd(t, 8, 1) == None && GroupEnd(t, 7, 2) == None && GroupEnd(t, 6, 1) == None;
    assert GroupEnd(t, 5, 1) == None && GroupEnd(t, 4, 1) == None && GroupEnd(t, 3, 0) == None;
  }

  lemma HeadStands()
    ensures var head := Cons(Code('f'), Cons(Block(Cons(Letter('{'), Nil)), Nil)); ItemAt("f/*{*/{}", 0, head, Nil)
  {
    var t := "f/*{*/{}";
    var note := Cons(Letter('{'), Nil);
    var tail := Cons(Block(note), Nil);
    assert ProsePart(Letter('{')) == "{" && ProseText(note.tail) == [] && ProseText(note) == "{";
    assert ProseAt(note.tail, t, 4) && ProseAt(note, t, 3) && BlockAt(note, t, 1);
    assert PieceText(Block(note)) == "/*{*/";
    assert Source(tail.tail) == [] && Source(tail) == "/*{*/";
    assert PiecesAt(tail.tail, t, 6) && PiecesAt(tail, t, 1);
    assert PieceText(Code('f')) == "f" && PieceAt(Code('f'), t, 0);
    assert Source(Cons(Code('f'), tail)) == "f/*{*/";
    assert PiecesAt(Cons(Code('f'), tail), t, 0);
    assert Source(Nil) == [] && PieceAt(Group(Nil), t, 6);
  }

  lemma FirstAt(t: string, w: string, at: nat)
    requires OccursAt(t, w, at) && StartsLine(t, at) && at <= |t| && forall j: nat :: j < at ==> !OccursAt(t, w, j)
    ensures DeclaredFrom(t, w, 0) == Some(at)
  {
    FindIs(t, w, 0, at);
  }

  /** COUNTEREXAMPLE: an occurrence inside a comment is taken for the declaration. */
  lemma CommentIsTakenForTheItem()
    ensures var t, head := "/*\nf{\n*/\nf{}", Cons(Code('f'), Nil);
            && NeverRestarts("f{") && Declares(t, "f{", 9) && ItemAt(t, 9, head, Nil)
            && DeclaredFrom(t, "f{", 0) == Some(3) && Body(t, "f{") == Err(NeverClosed)
  {
    var t, w := "/*\nf{\n*/\nf{}", "f{";
    OneLineNeverRestarts(w);
    assert LineStart(t, 9) == 9 && LineStart(t, 3) == 3;
    StartsLineMeans(t, 9);
    StartsLineMeans(t, 3);
    assert OccursAt(t, w, 9) && OccursAt(t, w, 3);
    CommentedItemStands();
    NotAt(t, w, 0);
    NotAt(t, w, 1);
    NotAt(t, w, 2);
    FirstAt(t, w, 3);
    assert FindChar(t, '{', 4) == Some(4) && FindChar(t, '{', 3) == Some(4);
    CommentNeverCloses();
  }

  lemma CommentedItemStands()
    ensures ItemAt("/*\nf{\n*/\nf{}", 9, Cons(Code('f'), Nil), Nil)
  {
    var t := "/*\nf{\n*/\nf{}";
    assert Source(Nil) == [] && PieceText(Code('f')) == "f" && Source(Cons(Code('f'), Nil)) == "f";
    assert PiecesAt(Nil, t, 10) && PiecesAt(Cons(Code('f'), Nil), t, 9);
    assert PiecesAt(Nil, t, 11) && PieceAt(Group(Nil), t, 10);
  }

  lemma CommentNeverCloses()
    ensures GroupEnd("/*\nf{\n*/\nf{}", 4, 0) == None
  {
    var t := "/*\nf{\n*/\nf{}";
    assert GroupEnd(t, 12, 1) == None && GroupEnd(t, 11, 2) == None && GroupEnd(t, 10, 1) == None;
    assert GroupEnd(t, 9, 1) == None && GroupEnd(t, 8, 1) == None && GroupEnd(t, 7, 1) == None;
    assert GroupEnd(t, 6, 1) == None && GroupEnd(t, 5, 1) == None;
  }
}
