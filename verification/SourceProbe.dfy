/** The source scanner of `source_probe.rs`: the loops as the code runs them, each proved against a
    function of the text and the position.

    The scanner works on UTF-8 bytes and only ever compares them with ASCII; a byte of a multi-byte
    character is never ASCII, so the model indexes characters. */
module SourceProbe {
  import opened Wrappers
  import opened Text

  datatype ProbeError = NotDeclared | NoBody | NeverClosed

  // ------------------------------------------------------------------ what one lexeme spans

  function Min(a: nat, b: nat): nat { if a < b then a else b }

  /** Where a block comment ends that is `depth` openers deep at `i`; the end of the text when it
      never closes. */
  function BlockEnd(t: string, i: nat, depth: nat): (n: nat)
    requires i <= |t|
    ensures i <= n <= |t|
    decreases |t| - i
  {
    if depth == 0 then i
    else if i + 1 >= |t| then |t|
    else if t[i] == '/' && t[i + 1] == '*' then BlockEnd(t, i + 2, depth + 1)
    else if t[i] == '*' && t[i + 1] == '/' then BlockEnd(t, i + 2, depth - 1)
    else BlockEnd(t, i + 1, depth)
  }

  /** Where a quoted literal ends, closing quote included. */
  function QuotedEnd(t: string, i: nat, quote: char): (n: nat)
    ensures n <= |t| && (i <= |t| ==> i <= n)
    decreases |t| - i
  {
    if i >= |t| then |t|
    else if t[i] == '\\' then QuotedEnd(t, i + 2, quote)
    else if t[i] == quote then i + 1
    else QuotedEnd(t, i + 1, quote)
  }

  /** The first position at or after `i` that holds no `#`. */
  function HashEnd(t: string, i: nat): (n: nat)
    requires i <= |t|
    ensures i <= n <= |t|
    decreases |t| - i
  {
    if i < |t| && t[i] == '#' then HashEnd(t, i + 1) else i
  }

  function Terminator(hashes: nat): (t: string)
    ensures |t| == hashes + 1
  {
    if hashes == 0 then "\"" else Terminator(hashes - 1) + "#"
  }

  /** What follows an `r`, from `i` on, opens a raw string. */
  predicate OpensRaw(t: string, i: nat)
    requires i <= |t|
  {
    HashEnd(t, i) < |t| && t[HashEnd(t, i)] == '"'
  }

  function RawEnd(t: string, i: nat): (n: nat)
    requires i <= |t| && OpensRaw(t, i)
    ensures i < n <= |t|
  {
    var quote := HashEnd(t, i);
    var at := FindFrom(t, Terminator(quote - i), quote + 1);
    if at.None? then |t| else at.value + |Terminator(quote - i)|
  }

  predicate IsIdentStart(c: char) {
    'a' <= c <= 'z' || 'A' <= c <= 'Z' || c == '_'
  }

  /** What follows a `'`, from `i` on, names a lifetime rather than a character. */
  predicate OpensLifetime(t: string, i: nat) {
    i < |t| && IsIdentStart(t[i]) && !(i + 1 < |t| && t[i + 1] == '\'')
  }

  datatype Lexeme =
    | LineComment(end: nat)   // the newline is not part of it
    | BlockComment(end: nat)
    | Literal(end: nat)
    | Single(end: nat)

  function Lex(t: string, i: nat): (l: Lexeme)
    requires i < |t|
    ensures i < l.end <= |t|
    ensures t[i] == '{' || t[i] == '}' ==> l == Single(i + 1)
  {
    if t[i] == '/' && i + 1 < |t| && t[i + 1] == '/' then
      var at := FindChar(t, '\n', i + 1);
      LineComment(if at.None? then |t| else at.value)
    else if t[i] == '/' && i + 1 < |t| && t[i + 1] == '*' then BlockComment(BlockEnd(t, i + 2, 1))
    else if t[i] == 'r' && OpensRaw(t, i + 1) then Literal(RawEnd(t, i + 1))
    else if t[i] == '\'' && OpensLifetime(t, i + 1) then Single(i + 1)
    else if t[i] == '"' || t[i] == '\'' then Literal(QuotedEnd(t, i + 1, t[i]))
    else Single(i + 1)
  }

  // ------------------------------------------------------------------ the two scans, as functions

  /** `body_of` moves over a whole lexeme, and over the newline that ends a line comment. */
  function Advance(t: string, i: nat): (n: nat)
    requires i < |t|
    ensures i < n <= |t|
  {
    var l := Lex(t, i);
    if l.LineComment? then Min(l.end + 1, |t|) else l.end
  }

  function NextDepth(c: char, depth: nat): (d: nat)
    requires depth > 0 || c != '}'
  {
    if c == '{' then depth + 1 else if c == '}' then depth - 1 else depth
  }

  /** Just behind the brace that brings `depth` back to zero; braces count only where the scan sets
      foot. */
  function GroupEnd(t: string, i: nat, depth: nat): (r: Option<nat>)
    requires i <= |t| && (depth > 0 || (i < |t| && t[i] == '{'))
    ensures r.Some? ==> i < r.value <= |t|
    decreases |t| - i
  {
    if i == |t| then None
    else if t[i] == '}' && depth == 1 then Some(i + 1)
    else GroupEnd(t, Advance(t, i), NextDepth(t[i], depth))
  }

  /** The characters of `t` from `i` up to `j`. */
  function Between(t: string, i: nat, j: nat): (s: string)
    requires j <= |t|
    decreases j - i
  {
    if i >= j then [] else [t[i]] + Between(t, i + 1, j)
  }

  lemma {:induction false} BetweenIsSlice(t: string, i: nat, j: nat)
    requires i <= j <= |t|
    ensures Between(t, i, j) == t[i..j]
    decreases j - i
  {
    if i < j {
      BetweenIsSlice(t, i + 1, j);
    }
  }

  /** What `code_of` copies of the lexeme at `i`: nothing of a comment, all of anything else. */
  function Kept(t: string, i: nat): (k: string)
    requires i < |t|
  {
    var l := Lex(t, i);
    if l.LineComment? || l.BlockComment? then [] else Between(t, i, l.end)
  }

  /** The text from `i` on with its comments removed. */
  function StripFrom(t: string, i: nat): (code: string)
    requires i <= |t|
    decreases |t| - i
  {
    if i == |t| then [] else Kept(t, i) + StripFrom(t, Lex(t, i).end)
  }

  function Strip(t: string): (code: string) {
    StripFrom(t, 0)
  }

  /** Where the line begins that `i` stands on. */
  function LineStart(t: string, i: nat): (n: nat)
    requires i <= |t|
    ensures n <= i
  {
    if i == 0 || t[i - 1] == '\n' then i else LineStart(t, i - 1)
  }

  predicate StartsLine(t: string, i: nat)
    requires i <= |t|
  {
    Trim(t[LineStart(t, i)..i]) == []
  }

  /** The first of the non-overlapping matches at or after `from` that starts a line. */
  function DeclaredFrom(source: string, signature: string, from: nat): (r: Option<nat>)
    ensures r.Some? ==> from <= r.value && OccursAt(source, signature, r.value) && StartsLine(source, r.value)
    decreases |source| + 1 - from
  {
    if from > |source| then None
    else
      var at := FindFrom(source, signature, from);
      if at.None? then None
      else if StartsLine(source, at.value) then at
      else DeclaredFrom(source, signature, Behind(at.value, signature))
  }

  /** Where the next of the non-overlapping matches may begin. */
  function Behind(at: nat, signature: string): (next: nat)
    ensures next > at
  {
    at + if signature == [] then 1 else |signature|
  }

  /** The brace that opens the declared item's body. */
  function Opening(source: string, signature: string): (r: Result<nat, ProbeError>)
    ensures r.Ok? ==> r.value < |source| && source[r.value] == '{'
  {
    var start := DeclaredFrom(source, signature, 0);
    if start.None? then Err(NotDeclared)
    else
      var open := FindChar(source, '{', start.value);
      if open.None? then Err(NoBody) else Ok(open.value)
  }

  /** The group that opens at `open`. */
  function GroupAt(t: string, open: nat): (r: Result<string, ProbeError>)
    requires open < |t| && t[open] == '{'
  {
    var end := GroupEnd(t, open, 0);
    if end.None? then Err(NeverClosed) else Ok(t[open..end.value])
  }

  /** What `body_of` answers; an error is one of its three panics. */
  function Body(source: string, signature: string): (r: Result<string, ProbeError>) {
    match Opening(source, signature)
    case Err(e) => Err(e)
    case Ok(open) => GroupAt(source, open)
  }

  // ------------------------------------------------------------------ the loops

  method SkipBlock(t: string, from: nat) returns (index: nat)
    requires from <= |t|
    ensures index == BlockEnd(t, from, 1)
  {
    var depth, scan := 1, from;
    while scan + 1 < |t| && depth > 0
      invariant scan <= |t| && depth >= 0
      invariant BlockEnd(t, from, 1) == BlockEnd(t, scan, depth)
    {
      if t[scan] == '/' && t[scan + 1] == '*' {
        depth, scan := depth + 1, scan + 2;
      } else if t[scan] == '*' && t[scan + 1] == '/' {
        depth, scan := depth - 1, scan + 2;
      } else {
        scan := scan + 1;
      }
    }
    index := if depth == 0 then scan else |t|;
  }

  method SkipQuoted(t: string, from: nat, quote: char) returns (end: nat)
    ensures end == QuotedEnd(t, from, quote)
  {
    var scan := from;
    while scan < |t|
      invariant QuotedEnd(t, from, quote) == QuotedEnd(t, scan, quote)
    {
      if t[scan] == '\\' {
        scan := scan + 2;
      } else if t[scan] == quote {
        return scan + 1;
      } else {
        scan := scan + 1;
      }
    }
    end := |t|;
  }

  /** One step of the scan: which lexeme starts at `index`, and where it ends. */
  method ReadLexeme(t: string, index: nat) returns (l: Lexeme)
    requires index < |t|
    ensures l == Lex(t, index)
  {
    var c := t[index];
    l := Single(index + 1);
    if c == '/' && index + 1 < |t| && t[index + 1] == '/' {
      var newline := FindChar(t, '\n', index + 1);
      l := LineComment(if newline.None? then |t| else newline.value);
    } else if c == '/' && index + 1 < |t| && t[index + 1] == '*' {
      var end := SkipBlock(t, index + 2);
      l := BlockComment(end);
    } else if c == 'r' {
      var hashes := HashEnd(t, index + 1) - (index + 1);
      if index + 1 + hashes < |t| && t[index + 1 + hashes] == '"' {
        var terminator := Terminator(hashes);
        var at := FindFrom(t, terminator, index + 2 + hashes);
        l := Literal(if at.None? then |t| else at.value + |terminator|);
      }
    } else if c == '\'' && OpensLifetime(t, index + 1) {
    } else if c == '"' || c == '\'' {
      var end := SkipQuoted(t, index + 1, c);
      l := Literal(end);
    }
  }

  method DeclarationStart(source: string, signature: string) returns (r: Option<nat>)
    ensures r == DeclaredFrom(source, signature, 0)
  {
    var from := 0;
    while from <= |source|
      invariant DeclaredFrom(source, signature, 0) == DeclaredFrom(source, signature, from)
      decreases |source| + 1 - from
    {
      var at := FindFrom(source, signature, from);
      if at.None? || StartsLine(source, at.value) {
        return at;
      }
      from := Behind(at.value, signature);
    }
    r := None;
  }

  /** The brace count. `depth` is a `nat`: it is one or more whenever a brace closes. */
  method ScanGroup(t: string, open: nat) returns (r: Option<nat>)
    requires open < |t| && t[open] == '{'
    ensures r == GroupEnd(t, open, 0)
  {
    var depth: nat, index := 0, open;
    while index < |t|
      invariant index <= |t| && (depth > 0 || index == open)
      invariant GroupEnd(t, open, 0) == GroupEnd(t, index, depth)
    {
      var l := ReadLexeme(t, index);
      if t[index] == '}' && depth == 1 {
        return Some(index + 1);
      }
      depth := NextDepth(t[index], depth);
      index := if l.LineComment? then Min(l.end + 1, |t|) else l.end;
    }
    r := None;
  }

  /** `body_of`. */
  method BodyOf(source: string, signature: string) returns (r: Result<string, ProbeError>)
    ensures r == Body(source, signature)
  {
    var start := DeclarationStart(source, signature);
    if start.None? {
      return Err(NotDeclared);
    }
    var open := FindChar(source, '{', start.value);
    if open.None? {
      return Err(NoBody);
    }
    var end := ScanGroup(source, open.value);
    r := if end.None? then Err(NeverClosed) else Ok(source[open.value..end.value]);
  }

  method StripComments(body: string) returns (code: string)
    ensures code == Strip(body)
  {
    var index := 0;
    code := [];
    while index < |body|
      invariant index <= |body| && Strip(body) == code + StripFrom(body, index)
    {
      var l := ReadLexeme(body, index);
      StripsOne(body, index, code);
      if !(l.LineComment? || l.BlockComment?) {
        BetweenIsSlice(body, index, l.end);
        code := code + body[index..l.end];
      }
      index := l.end;
    }
  }

  lemma StripsOne(t: string, i: nat, code: string)
    requires i < |t|
    ensures code + StripFrom(t, i) == (code + Kept(t, i)) + StripFrom(t, Lex(t, i).end)
    ensures Kept(t, i) == [] ==> code + Kept(t, i) == code
  {
    var rest := StripFrom(t, Lex(t, i).end);
    JoinsText(code + (Kept(t, i) + rest), Kept(t, i) + rest, rest, code, Kept(t, i));
  }

  /** `code_of`: the body with its comments removed and every literal kept. */
  method CodeOf(source: string, signature: string) returns (r: Result<string, ProbeError>)
    ensures r == match Body(source, signature) case Ok(b) => Ok(Strip(b)) case Err(e) => Err(e)
  {
    var found := BodyOf(source, signature);
    if found.Err? {
      return found;
    }
    var code := StripComments(found.value);
    r := Ok(code);
  }
}
