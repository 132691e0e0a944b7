/** The token grammar the scanner is meant for, spelled out apart from it. Source text is a sequence of
    pieces, and a brace group is a piece that holds pieces; `...At` says which pieces stand at a position
    of a text. */
module SourceGrammar {
  import opened Wrappers
  import opened Text
  import opened Lists

  /** The inside of a block comment, which nests. */
  datatype Prose = Letter(c: char) | Nested(inner: List<Prose>)

  /** The inside of a quoted literal. */
  datatype Unit = Bare(c: char) | Escaped(c: char)

  datatype Piece =
    | Code(c: char)
    | Lifetime                                  // the tick only; the name after it is code
    | Line(text: string)                        // `//`, up to and including the newline
    | Block(inner: List<Prose>)
    | Quoted(quote: char, units: List<Unit>)     // string and char literals
    | Raw(hashes: nat, content: string)
    | Group(body: List<Piece>)

  // ------------------------------------------------------------------ what pieces look like

  function ProseText(ps: List<Prose>): (s: string)
    decreases ps
  {
    if ps.Nil? then [] else ProsePart(ps.head) + ProseText(ps.tail)
  }

  function ProsePart(p: Prose): (s: string)
    decreases p, 0
  {
    match p case Letter(c) => [c] case Nested(inner) => "/*" + ProseText(inner) + "*/"
  }

  function UnitText(u: Unit): (s: string) {
    match u case Bare(c) => [c] case Escaped(c) => ['\\', c]
  }

  function UnitsText(us: List<Unit>): (s: string) {
    if us.Nil? then [] else UnitText(us.head) + UnitsText(us.tail)
  }

  function Hashes(n: nat): (s: string)
    ensures |s| == n
  {
    if n == 0 then [] else "#" + Hashes(n - 1)
  }

  /** What closes a raw string. */
  function Closing(hashes: nat): (s: string)
    ensures |s| == hashes + 1
  {
    "\"" + Hashes(hashes)
  }

  function PieceText(p: Piece): (s: string)
    ensures s != []
    decreases p, 0
  {
    match p
    case Code(c) => [c]
    case Lifetime => "'"
    case Line(text) => "//" + text + "\n"
    case Block(inner) => "/*" + ProseText(inner) + "*/"
    case Quoted(quote, units) => [quote] + UnitsText(units) + [quote]
    case Raw(hashes, content) => "r" + Hashes(hashes) + "\"" + content + Closing(hashes)
    case Group(body) => "{" + Source(body) + "}"
  }

  function Source(ps: List<Piece>): (s: string)
    decreases ps
  {
    if ps.Nil? then [] else PieceText(ps.head) + Source(ps.tail)
  }

  /** The same pieces with their comments gone; a line comment leaves its newline. */
  function BareText(p: Piece): (s: string)
    decreases p, 0
  {
    match p
    case Line(_) => "\n"
    case Block(_) => []
    case Group(body) => "{" + Uncommented(body) + "}"
    case _ => PieceText(p)
  }

  function Uncommented(ps: List<Piece>): (s: string)
    decreases ps
  {
    if ps.Nil? then [] else BareText(ps.head) + Uncommented(ps.tail)
  }

  // ------------------------------------------------------------------ where pieces stand

  /** No comment delimiter is spelled by letters. */
  predicate ProseAt(ps: List<Prose>, t: string, i: nat)
    decreases ps, 0
  {
    i <= |t| && (ps.Nil? || (PartAt(ps.head, t, i) && ProseAt(ps.tail, t, i + |ProsePart(ps.head)|)))
  }

  predicate PartAt(p: Prose, t: string, i: nat)
    decreases p, 0
  {
    match p
    case Letter(c) =>
      && i < |t| && t[i] == c
      && !(i + 1 < |t| && ((c == '/' && t[i + 1] == '*') || (c == '*' && t[i + 1] == '/')))
    case Nested(inner) => BlockAt(inner, t, i)
  }

  predicate BlockAt(inner: List<Prose>, t: string, i: nat)
    decreases inner, 1
  {
    var close := i + 2 + |ProseText(inner)|;
    && close + 2 <= |t| && t[i] == '/' && t[i + 1] == '*' && t[close] == '*' && t[close + 1] == '/'
    && ProseAt(inner, t, i + 2)
  }

  predicate UnitAt(u: Unit, t: string, i: nat, quote: char) {
    match u
    case Bare(c) => i < |t| && t[i] == c && c != quote && c != '\\'
    case Escaped(c) => i + 1 < |t| && t[i] == '\\' && t[i + 1] == c
  }

  predicate UnitsAt(us: List<Unit>, t: string, i: nat, quote: char) {
    us.Nil? || (UnitAt(us.head, t, i, quote) && UnitsAt(us.tail, t, i + |UnitText(us.head)|, quote))
  }

  /** A letter or `_`, with no tick behind it: behind a tick, a lifetime rather than a character. */
  predicate NameAt(t: string, i: nat) {
    i < |t| && StartsName(t[i]) && !(i + 1 < |t| && t[i + 1] == '\'')
  }

  /** The characters of `Alphabets.NAME_START`. */
  predicate StartsName(c: char) {
    'A' <= c <= 'Z' || c == '_' || 'a' <= c <= 'z'
  }

  /** A `"`, behind any number of `#`s: behind an `r`, a raw string. */
  predicate RawOpens(t: string, i: nat)
    decreases |t| - i
  {
    i < |t| && (t[i] == '"' || (t[i] == '#' && RawOpens(t, i + 1)))
  }

  predicate QuotedAt(quote: char, units: List<Unit>, t: string, i: nat) {
    var close := i + 1 + |UnitsText(units)|;
    && close < |t| && t[i] == quote && t[close] == quote
    && (quote == '"' || (quote == '\'' && !NameAt(t, i + 1)))
    && UnitsAt(units, t, i + 1, quote)
  }

  predicate HashesAt(n: nat, t: string, i: nat) {
    n == 0 || (i < |t| && t[i] == '#' && HashesAt(n - 1, t, i + 1))
  }

  /** A raw string runs to the first closing delimiter behind its opening one. */
  predicate RawAt(hashes: nat, content: string, t: string, i: nat) {
    var quote := i + 1 + hashes;
    && quote < |t| && t[i] == 'r' && HashesAt(hashes, t, i + 1) && t[quote] == '"'
    && OccursAt(t, content, quote + 1)
    && FindFrom(t, Closing(hashes), quote + 1) == Some(quote + 1 + |content|)
  }

  predicate PieceAt(p: Piece, t: string, i: nat)
    decreases p, 0
  {
    match p
    case Code(c) =>
      && i < |t| && t[i] == c && c !in {'"', '\'', '{', '}'}
      && !(c == '/' && i + 1 < |t| && (t[i + 1] == '/' || t[i + 1] == '*'))
      && !(c == 'r' && RawOpens(t, i + 1))
    case Lifetime => i < |t| && t[i] == '\'' && NameAt(t, i + 1)
    case Line(text) =>
      var newline := i + 2 + |text|;
      newline < |t| && t[i] == '/' && t[i + 1] == '/' && OccursAt(t, text, i + 2) && '\n' !in text && t[newline] == '\n'
    case Block(inner) => BlockAt(inner, t, i)
    case Quoted(quote, units) => QuotedAt(quote, units, t, i)
    case Raw(hashes, content) => RawAt(hashes, content, t, i)
    case Group(body) =>
      var close := i + 1 + |Source(body)|;
      close < |t| && t[i] == '{' && t[close] == '}' && PiecesAt(body, t, i + 1)
  }

  predicate PiecesAt(ps: List<Piece>, t: string, i: nat)
    decreases ps
  {
    i <= |t| && (ps.Nil? || (PieceAt(ps.head, t, i) && PiecesAt(ps.tail, t, i + |PieceText(ps.head)|)))
  }
}
