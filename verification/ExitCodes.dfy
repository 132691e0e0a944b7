/** The recursive code collectors of `onchain_diagnostics.rs`, and what they find: every readable
    code at any depth, in the order a reader meets it. */
module ExitCodes {
  import opened Wrappers
  import opened Text
  import opened Numerals
  import opened Lists
  import opened Json

  datatype ExitCode = ExitCode(code: int, stage: string)

  /** The two collectors differ only in the keys they answer to. */
  datatype Family = Compute | Action

  predicate IsCodeKey(f: Family, key: string) {
    match f
    case Compute => key in ["exit_code", "exitCode", "vm_exit_code", "vmExitCode"]
    case Action => key in ["result_code", "resultCode", "action_result_code", "actionResultCode"]
  }

  /** Which keys carry a code, and of which family; no key is of both. */
  lemma CodeKeysExactly(key: string)
    ensures IsCodeKey(Compute, key) <==>
            key == "exit_code" || key == "exitCode" || key == "vm_exit_code" || key == "vmExitCode"
    ensures IsCodeKey(Action, key) <==>
            key == "result_code" || key == "resultCode" || key == "action_result_code" || key == "actionResultCode"
    ensures !(IsCodeKey(Compute, key) && IsCodeKey(Action, key))
  {
  }

  /** `value_i64`: a number, or a text that spells one in decimal or after `0x`. */
  function ReadCode(v: Json): (r: Option<int>)
    ensures r.Some? ==> I64_MIN <= r.value <= I64_MAX
  {
    if AsI64(v).Some? then AsI64(v)
    else if v.Str? then
      var s := Trim(v.s);
      var hex := HexBody(s);
      if hex.Some? then ParseI64(hex.value, 16) else ParseI64(s, 10)
    else None
  }

  /** An optional sign and digits that denote `n`. */
  predicate SignedNumeral(s: string, radix: nat, n: int) {
    var signed := s != [] && (s[0] == '+' || s[0] == '-');
    var d := if signed then s[1..] else s;
    && d != [] && AllDigits(d, radix)
    && n == if s[0] == '-' then -(Value(d, radix) as int) else Value(d, radix)
  }

  /** Decimal, or hexadecimal behind `0x`; a sign may follow the prefix. */
  predicate SpellsCode(s: string, n: int) {
    if HexBody(s).Some? then SignedNumeral(HexBody(s).value, 16, n) else SignedNumeral(s, 10, n)
  }

  /** The values that carry the code `n`: the number, or a text that spells it with blanks around. */
  ghost predicate RendersCode(v: Json, n: int) {
    && I64_MIN <= n <= I64_MAX
    && (v == Int(n) || (v.Str? && exists body :: Around(v.s, body) && SpellsCode(body, n)))
  }

  lemma SignedNumeralEnds(s: string, radix: nat, n: int)
    requires SignedNumeral(s, radix, n)
    ensures s != [] && !IsSpace(s[0]) && !IsSpace(s[|s| - 1])
  {
    var signed := s[0] == '+' || s[0] == '-';
    var d := if signed then s[1..] else s;
    assert IsDigitIn(d[0], radix) && IsDigitIn(d[|d| - 1], radix) && d[|d| - 1] == s[|s| - 1];
  }

  lemma SpellsCodeTrimmed(s: string, n: int)
    requires SpellsCode(s, n)
    ensures Trimmed(s)
  {
    if HexBody(s).Some? {
      SignedNumeralEnds(s[2..], 16, n);
    } else {
      SignedNumeralEnds(s, 10, n);
    }
  }

  /** EXACT: a value is read as the code `n` if and only if it is one of the renderings of `n`. */
  lemma ReadCodeExactly(v: Json, n: int)
    ensures ReadCode(v) == Some(n) <==> RendersCode(v, n)
  {
    if v.Str? {
      if ReadCode(v) == Some(n) {
        TrimIsAround(v.s);
        assert SpellsCode(Trim(v.s), n);
      }
      if RendersCode(v, n) {
        var body :| Around(v.s, body) && SpellsCode(body, n);
        SpellsCodeTrimmed(body, n);
        AroundExactly(v.s, body);
      }
    }
  }

  function Stage(path: string, key: string): (s: string) {
    if path == [] then key else path + "." + key
  }

  function ItemStage(path: string, i: nat): (s: string) {
    path + "[" + Dec(i) + "]"
  }

  /** The code a field itself carries, at the stage of the object it is in. */
  function OwnCode(f: Family, field: Field, path: string): (r: Option<ExitCode>) {
    if IsCodeKey(f, field.key) && ReadCode(field.value).Some?
    then Some(ExitCode(ReadCode(field.value).value, path)) else None
  }

  function OwnCodes(f: Family, field: Field, path: string): (r: seq<ExitCode>) {
    if OwnCode(f, field, path).Some? then [OwnCode(f, field, path).value] else []
  }

  /** Every code in `v`, each field's own before those inside it. */
  function Codes(f: Family, v: Json, path: string): (r: seq<ExitCode>)
    decreases v
  {
    match v
    case Obj(fields) => FieldCodes(f, fields, path)
    case Arr(items) => ItemCodes(f, items, path, 0)
    case _ => []
  }

  function FieldCodes(f: Family, fields: List<Field>, path: string): (r: seq<ExitCode>)
    decreases fields
  {
    if fields.Nil? then []
    else
      OwnCodes(f, fields.head, path)
      + Codes(f, fields.head.value, Stage(path, fields.head.key))
      + FieldCodes(f, fields.tail, path)
  }

  function ItemCodes(f: Family, items: List<Json>, path: string, i: nat): (r: seq<ExitCode>)
    decreases items
  {
    if items.Nil? then []
    else Codes(f, items.head, ItemStage(path, i)) + ItemCodes(f, items.tail, path, i + 1)
  }

  /** The collectors themselves: they push into the vector they are handed. */
  method Collect(f: Family, v: Json, path: string, out: seq<ExitCode>) returns (out': seq<ExitCode>)
    ensures out' == out + Codes(f, v, path)
    decreases v
  {
    match v
    case Obj(fields) => out' := CollectFields(f, fields, path, out);
    case Arr(items) => out' := CollectItems(f, items, path, out);
    case _ => out' := out;
  }

  method CollectFields(f: Family, fields: List<Field>, path: string, out: seq<ExitCode>) returns (out': seq<ExitCode>)
    ensures out' == out + FieldCodes(f, fields, path)
    decreases fields
  {
    ghost var all := out + FieldCodes(f, fields, path);
    var rest := fields;
    out' := out;
    while rest.Cons?
      invariant (rest == fields || rest < fields) && all == out' + FieldCodes(f, rest, path)
      decreases rest
    {
      out' := CollectField(f, rest.head, path, out', FieldCodes(f, rest.tail, path));
      rest := rest.tail;
    }
  }

  method CollectField(f: Family, field: Field, path: string, out: seq<ExitCode>, ghost behind: seq<ExitCode>)
    returns (out': seq<ExitCode>)
    ensures out' + behind
         == out + (OwnCodes(f, field, path) + Codes(f, field.value, Stage(path, field.key)) + behind)
    decreases field
  {
    out' := out;
    if IsCodeKey(f, field.key) {
      var code := ReadCode(field.value);
      if code.Some? {
        out' := out' + [ExitCode(code.value, path)];
      }
    }
    assert out' == out + OwnCodes(f, field, path);
    out' := Collect(f, field.value, Stage(path, field.key), out');
  }

  method CollectItems(f: Family, items: List<Json>, path: string, out: seq<ExitCode>) returns (out': seq<ExitCode>)
    ensures out' == out + ItemCodes(f, items, path, 0)
    decreases items
  {
    ghost var all := out + ItemCodes(f, items, path, 0);
    var rest, i: nat := items, 0;
    out' := out;
    while rest.Cons?
      invariant (rest == items || rest < items) && all == out' + ItemCodes(f, rest, path, i)
      decreases rest
    {
      ghost var inner, behind := Codes(f, rest.head, ItemStage(path, i)), ItemCodes(f, rest.tail, path, i + 1);
      assert out' + (inner + behind) == (out' + inner) + behind;
      out' := Collect(f, rest.head, ItemStage(path, i), out');
      rest, i := rest.tail, i + 1;
    }
  }

  /** A code that is looked for: any, or only a nonzero one. */
  predicate Wanted(r: Option<ExitCode>, any: bool) {
    r.Some? && (any || r.value.code != 0)
  }

  function FirstThat(codes: seq<ExitCode>, any: bool): (r: Option<ExitCode>)
    ensures r.Some? ==> r.value in codes && Wanted(r, any)
    ensures r.None? ==> forall i :: 0 <= i < |codes| ==> !any && codes[i].code == 0
  {
    if codes == [] then None
    else if Wanted(Some(codes[0]), any) then Some(codes[0])
    else FirstThat(codes[1..], any)
  }

  function FirstNonzero(codes: seq<ExitCode>): (r: Option<ExitCode>)
    ensures r.Some? ==> r.value in codes && r.value.code != 0
    ensures r.None? ==> forall i :: 0 <= i < |codes| ==> codes[i].code == 0
  {
    FirstThat(codes, false)
  }

  lemma {:induction false} FirstOfConcat(a: seq<ExitCode>, b: seq<ExitCode>, any: bool)
    ensures FirstThat(a + b, any) == if FirstThat(a, any).Some? then FirstThat(a, any) else FirstThat(b, any)
  {
    if a == [] {
      assert a + b == b;
    } else {
      FirstOfConcat(a[1..], b, any);
      assert (a + b)[1..] == a[1..] + b;
    }
  }

  // ------------------------------------------------------------------ codes by position
  //
  // A position is the list of child indices that leads to a value. Traversal order is the
  // dictionary order of positions, a value before everything inside it.

  /** The code carried by the field at position `p`, with the stage a reader is told. */
  function CodeAt(f: Family, v: Json, p: List<nat>, path: string): (r: Option<ExitCode>)
    decreases p
  {
    if p.Nil? then None
    else match v
      case Obj(fields) =>
        if p.head >= Length(fields) then None
        else
          var field := Nth(fields, p.head);
          if p.tail.Nil? then OwnCode(f, field, path)
          else CodeAt(f, field.value, p.tail, Stage(path, field.key))
      case Arr(items) =>
        if p.head >= Length(items) then None
        else CodeAt(f, Nth(items, p.head), p.tail, ItemStage(path, p.head))
      case _ => None
  }

  /** `p` comes before `q` in traversal order. */
  predicate Before(p: List<nat>, q: List<nat>) {
    q.Cons? && (p.Nil? || p.head < q.head || (p.head == q.head && Before(p.tail, q.tail)))
  }

  predicate Fails(r: Option<ExitCode>) {
    Wanted(r, false)
  }

  function FieldCodeAt(f: Family, fields: List<Field>, p: List<nat>, path: string): (r: Option<ExitCode>) {
    CodeAt(f, Obj(fields), p, path)
  }

  /** The list of items whose first has index `i` in its array. */
  function ItemCodeAt(f: Family, items: List<Json>, p: List<nat>, path: string, i: nat): (r: Option<ExitCode>) {
    if p.Nil? || p.head >= Length(items) then None
    else CodeAt(f, Nth(items, p.head), p.tail, ItemStage(path, i + p.head))
  }

  function Earlier(p: List<nat>): (q: List<nat>)
    requires p.Cons? && p.head > 0
  {
    Cons(p.head - 1, p.tail)
  }

  lemma FieldShift(f: Family, fields: List<Field>, p: List<nat>, path: string)
    requires fields.Cons? && p.Cons?
    ensures p.head > 0 ==> FieldCodeAt(f, fields, p, path) == FieldCodeAt(f, fields.tail, Earlier(p), path)
    ensures p.head == 0 ==>
      FieldCodeAt(f, fields, p, path) ==
        if p.tail.Nil? then OwnCode(f, fields.head, path)
        else CodeAt(f, fields.head.value, p.tail, Stage(path, fields.head.key))
  {
  }

  lemma ItemShift(f: Family, items: List<Json>, p: List<nat>, path: string, i: nat)
    requires items.Cons? && p.Cons?
    ensures p.head > 0 ==> ItemCodeAt(f, items, p, path, i) == ItemCodeAt(f, items.tail, Earlier(p), path, i + 1)
    ensures p.head == 0 ==> ItemCodeAt(f, items, p, path, i) == CodeAt(f, items.head, p.tail, ItemStage(path, i))
  {
  }

  // ------------------------------------------------------------------ nothing fails, or the first failure is found

  lemma SplitFields(f: Family, fields: List<Field>, path: string, any: bool)
    requires fields.Cons?
    ensures var own := OwnCode(f, fields.head, path);
            var inner := FirstThat(Codes(f, fields.head.value, Stage(path, fields.head.key)), any);
            FirstThat(FieldCodes(f, fields, path), any) ==
              if Wanted(own, any) then own
              else if inner.Some? then inner
              else FirstThat(FieldCodes(f, fields.tail, path), any)
  {
    var own := OwnCodes(f, fields.head, path);
    var inner := Codes(f, fields.head.value, Stage(path, fields.head.key));
    var behind := FieldCodes(f, fields.tail, path);
    FirstOfConcat(own + inner, behind, any);
    FirstOfConcat(own, inner, any);
  }

  lemma SplitItems(f: Family, items: List<Json>, path: string, i: nat, any: bool)
    requires items.Cons?
    ensures var inner := FirstThat(Codes(f, items.head, ItemStage(path, i)), any);
            FirstThat(ItemCodes(f, items, path, i), any) ==
              if inner.Some? then inner else FirstThat(ItemCodes(f, items.tail, path, i + 1), any)
  {
    FirstOfConcat(Codes(f, items.head, ItemStage(path, i)), ItemCodes(f, items.tail, path, i + 1), any);
  }

  /** When the collector finds no such code, no position carries one. */
  lemma {:induction false} NoneFound(f: Family, v: Json, p: List<nat>, path: string, any: bool)
    requires FirstThat(Codes(f, v, path), any).None?
    ensures !Wanted(CodeAt(f, v, p, path), any)
    decreases v, 1
  {
    if p.Cons? {
      match v
      case Obj(fields) => NoFieldFound(f, fields, p, path, any);
      case Arr(items) => NoItemFound(f, items, p, path, 0, any);
      case _ =>
    }
  }

  lemma {:induction false} NoFieldFound(f: Family, fields: List<Field>, p: List<nat>, path: string, any: bool)
    requires p.Cons? && FirstThat(FieldCodes(f, fields, path), any).None?
    ensures !Wanted(FieldCodeAt(f, fields, p, path), any)
    decreases fields, 0
  {
    if fields.Cons? {
      SplitFields(f, fields, path, any);
      FieldShift(f, fields, p, path);
      if p.head > 0 {
        NoFieldFound(f, fields.tail, Earlier(p), path, any);
      } else {
        NoneFound(f, fields.head.value, p.tail, Stage(path, fields.head.key), any);
      }
    }
  }

  lemma {:induction false} NoItemFound(f: Family, items: List<Json>, p: List<nat>, path: string, i: nat, any: bool)
    requires p.Cons? && FirstThat(ItemCodes(f, items, path, i), any).None?
    ensures !Wanted(ItemCodeAt(f, items, p, path, i), any)
    decreases items, 0
  {
    if items.Cons? {
      SplitItems(f, items, path, i, any);
      ItemShift(f, items, p, path, i);
      if p.head > 0 {
        NoItemFound(f, items.tail, Earlier(p), path, i + 1, any);
      } else {
        NoneFound(f, items.head, p.tail, ItemStage(path, i), any);
      }
    }
  }

  /** When it finds one, that code stands at a position before which no position carries one. */
  lemma {:induction false} FirstFound(f: Family, v: Json, path: string, any: bool) returns (p: List<nat>)
    requires FirstThat(Codes(f, v, path), any).Some?
    ensures CodeAt(f, v, p, path) == FirstThat(Codes(f, v, path), any)
    ensures forall q :: Before(q, p) ==> !Wanted(CodeAt(f, v, q, path), any)
    decreases v, 1
  {
    match v
    case Obj(fields) => p := FirstFieldFound(f, fields, path, any);
    case Arr(items) =>
      p := FirstItemFound(f, items, path, 0, any);
      forall q | Before(q, p)
        ensures !Wanted(CodeAt(f, v, q, path), any)
      {
        assert CodeAt(f, v, q, path) == ItemCodeAt(f, items, q, path, 0);
      }
  }

  lemma {:induction false} FirstFieldFound(f: Family, fields: List<Field>, path: string, any: bool)
    returns (p: List<nat>)
    requires FirstThat(FieldCodes(f, fields, path), any).Some?
    ensures FieldCodeAt(f, fields, p, path) == FirstThat(FieldCodes(f, fields, path), any)
    ensures forall q :: Before(q, p) ==> !Wanted(FieldCodeAt(f, fields, q, path), any)
    decreases fields, 0
  {
    SplitFields(f, fields, path, any);
    var inner, stage := fields.head.value, Stage(path, fields.head.key);
    var own, rest := Wanted(OwnCode(f, fields.head, path), any), FirstThat(Codes(f, inner, stage), any).None?;
    var p' := Nil;
    if own {
      p := Cons(0, Nil);
    } else if !rest {
      p' := FirstFound(f, inner, stage, any);
      p := Cons(0, p');
    } else {
      p' := FirstFieldFound(f, fields.tail, path, any);
      p := Cons(p'.head + 1, p'.tail);
      assert Earlier(p) == p';
    }
    FieldShift(f, fields, p, path);
    forall q | Before(q, p)
      ensures !Wanted(FieldCodeAt(f, fields, q, path), any)
    {
      if q.Cons? {
        FieldShift(f, fields, q, path);
        if q.head > 0 {
          assert Before(Earlier(q), p');
        } else if q.tail.Cons? && rest {
          NoneFound(f, inner, q.tail, stage, any);
        }
      }
    }
  }

  lemma {:induction false} FirstItemFound(f: Family, items: List<Json>, path: string, i: nat, any: bool)
    returns (p: List<nat>)
    requires FirstThat(ItemCodes(f, items, path, i), any).Some?
    ensures p.Cons? && ItemCodeAt(f, items, p, path, i) == FirstThat(ItemCodes(f, items, path, i), any)
    ensures forall q :: Before(q, p) ==> !Wanted(ItemCodeAt(f, items, q, path, i), any)
    decreases items, 0
  {
    SplitItems(f, items, path, i, any);
    var stage := ItemStage(path, i);
    var rest := FirstThat(Codes(f, items.head, stage), any).None?;
    var p': List<nat>;
    if rest {
      p' := FirstItemFound(f, items.tail, path, i + 1, any);
      p := Cons(p'.head + 1, p'.tail);
      assert Earlier(p) == p';
    } else {
      p' := FirstFound(f, items.head, stage, any);
      p := Cons(0, p');
    }
    ItemShift(f, items, p, path, i);
    forall q | Before(q, p)
      ensures !Wanted(ItemCodeAt(f, items, q, path, i), any)
    {
      if q.Cons? {
        ItemShift(f, items, q, path, i);
        if q.head > 0 {
          assert Before(Earlier(q), p');
        } else if rest {
          NoneFound(f, items.head, q.tail, stage, any);
        }
      }
    }
  }

  // ------------------------------------------------------------------ the stage a reader is told

  datatype Segment = Key(key: string) | Index(index: nat)

  /** The way from the root to the object that holds the field at position `p`. */
  function WayTo(v: Json, p: List<nat>): (way: List<Segment>)
    decreases p
  {
    if p.Nil? || p.tail.Nil? then Nil
    else match v
      case Obj(fields) =>
        if p.head >= Length(fields) then Nil
        else Cons(Key(Nth(fields, p.head).key), WayTo(Nth(fields, p.head).value, p.tail))
      case Arr(items) =>
        if p.head >= Length(items) then Nil else Cons(Index(p.head), WayTo(Nth(items, p.head), p.tail))
      case _ => Nil
  }

  /** Keys behind points and indices in brackets, behind what is spelled so far. */
  function Spelled(way: List<Segment>, before: string): (s: string) {
    match way
    case Nil => before
    case Cons(Key(k), rest) => Spelled(rest, if before == [] then k else before + "." + k)
    case Cons(Index(i), rest) => Spelled(rest, before + "[" + Dec(i) + "]")
  }

  /** THE STAGE IS THE WAY: a code is reported with the way to the object whose field carries it. */
  lemma {:induction false} StageIsTheWay(f: Family, v: Json, p: List<nat>, path: string)
    requires CodeAt(f, v, p, path).Some?
    ensures CodeAt(f, v, p, path).value.stage == Spelled(WayTo(v, p), path)
    decreases p
  {
    match v
    case Obj(fields) =>
      if p.tail.Cons? {
        var field := Nth(fields, p.head);
        StageIsTheWay(f, field.value, p.tail, Stage(path, field.key));
      }
    case Arr(items) =>
      if p.tail.Cons? {
        StageIsTheWay(f, Nth(items, p.head), p.tail, ItemStage(path, p.head));
      }
  }
}
