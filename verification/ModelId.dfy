/** The canonical model-id grammar of `manifest.rs`:
    `producer--model--version[--unit][--w<N>k][--<N>p][--tools][--think][--<precision>]`. */
module ModelId {
  import opened Wrappers
  import opened Text
  import opened Numerals
  import opened Lists

  /** One optional token per slot; `tools` and `think` can only be spelled one way. */
  datatype Flags = Flags(
    unit: Option<string>,
    window: Option<string>,
    resolution: Option<string>,
    tools: bool,
    think: bool,
    precision: Option<string>)

  datatype Id = Id(producer: string, model: string, version: string, flags: Flags)

  datatype Refusal = TooLong | NotCanonical | PackingFormat | BadWindow | UnknownFlag | Duplicate | WrongOrder

  const NO_FLAGS := Flags(None, None, None, false, false, None)

  // ------------------------------------------------------------------ splitting at `--`

  /** `name.split("--")`. */
  function Split(s: string): (parts: List<string>)
    ensures parts.Cons?
  {
    if s == [] then Cons([], Nil)
    else if |s| > 1 && s[0] == '-' && s[1] == '-' then Cons([], Split(s[2..]))
    else
      var rest := Split(s[1..]);
      Cons([s[0]] + rest.head, rest.tail)
  }

  function Join(parts: List<string>): (s: string) {
    if parts.Nil? then []
    else if parts.tail.Nil? then parts.head
    else parts.head + "--" + Join(parts.tail)
  }

  predicate NoDoubleDash(s: string) {
    forall i :: 0 <= i < |s| - 1 ==> s[i] != '-' || s[i + 1] != '-'
  }

  predicate EndsInDash(s: string) {
    s != [] && s[|s| - 1] == '-'
  }

  /** Parts that their rendering does not blur. */
  predicate Separable(parts: List<string>) {
    parts.Nil? || (NoDoubleDash(parts.head) && (parts.tail.Cons? ==> !EndsInDash(parts.head)) && Separable(parts.tail))
  }

  lemma JoinPrepends(c: char, parts: List<string>)
    requires parts.Cons?
    ensures Join(Cons([c] + parts.head, parts.tail)) == [c] + Join(parts)
  {
    if parts.tail.Cons? {
      var rest := "--" + Join(parts.tail);
      assert parts.head + "--" + Join(parts.tail) == parts.head + rest;
      assert [c] + parts.head + "--" + Join(parts.tail) == [c] + (parts.head + rest);
    }
  }

  lemma JoinSeparates(parts: List<string>)
    requires parts.Cons?
    ensures Join(Cons([], parts)) == "--" + Join(parts)
  {
    assert [] + "--" == "--";
  }

  lemma {:induction false} JoinOfSplit(s: string)
    ensures Join(Split(s)) == s
  {
    if s != [] {
      if |s| > 1 && s[0] == '-' && s[1] == '-' {
        JoinOfSplit(s[2..]);
        JoinSeparates(Split(s[2..]));
        assert s == "--" + s[2..];
      } else {
        JoinOfSplit(s[1..]);
        JoinPrepends(s[0], Split(s[1..]));
        assert s == [s[0]] + s[1..];
      }
    }
  }

  lemma {:induction false} SplitIsSeparable(s: string)
    ensures Separable(Split(s))
    ensures Split(s).head != [] ==> s != [] && Split(s).head[0] == s[0]
    ensures Split(s).head == [] && Split(s).tail.Cons? ==> |s| > 1 && s[0] == '-'
  {
    if s != [] {
      if |s| > 1 && s[0] == '-' && s[1] == '-' {
        SplitIsSeparable(s[2..]);
      } else {
        SplitIsSeparable(s[1..]);
        var rest, head := Split(s[1..]), [s[0]] + Split(s[1..]).head;
        assert NoDoubleDash(head) by {
          forall i | 0 <= i < |head| - 1
            ensures head[i] != '-' || head[i + 1] != '-'
          {
            if i > 0 { assert head[i] == rest.head[i - 1] && head[i + 1] == rest.head[i]; }
          }
        }
      }
    }
  }

  lemma {:induction false} SplitBehind(part: string, rest: string)
    requires NoDoubleDash(part) && !EndsInDash(part)
    ensures Split(part + "--" + rest) == Cons(part, Split(rest))
  {
    var s := part + "--" + rest;
    if part == [] {
      assert s[2..] == rest;
    } else {
      var tail := part[1..];
      assert NoDoubleDash(tail) by {
        forall i | 0 <= i < |tail| - 1
          ensures tail[i] != '-' || tail[i + 1] != '-'
        {
          assert part[i + 1] == tail[i] && part[i + 2] == tail[i + 1];
        }
      }
      SplitBehind(tail, rest);
      assert s[1..] == tail + "--" + rest;
      assert part == [part[0]] + tail;
    }
  }

  lemma {:induction false} SplitLast(part: string)
    requires NoDoubleDash(part)
    ensures Split(part) == Cons(part, Nil)
  {
    if part != [] {
      var tail := part[1..];
      assert NoDoubleDash(tail) by {
        forall i | 0 <= i < |tail| - 1
          ensures tail[i] != '-' || tail[i + 1] != '-'
        {
          assert part[i + 1] == tail[i] && part[i + 2] == tail[i + 1];
        }
      }
      SplitLast(tail);
      assert part == [part[0]] + tail;
    }
  }

  lemma {:induction false} SplitOfJoin(parts: List<string>)
    requires parts.Cons? && Separable(parts)
    ensures Split(Join(parts)) == parts
  {
    if parts.tail.Nil? {
      SplitLast(parts.head);
    } else {
      SplitBehind(parts.head, Join(parts.tail));
      SplitOfJoin(parts.tail);
    }
  }

  // ------------------------------------------------------------------ flags

  /** `w<N>k` with `N` a positive integer in its one canonical spelling. */
  predicate IsWindow(token: string) {
    && |token| >= 2 && token[0] == 'w' && token[|token| - 1] == 'k'
    && var digits := token[1..|token| - 1];
       && digits != [] && AllDigits(digits, 10)
       && var n := ParseUnsigned(digits, 10, U64_MAX);
          n.Some? && n.value != 0 && Dec(n.value) == digits
  }

  /** `parse_model_flag`: the slot a token belongs to. */
  function ParseFlag(token: string): (r: Result<nat, Refusal>)
    ensures r.Ok? ==> r.value < 6
  {
    if token in ["sec", "min", "img", "frame"] then Ok(0)
    else if token in ["480p", "720p", "1080p", "2160p"] then Ok(2)
    else if token == "tools" then Ok(3)
    else if token == "think" then Ok(4)
    else if token in ["fp32", "bf16", "fp16", "fp8", "int8", "int4"] then Ok(5)
    else if token in ["gptq", "awq", "gguf", "Q4_K_M"] then Err(PackingFormat)
    else if token != [] && token[0] == 'w' then (if IsWindow(token) then Ok(1) else Err(BadWindow))
    else Err(UnknownFlag)
  }

  function Put(flags: Flags, slot: nat, token: string): (r: Flags)
    requires slot < 6
  {
    match slot
    case 0 => flags.(unit := Some(token))
    case 1 => flags.(window := Some(token))
    case 2 => flags.(resolution := Some(token))
    case 3 => flags.(tools := true)
    case 4 => flags.(think := true)
    case _ => flags.(precision := Some(token))
  }

  /** The token a slot is rendered as. */
  function SlotToken(flags: Flags, slot: nat): (r: Option<string>)
    requires slot < 6
  {
    match slot
    case 0 => flags.unit
    case 1 => flags.window
    case 2 => flags.resolution
    case 3 => if flags.tools then Some("tools") else None
    case 4 => if flags.think then Some("think") else None
    case _ => flags.precision
  }

  /** The flag loop from a given state on: which slots were seen, and the last one. */
  function Walk(tokens: List<string>, seen: set<nat>, last: Option<nat>, flags: Flags): (r: Result<Flags, Refusal>) {
    if tokens.Nil? then Ok(flags)
    else match ParseFlag(tokens.head)
      case Err(e) => Err(e)
      case Ok(slot) =>
        if slot in seen then Err(Duplicate)
        else if last.Some? && slot < last.value then Err(WrongOrder)
        else Walk(tokens.tail, seen + {slot}, Some(slot), Put(flags, slot, tokens.head))
  }

  /** `parse_canonical_model_id`. */
  function Parse(name: string): (r: Result<Id, Refusal>) {
    if ByteLen(name) > 127 then Err(TooLong)
    else
      var parts := Split(name);
      if parts.tail.Nil? || parts.tail.tail.Nil? then Err(NotCanonical)
      else
        var producer, model, version := parts.head, parts.tail.head, parts.tail.tail.head;
        if Trim(producer) == [] || Trim(model) == [] || Trim(version) == [] then Err(NotCanonical)
        else match Walk(parts.tail.tail.tail, {}, None, NO_FLAGS)
          case Err(e) => Err(e)
          case Ok(flags) => Ok(Id(producer, model, version, flags))
  }

  /** The flag loop as the code runs it, over a six-element table. */
  method WalkFlags(tokens: List<string>) returns (r: Result<Flags, Refusal>)
    ensures r == Walk(tokens, {}, None, NO_FLAGS)
  {
    var flags, last, rest := NO_FLAGS, None, tokens;
    var seen := new bool[6](_ => false);
    ghost var slots: set<nat> := {};
    while rest.Cons?
      invariant forall k :: 0 <= k < 6 ==> (seen[k] <==> k in slots)
      invariant Walk(tokens, {}, None, NO_FLAGS) == Walk(rest, slots, last, flags)
      decreases rest
    {
      var token := rest.head;
      var parsed := ParseFlag(token);
      if parsed.Err? {
        return Err(parsed.error);
      }
      var slot := parsed.value;
      if seen[slot] {
        return Err(Duplicate);
      }
      if last.Some? && slot < last.value {
        return Err(WrongOrder);
      }
      seen[slot] := true;
      slots := slots + {slot};
      last, flags, rest := Some(slot), Put(flags, slot, token), rest.tail;
    }
    r := Ok(flags);
  }

  method ParseId(name: string) returns (r: Result<Id, Refusal>)
    ensures r == Parse(name)
  {
    if ByteLen(name) > 127 {
      return Err(TooLong);
    }
    var parts := Split(name);
    if parts.tail.Nil? || parts.tail.tail.Nil? {
      return Err(NotCanonical);
    }
    var producer, model, version := parts.head, parts.tail.head, parts.tail.tail.head;
    if Trim(producer) == [] || Trim(model) == [] || Trim(version) == [] {
      return Err(NotCanonical);
    }
    var flags := WalkFlags(parts.tail.tail.tail);
    r := if flags.Ok? then Ok(Id(producer, model, version, flags.value)) else Err(flags.error);
  }

  // ------------------------------------------------------------------ the loop accepts exactly increasing slots

  /** Every token is a flag, and its slot is above `last` and above every earlier one. */
  predicate Increasing(tokens: List<string>, last: int) {
    tokens.Nil? ||
    (ParseFlag(tokens.head).Ok? && ParseFlag(tokens.head).value > last
     && Increasing(tokens.tail, ParseFlag(tokens.head).value))
  }

  function SetFlags(tokens: List<string>, flags: Flags): (r: Flags) {
    if tokens.Nil? || ParseFlag(tokens.head).Err? then flags
    else SetFlags(tokens.tail, Put(flags, ParseFlag(tokens.head).value, tokens.head))
  }

  lemma {:induction false} WalkAccepts(tokens: List<string>, seen: set<nat>, last: Option<nat>, flags: Flags)
    requires forall k :: k in seen ==> last.Some? && k <= last.value
    requires last.Some? ==> last.value in seen
    ensures var r := Walk(tokens, seen, last, flags);
            && (r.Ok? <==> Increasing(tokens, if last.Some? then last.value else -1))
            && (r.Ok? ==> r.value == SetFlags(tokens, flags))
  {
    if tokens.Cons? && ParseFlag(tokens.head).Ok? {
      var slot := ParseFlag(tokens.head).value;
      if slot !in seen && !(last.Some? && slot < last.value) {
        WalkAccepts(tokens.tail, seen + {slot}, Some(slot), Put(flags, slot, tokens.head));
      }
    }
  }

  // ------------------------------------------------------------------ rendering

  function SlotTokens(flags: Flags, k: nat): (r: List<string>)
    requires k <= 6
    decreases 6 - k
  {
    if k == 6 then Nil
    else if SlotToken(flags, k).Some? then Cons(SlotToken(flags, k).value, SlotTokens(flags, k + 1))
    else SlotTokens(flags, k + 1)
  }

  function Parts(id: Id): (r: List<string>) {
    Cons(id.producer, Cons(id.model, Cons(id.version, SlotTokens(id.flags, 0))))
  }

  /** The id written out, its flags in slot order. */
  function Render(id: Id): (name: string) {
    Join(Parts(id))
  }

  lemma PutIsLocal(flags: Flags, slot: nat, token: string, k: nat)
    requires ParseFlag(token) == Ok(slot) && k < 6
    ensures SlotToken(Put(flags, slot, token), k) == if k == slot then Some(token) else SlotToken(flags, k)
  {
  }

  lemma {:induction false} SetAbove(tokens: List<string>, flags: Flags, last: int, k: nat)
    requires Increasing(tokens, last) && k < 6 && k <= last
    ensures SlotToken(SetFlags(tokens, flags), k) == SlotToken(flags, k)
  {
    if tokens.Cons? {
      var slot := ParseFlag(tokens.head).value;
      PutIsLocal(flags, slot, tokens.head, k);
      SetAbove(tokens.tail, Put(flags, slot, tokens.head), slot, k);
    }
  }

  lemma {:induction false} SkipEmpty(flags: Flags, i: nat, j: nat)
    requires i <= j <= 6 && forall k :: i <= k < j ==> SlotToken(flags, k).None?
    ensures SlotTokens(flags, i) == SlotTokens(flags, j)
    decreases j - i
  {
    if i < j {
      SkipEmpty(flags, i + 1, j);
    }
  }

  /** Increasing tokens come back out of the slots they were put in. */
  lemma {:induction false} TokensComeBack(tokens: List<string>, flags: Flags, last: int)
    requires Increasing(tokens, last) && -1 <= last < 6
    requires forall k :: last < k < 6 ==> SlotToken(flags, k).None?
    ensures SlotTokens(SetFlags(tokens, flags), last + 1) == tokens
  {
    if tokens.Nil? {
      SkipEmpty(flags, last + 1, 6);
    } else {
      var slot, token := ParseFlag(tokens.head).value, tokens.head;
      var next := Put(flags, slot, token);
      var result := SetFlags(tokens, flags);
      forall k | 0 <= k < 6
        ensures SlotToken(next, k) == if k == slot then Some(token) else SlotToken(flags, k)
      {
        PutIsLocal(flags, slot, token, k);
      }
      TokensComeBack(tokens.tail, next, slot);
      forall k | last + 1 <= k <= slot
        ensures SlotToken(result, k) == SlotToken(next, k)
      {
        SetAbove(tokens.tail, next, slot, k);
      }
      SkipEmpty(result, last + 1, slot);
    }
  }

  /** PARSING LOSES NOTHING: rendering a parsed id gives back the very name it was parsed from. */
  lemma RenderOfParse(name: string)
    requires Parse(name).Ok?
    ensures Render(Parse(name).value) == name
  {
    var tokens := Split(name).tail.tail.tail;
    WalkAccepts(tokens, {}, None, NO_FLAGS);
    TokensComeBack(tokens, NO_FLAGS, -1);
    JoinOfSplit(name);
  }

  /** THE GRAMMAR IS INJECTIVE: two different names never parse to the same id. */
  lemma ParseInjective(a: string, b: string)
    requires Parse(a).Ok? && Parse(a) == Parse(b)
    ensures a == b
  {
    RenderOfParse(a);
    RenderOfParse(b);
  }

  /** Three parts that are not blank stand before the flags. */
  predicate HasBase(parts: List<string>) {
    && parts.Cons? && parts.tail.Cons? && parts.tail.tail.Cons?
    && !Blank(parts.head) && !Blank(parts.tail.head) && !Blank(parts.tail.tail.head)
  }

  /** WHAT IS ACCEPTED, said without the loop. */
  lemma AcceptedExactly(name: string)
    ensures Parse(name).Ok? <==>
            ByteLen(name) <= 127 && HasBase(Split(name)) && Increasing(Split(name).tail.tail.tail, -1)
  {
    var parts := Split(name);
    if parts.tail.Cons? && parts.tail.tail.Cons? {
      TrimEmptyIffBlank(parts.head);
      TrimEmptyIffBlank(parts.tail.head);
      TrimEmptyIffBlank(parts.tail.tail.head);
      WalkAccepts(parts.tail.tail.tail, {}, None, NO_FLAGS);
    }
  }

  /** Which names are too long, and which have no base. */
  lemma BaseRefusedExactly(name: string)
    ensures Parse(name) == Err(TooLong) <==> ByteLen(name) > 127
    ensures ByteLen(name) <= 127 && !HasBase(Split(name)) ==> Parse(name) == Err(NotCanonical)
    ensures Parse(name) == Err(NotCanonical) ==> !HasBase(Split(name))
  {
    var parts := Split(name);
    if parts.tail.Cons? && parts.tail.tail.Cons? {
      TrimEmptyIffBlank(parts.head);
      TrimEmptyIffBlank(parts.tail.head);
      TrimEmptyIffBlank(parts.tail.tail.head);
      WalkRefusal(parts.tail.tail.tail, {}, None, NO_FLAGS);
    }
  }

  lemma {:induction false} WalkRefusal(tokens: List<string>, seen: set<nat>, last: Option<nat>, flags: Flags)
    ensures var r := Walk(tokens, seen, last, flags); r.Err? ==> r.error != TooLong && r.error != NotCanonical
  {
    if tokens.Cons? && ParseFlag(tokens.head).Ok? {
      var slot := ParseFlag(tokens.head).value;
      WalkRefusal(tokens.tail, seen + {slot}, Some(slot), Put(flags, slot, tokens.head));
    }
  }

  // ------------------------------------------------------------------ which ids parse back

  /** Each slot holds a token of that slot. */
  predicate FlagsValid(flags: Flags) {
    forall k :: 0 <= k < 6 && SlotToken(flags, k).Some? ==> ParseFlag(SlotToken(flags, k).value) == Ok(k)
  }

  predicate WellFormed(id: Id) {
    && ByteLen(Render(id)) <= 127
    && HasBase(Parts(id))
    && NoDoubleDash(id.producer) && NoDoubleDash(id.model) && NoDoubleDash(id.version)
    && !EndsInDash(id.producer) && !EndsInDash(id.model)
    && (SlotTokens(id.flags, 0).Cons? ==> !EndsInDash(id.version))
    && FlagsValid(id.flags)
  }

  lemma FlagHasNoDash(token: string)
    requires ParseFlag(token).Ok?
    ensures forall i :: 0 <= i < |token| ==> token[i] != '-'
  {
    if ParseFlag(token) == Ok(1) {
      var digits := token[1..|token| - 1];
      forall i | 0 <= i < |token|
        ensures token[i] != '-'
      {
        if 0 < i < |token| - 1 { assert token[i] == digits[i - 1]; }
      }
    }
  }

  lemma {:induction false} FlagsSeparable(tokens: List<string>, last: int)
    requires Increasing(tokens, last)
    ensures Separable(tokens)
  {
    if tokens.Cons? {
      FlagHasNoDash(tokens.head);
      FlagsSeparable(tokens.tail, ParseFlag(tokens.head).value);
    }
  }

  lemma {:induction false} SlotsIncrease(flags: Flags, k: nat)
    requires k <= 6 && FlagsValid(flags)
    ensures Increasing(SlotTokens(flags, k), k - 1)
    decreases 6 - k
  {
    if k < 6 {
      SlotsIncrease(flags, k + 1);
      IncreasingFrom(SlotTokens(flags, k + 1), k, k - 1);
    }
  }

  lemma IncreasingFrom(tokens: List<string>, last: int, lower: int)
    requires Increasing(tokens, last) && lower <= last
    ensures Increasing(tokens, lower)
  {
  }

  lemma {:induction false} SlotsComeBack(flags: Flags, k: nat, base: Flags, j: nat)
    requires k <= 6 && FlagsValid(flags) && j < 6
    requires forall i :: k <= i < 6 ==> SlotToken(base, i).None?
    ensures SlotToken(SetFlags(SlotTokens(flags, k), base), j) ==
            if j >= k then SlotToken(flags, j) else SlotToken(base, j)
    decreases 6 - k
  {
    if k < 6 {
      var token := SlotToken(flags, k);
      if token.None? {
        SlotsComeBack(flags, k + 1, base, j);
      } else {
        forall i | 0 <= i < 6
          ensures SlotToken(Put(base, k, token.value), i) == if i == k then token else SlotToken(base, i)
        {
          PutIsLocal(base, k, token.value, i);
        }
        SlotsComeBack(flags, k + 1, Put(base, k, token.value), j);
      }
    }
  }

  lemma FlagsComeBack(flags: Flags)
    requires FlagsValid(flags)
    ensures SetFlags(SlotTokens(flags, 0), NO_FLAGS) == flags
  {
    var r := SetFlags(SlotTokens(flags, 0), NO_FLAGS);
    forall j | 0 <= j < 6
      ensures SlotToken(r, j) == SlotToken(flags, j)
    {
      SlotsComeBack(flags, 0, NO_FLAGS, j);
    }
    SameSlots(r, flags);
  }

  lemma SameSlots(a: Flags, b: Flags)
    requires forall j :: 0 <= j < 6 ==> SlotToken(a, j) == SlotToken(b, j)
    ensures a == b
  {
    assert SlotToken(a, 0) == SlotToken(b, 0);
    assert SlotToken(a, 1) == SlotToken(b, 1);
    assert SlotToken(a, 2) == SlotToken(b, 2);
    assert SlotToken(a, 3) == SlotToken(b, 3);
    assert SlotToken(a, 4) == SlotToken(b, 4);
    assert SlotToken(a, 5) == SlotToken(b, 5);
  }

  lemma {:induction false} SetIsValid(tokens: List<string>, base: Flags, last: int)
    requires Increasing(tokens, last) && FlagsValid(base)
    ensures FlagsValid(SetFlags(tokens, base))
  {
    if tokens.Cons? {
      var slot := ParseFlag(tokens.head).value;
      var next := Put(base, slot, tokens.head);
      forall k | 0 <= k < 6 && SlotToken(next, k).Some?
        ensures ParseFlag(SlotToken(next, k).value) == Ok(k)
      {
        PutIsLocal(base, slot, tokens.head, k);
      }
      SetIsValid(tokens.tail, next, slot);
    }
  }

  lemma WellFormedParsesBack(id: Id)
    requires WellFormed(id)
    ensures Parse(Render(id)) == Ok(id)
  {
    var tokens := SlotTokens(id.flags, 0);
    SlotsIncrease(id.flags, 0);
    FlagsSeparable(tokens, -1);
    SplitOfJoin(Parts(id));
    AcceptedExactly(Render(id));
    WalkAccepts(tokens, {}, None, NO_FLAGS);
    FlagsComeBack(id.flags);
  }

  lemma ParsedIsWellFormed(name: string)
    requires Parse(name).Ok?
    ensures WellFormed(Parse(name).value)
  {
    var id := Parse(name).value;
    var tokens := Split(name).tail.tail.tail;
    RenderOfParse(name);
    AcceptedExactly(name);
    SplitIsSeparable(name);
    assert Separable(Split(name).tail) && Separable(Split(name).tail.tail);
    WalkAccepts(tokens, {}, None, NO_FLAGS);
    TokensComeBack(tokens, NO_FLAGS, -1);
    SetIsValid(tokens, NO_FLAGS, -1);
  }

  /** WHICH IDS ROUND-TRIP: an id parses back from its rendering exactly when it is well-formed. */
  lemma ParsesBackExactly(id: Id)
    ensures Parse(Render(id)) == Ok(id) <==> WellFormed(id)
  {
    if WellFormed(id) {
      WellFormedParsesBack(id);
    }
    if Parse(Render(id)) == Ok(id) {
      ParsedIsWellFormed(Render(id));
    }
  }

  predicate IsCount(digits: string) {
    Canonical(digits) && 0 < Value(digits, 10) <= U64_MAX
  }

  lemma CountExactly(digits: string)
    ensures IsCount(digits) <==>
      && digits != [] && AllDigits(digits, 10)
      && var n := ParseUnsigned(digits, 10, U64_MAX); n.Some? && n.value != 0 && Dec(n.value) == digits
  {
    if digits != [] && AllDigits(digits, 10) {
      assert IsDigitIn(digits[0], 10);
      DecOfValue(digits);
    }
  }

  lemma WindowSlot(token: string)
    requires token != [] && token[0] == 'w'
    ensures ParseFlag(token) == if IsWindow(token) then Ok(1) else Err(BadWindow)
  {
  }

  /** The window flag is exactly a canonical positive 64-bit decimal between `w` and `k`. */
  lemma WindowExactly(digits: string)
    ensures ParseFlag("w" + digits + "k") == Ok(1) <==> IsCount(digits)
  {
    var token := "w" + digits + "k";
    WindowSlot(token);
    assert token[1..|token| - 1] == digits;
    CountExactly(digits);
  }

  // ------------------------------------------------------------------ the flags as a grammar of texts

  predicate IsUnit(t: string) { t == "sec" || t == "min" || t == "img" || t == "frame" }

  predicate IsResolution(t: string) { t == "480p" || t == "720p" || t == "1080p" || t == "2160p" }

  predicate IsPrecision(t: string) {
    t == "fp32" || t == "bf16" || t == "fp16" || t == "fp8" || t == "int8" || t == "int4"
  }

  ghost predicate IsWindowText(t: string) {
    exists digits :: t == "w" + digits + "k" && IsCount(digits)
  }

  lemma WindowTextExactly(t: string)
    ensures ParseFlag(t) == Ok(1) <==> IsWindowText(t)
  {
    if ParseFlag(t) == Ok(1) {
      var digits := t[1..|t| - 1];
      assert t == "w" + digits + "k";
      WindowExactly(digits);
    }
    if digits :| t == "w" + digits + "k" && IsCount(digits) {
      WindowExactly(digits);
    }
  }

  /** Which texts belong to which slot. */
  lemma SlotTexts(t: string)
    ensures ParseFlag(t) == Ok(0) <==> IsUnit(t)
    ensures ParseFlag(t) == Ok(1) <==> IsWindowText(t)
    ensures ParseFlag(t) == Ok(2) <==> IsResolution(t)
    ensures ParseFlag(t) == Ok(3) <==> t == "tools"
    ensures ParseFlag(t) == Ok(4) <==> t == "think"
    ensures ParseFlag(t) == Ok(5) <==> IsPrecision(t)
  {
    WindowTextExactly(t);
    FixedTexts(t);
  }

  lemma FixedTexts(t: string)
    ensures IsUnit(t) ==> ParseFlag(t) == Ok(0)
    ensures IsResolution(t) ==> ParseFlag(t) == Ok(2)
    ensures IsPrecision(t) ==> ParseFlag(t) == Ok(5)
    ensures ParseFlag(t) == Ok(0) ==> IsUnit(t)
    ensures ParseFlag(t) == Ok(2) ==> IsResolution(t)
    ensures ParseFlag(t) == Ok(5) ==> IsPrecision(t)
  {
  }

  /** Every field that is set holds a text of its own kind. */
  ghost predicate Spellable(flags: Flags) {
    && (flags.unit.Some? ==> IsUnit(flags.unit.value))
    && (flags.window.Some? ==> IsWindowText(flags.window.value))
    && (flags.resolution.Some? ==> IsResolution(flags.resolution.value))
    && (flags.precision.Some? ==> IsPrecision(flags.precision.value))
  }

  function Optional(o: Option<string>, rest: List<string>): (r: List<string>) {
    if o.Some? then Cons(o.value, rest) else rest
  }

  function Marked(b: bool, t: string, rest: List<string>): (r: List<string>) {
    if b then Cons(t, rest) else rest
  }

  /** Unit, window, resolution, `tools`, `think`, precision; each at most once, in this order. */
  function SpellFlags(flags: Flags): (tokens: List<string>) {
    Optional(flags.unit, Optional(flags.window, Optional(flags.resolution,
      Marked(flags.tools, "tools", Marked(flags.think, "think", Optional(flags.precision, Nil))))))
  }

  lemma SlotsSpelled(flags: Flags)
    ensures SlotTokens(flags, 0) == SpellFlags(flags)
  {
    assert SlotTokens(flags, 6) == Nil;
    assert SlotTokens(flags, 5) == Optional(flags.precision, Nil);
    assert SlotTokens(flags, 4) == Marked(flags.think, "think", SlotTokens(flags, 5));
    assert SlotTokens(flags, 3) == Marked(flags.tools, "tools", SlotTokens(flags, 4));
    assert SlotTokens(flags, 2) == Optional(flags.resolution, SlotTokens(flags, 3));
    assert SlotTokens(flags, 1) == Optional(flags.window, SlotTokens(flags, 2));
  }

  lemma ValidSlot(flags: Flags, k: nat)
    requires k < 6
    ensures SlotToken(flags, k).Some? ==>
              (ParseFlag(SlotToken(flags, k).value) == Ok(k) <==>
               match k
               case 0 => IsUnit(flags.unit.value)
               case 1 => IsWindowText(flags.window.value)
               case 2 => IsResolution(flags.resolution.value)
               case 5 => IsPrecision(flags.precision.value)
               case _ => true)
  {
    if SlotToken(flags, k).Some? {
      SlotTexts(SlotToken(flags, k).value);
    }
  }

  lemma ValidIsSpellable(flags: Flags)
    ensures FlagsValid(flags) <==> Spellable(flags)
  {
    forall k | 0 <= k < 6
      ensures SlotToken(flags, k).Some? && Spellable(flags) ==> ParseFlag(SlotToken(flags, k).value) == Ok(k)
    {
      ValidSlot(flags, k);
    }
    ValidSlot(flags, 0);
    ValidSlot(flags, 1);
    ValidSlot(flags, 2);
    ValidSlot(flags, 5);
    if FlagsValid(flags) {
      assert SlotToken(flags, 0) == flags.unit && SlotToken(flags, 1) == flags.window;
      assert SlotToken(flags, 2) == flags.resolution && SlotToken(flags, 5) == flags.precision;
    }
  }

  /** THE FLAGS ARE A GRAMMAR: a list of tokens is accepted as these flags if and only if it spells them,
      each field by a text of its own kind, in the one order. */
  lemma FlagsExactly(tokens: List<string>, flags: Flags)
    ensures Walk(tokens, {}, None, NO_FLAGS) == Ok(flags) <==> Spellable(flags) && tokens == SpellFlags(flags)
  {
    ValidIsSpellable(flags);
    SlotsSpelled(flags);
    WalkAccepts(tokens, {}, None, NO_FLAGS);
    if Walk(tokens, {}, None, NO_FLAGS) == Ok(flags) {
      TokensComeBack(tokens, NO_FLAGS, -1);
      SetIsValid(tokens, NO_FLAGS, -1);
    }
    if FlagsValid(flags) && tokens == SlotTokens(flags, 0) {
      SlotsIncrease(flags, 0);
      FlagsComeBack(flags);
    }
  }
}
