/** `sanitize_onchain_submit_payload`: credential fields become the marker, and every credential
    value that is echoed elsewhere in the payload is masked there. */
module Redaction {
  import opened Wrappers
  import opened Text
  import opened Numerals
  import opened Lists
  import opened Json
  import opened Masking
  import opened ExitCodes

  predicate IsExtMessageTokenKey(key: string) {
    Lower(key) in ["extmessagetoken", "ext_message_token"]
  }

  predicate IsCredentialKey(key: string) {
    Lower(key) in [
      "extmessagetoken", "ext_message_token", "authorization", "accesstoken", "access_token",
      "refreshtoken", "refresh_token", "api_key", "apikey", "provider_api_key", "providerapikey",
      "secret", "secretkey", "secret_key", "secret_hash", "seed", "seedphrase", "seed_phrase",
      "mnemonic", "password", "password_hash", "passwd", "privatekey", "private_key", "signature",
      "unsigned", "signedmessagebody", "signed_message_body", "messageboc", "message_boc",
      "signedboc", "signed_boc"]
  }

  // ------------------------------------------------------------------ which texts are secret

  /** `collect_strings`: every non-empty text in `v`. */
  function Strings(v: Json): (r: set<string>)
    decreases v
  {
    match v
    case Str(s) => if s == [] then {} else {s}
    case Obj(fields) => FieldStrings(fields)
    case Arr(items) => ItemStrings(items)
    case _ => {}
  }

  function FieldStrings(fields: List<Field>): (r: set<string>)
    decreases fields
  {
    if fields.Nil? then {} else Strings(fields.head.value) + FieldStrings(fields.tail)
  }

  function ItemStrings(items: List<Json>): (r: set<string>)
    decreases items
  {
    if items.Nil? then {} else Strings(items.head) + ItemStrings(items.tail)
  }

  /** `collect_echo_secrets`: the texts under credential keys. An external-message token is not
      masked elsewhere, but what is inside one is searched. */
  function EchoSecrets(v: Json): (r: set<string>)
    decreases v
  {
    match v
    case Obj(fields) => FieldSecrets(fields)
    case Arr(items) => ItemSecrets(items)
    case _ => {}
  }

  function FieldSecrets(fields: List<Field>): (r: set<string>)
    decreases fields
  {
    if fields.Nil? then {}
    else
      (if IsCredentialKey(fields.head.key) && !IsExtMessageTokenKey(fields.head.key)
       then Strings(fields.head.value) else EchoSecrets(fields.head.value))
      + FieldSecrets(fields.tail)
  }

  function ItemSecrets(items: List<Json>): (r: set<string>)
    decreases items
  {
    if items.Nil? then {} else EchoSecrets(items.head) + ItemSecrets(items.tail)
  }

  /** The collectors themselves: they insert into the set they are handed. */
  method CollectStrings(v: Json, secrets: set<string>) returns (all: set<string>)
    ensures all == secrets + Strings(v)
    decreases v
  {
    all := secrets;
    match v
    case Str(s) =>
      if s != [] {
        all := all + {s};
      }
    case Obj(fields) =>
      var rest := fields;
      while rest.Cons?
        invariant (rest == fields || rest < fields) && all + FieldStrings(rest) == secrets + FieldStrings(fields)
        decreases rest
      {
        all := CollectStrings(rest.head.value, all);
        rest := rest.tail;
      }
    case Arr(items) =>
      var rest := items;
      while rest.Cons?
        invariant (rest == items || rest < items) && all + ItemStrings(rest) == secrets + ItemStrings(items)
        decreases rest
      {
        all := CollectStrings(rest.head, all);
        rest := rest.tail;
      }
    case _ =>
  }

  method CollectEchoSecrets(v: Json, secrets: set<string>) returns (all: set<string>)
    ensures all == secrets + EchoSecrets(v)
    decreases v
  {
    all := secrets;
    match v
    case Obj(fields) =>
      var rest := fields;
      while rest.Cons?
        invariant (rest == fields || rest < fields) && all + FieldSecrets(rest) == secrets + FieldSecrets(fields)
        decreases rest
      {
        if IsCredentialKey(rest.head.key) && !IsExtMessageTokenKey(rest.head.key) {
          all := CollectStrings(rest.head.value, all);
        } else {
          all := CollectEchoSecrets(rest.head.value, all);
        }
        rest := rest.tail;
      }
    case Arr(items) =>
      var rest := items;
      while rest.Cons?
        invariant (rest == items || rest < items) && all + ItemSecrets(rest) == secrets + ItemSecrets(items)
        decreases rest
      {
        all := CollectEchoSecrets(rest.head, all);
        rest := rest.tail;
      }
    case _ =>
  }

  // ------------------------------------------------------------------ the sanitized value

  /** An order in which the secrets of eight bytes or more may be replaced: longest first, ties in
      whichever order the hash set yields. */
  ghost predicate IsMaskOrder(order: seq<string>, secrets: set<string>) {
    ListsLong(order, secrets) && LongestFirst(order)
  }

  ghost predicate ListsLong(order: seq<string>, secrets: set<string>) {
    forall s :: s in order <==> s in secrets && ByteLen(s) >= 8
  }

  predicate LongestFirst(order: seq<string>) {
    forall i, j :: 0 <= i < j < |order| ==> order[i] != order[j] && ByteLen(order[i]) >= ByteLen(order[j])
  }

  function LongOf(secrets: set<string>): (r: set<string>) {
    set s | s in secrets && ByteLen(s) >= 8
  }

  lemma {:induction false} Longest(secrets: set<string>) returns (m: string)
    requires secrets != {}
    ensures m in secrets && forall s :: s in secrets ==> ByteLen(s) <= ByteLen(m)
    decreases secrets
  {
    m :| m in secrets;
    var rest := secrets - {m};
    if rest != {} {
      var n := Longest(rest);
      m := if ByteLen(n) > ByteLen(m) then n else m;
    }
  }

  lemma ListsOneMore(m: string, rest: seq<string>, secrets: set<string>)
    requires m in LongOf(secrets) && ListsLong(rest, secrets - {m})
    ensures ListsLong([m] + rest, secrets)
  {
    forall s
      ensures s in [m] + rest <==> s in secrets && ByteLen(s) >= 8
    {
      assert s in [m] + rest <==> s == m || s in rest;
    }
  }

  lemma StartsWithLongest(m: string, rest: seq<string>)
    requires LongestFirst(rest) && forall i :: 0 <= i < |rest| ==> rest[i] != m && ByteLen(rest[i]) <= ByteLen(m)
    ensures LongestFirst([m] + rest)
  {
    var order := [m] + rest;
    assert forall i :: 0 < i < |order| ==> order[i] == rest[i - 1];
  }

  /** Every set of secrets has such an order. */
  lemma {:induction false} MaskOrderExists(secrets: set<string>) returns (order: seq<string>)
    ensures IsMaskOrder(order, secrets)
    decreases secrets
  {
    if LongOf(secrets) == {} {
      order := [];
      assert forall s :: s in secrets && ByteLen(s) >= 8 ==> s in LongOf(secrets);
    } else {
      var m := Longest(LongOf(secrets));
      var rest := MaskOrderExists(secrets - {m});
      ListsOneMore(m, rest, secrets);
      forall i | 0 <= i < |rest|
        ensures rest[i] != m && ByteLen(rest[i]) <= ByteLen(m)
      {
        assert rest[i] in rest;
        assert rest[i] in LongOf(secrets);
      }
      StartsWithLongest(m, rest);
      order := [m] + rest;
    }
  }

  lemma MaskOrderUsable(order: seq<string>, secrets: set<string>)
    requires IsMaskOrder(order, secrets)
    ensures Usable(order)
  {
    forall i | 0 <= i < |order|
      ensures order[i] != []
    {
      assert order[i] in order;
    }
  }

  predicate Usable(order: seq<string>) {
    forall i :: 0 <= i < |order| ==> order[i] != []
  }

  function Sanitize(v: Json, order: seq<string>): (r: Json)
    requires Usable(order)
    decreases v
  {
    match v
    case Obj(fields) => Obj(SanitizeFields(fields, order))
    case Arr(items) => Arr(SanitizeItems(items, order))
    case Str(s) => Str(Mask(s, order))
    case _ => v
  }

  function SanitizeFields(fields: List<Field>, order: seq<string>): (r: List<Field>)
    requires Usable(order)
    decreases fields
  {
    if fields.Nil? then Nil
    else
      var Field(key, value) := fields.head;
      Cons(Field(key, if IsCredentialKey(key) then Str(REDACTED) else Sanitize(value, order)),
           SanitizeFields(fields.tail, order))
  }

  function SanitizeItems(items: List<Json>, order: seq<string>): (r: List<Json>)
    requires Usable(order)
    decreases items
  {
    if items.Nil? then Nil else Cons(Sanitize(items.head, order), SanitizeItems(items.tail, order))
  }

  // ------------------------------------------------------------------ sanitizing twice is sanitizing once

  /** The only secret a sanitized value still holds is the marker. */
  lemma {:induction false} SecretsOfSanitized(v: Json, order: seq<string>)
    requires Usable(order)
    ensures EchoSecrets(Sanitize(v, order)) <= {REDACTED}
    decreases v, 1
  {
    match v
    case Obj(fields) => FieldSecretsOfSanitized(fields, order);
    case Arr(items) => ItemSecretsOfSanitized(items, order);
    case _ =>
  }

  lemma {:induction false} FieldSecretsOfSanitized(fields: List<Field>, order: seq<string>)
    requires Usable(order)
    ensures FieldSecrets(SanitizeFields(fields, order)) <= {REDACTED}
    decreases fields, 0
  {
    if fields.Cons? {
      SecretsOfSanitized(fields.head.value, order);
      FieldSecretsOfSanitized(fields.tail, order);
    }
  }

  lemma {:induction false} ItemSecretsOfSanitized(items: List<Json>, order: seq<string>)
    requires Usable(order)
    ensures ItemSecrets(SanitizeItems(items, order)) <= {REDACTED}
    decreases items, 0
  {
    if items.Cons? {
      SecretsOfSanitized(items.head, order);
      ItemSecretsOfSanitized(items.tail, order);
    }
  }

  /** With only the marker to mask, a sanitized value stays as it is. */
  lemma {:induction false} SanitizedIsFixed(v: Json, first: seq<string>, order: seq<string>)
    requires Usable(first) && forall i :: 0 <= i < |order| ==> order[i] == REDACTED
    ensures Sanitize(Sanitize(v, first), order) == Sanitize(v, first)
    decreases v, 1
  {
    match v
    case Obj(fields) => SanitizedFieldsAreFixed(fields, first, order);
    case Arr(items) => SanitizedItemsAreFixed(items, first, order);
    case Str(s) => MaskMarkerOnly(Mask(s, first), order);
    case _ =>
  }

  lemma {:induction false} SanitizedFieldsAreFixed(fields: List<Field>, first: seq<string>, order: seq<string>)
    requires Usable(first) && forall i :: 0 <= i < |order| ==> order[i] == REDACTED
    ensures SanitizeFields(SanitizeFields(fields, first), order) == SanitizeFields(fields, first)
    decreases fields, 0
  {
    if fields.Cons? {
      SanitizedIsFixed(fields.head.value, first, order);
      SanitizedFieldsAreFixed(fields.tail, first, order);
    }
  }

  lemma {:induction false} SanitizedItemsAreFixed(items: List<Json>, first: seq<string>, order: seq<string>)
    requires Usable(first) && forall i :: 0 <= i < |order| ==> order[i] == REDACTED
    ensures SanitizeItems(SanitizeItems(items, first), order) == SanitizeItems(items, first)
    decreases items, 0
  {
    if items.Cons? {
      SanitizedIsFixed(items.head, first, order);
      SanitizedItemsAreFixed(items.tail, first, order);
    }
  }

  /** SANITIZING IS IDEMPOTENT, whichever tie order either pass happens to use. */
  lemma SanitizeIdempotent(v: Json, first: seq<string>, second: seq<string>)
    requires IsMaskOrder(first, EchoSecrets(v)) && Usable(first)
    requires IsMaskOrder(second, EchoSecrets(Sanitize(v, first)))
    ensures Usable(second) && Sanitize(Sanitize(v, first), second) == Sanitize(v, first)
  {
    SecretsOfSanitized(v, first);
    forall i | 0 <= i < |second|
      ensures second[i] == REDACTED
    {
      assert second[i] in second;
    }
    SanitizedIsFixed(v, first, second);
  }

  // ------------------------------------------------------------------ the shape survives

  /** The value at position `p`. */
  function ValueAt(v: Json, p: List<nat>): (r: Option<Json>)
    decreases p
  {
    if p.Nil? then Some(v)
    else match v
      case Obj(fields) => if p.head < Length(fields) then ValueAt(Nth(fields, p.head).value, p.tail) else None
      case Arr(items) => if p.head < Length(items) then ValueAt(Nth(items, p.head), p.tail) else None
      case _ => None
  }

  /** What sanitizing leaves at position `p`: the marker at a credential field, nothing below one,
      and everywhere else the same kind of value with the same keys and the same length. */
  predicate ShapeKept(v: Json, w: Json, p: List<nat>, order: seq<string>)
    requires Usable(order)
    decreases p
  {
    if p.Nil? then
      match v
      case Obj(fields) => w.Obj? && Keys(w.fields) == Keys(fields)
      case Arr(items) => w.Arr? && Length(w.items) == Length(items)
      case Str(s) => w == Str(Mask(s, order))
      case _ => w == v
    else match v
      case Obj(fields) =>
        p.head < Length(fields) ==>
          && w.Obj? && Length(w.fields) == Length(fields)
          && (if IsCredentialKey(Nth(fields, p.head).key) then Nth(w.fields, p.head).value == Str(REDACTED)
              else ShapeKept(Nth(fields, p.head).value, Nth(w.fields, p.head).value, p.tail, order))
      case Arr(items) =>
        p.head < Length(items) ==>
          && w.Arr? && Length(w.items) == Length(items)
          && ShapeKept(Nth(items, p.head), Nth(w.items, p.head), p.tail, order)
      case _ => true
  }

  function Keys(fields: List<Field>): (r: List<string>) {
    if fields.Nil? then Nil else Cons(fields.head.key, Keys(fields.tail))
  }

  lemma {:induction false} FieldsKept(fields: List<Field>, order: seq<string>, i: nat)
    requires Usable(order) && i < Length(fields)
    ensures var r := SanitizeFields(fields, order);
            && Keys(r) == Keys(fields) && Length(r) == Length(fields)
            && Nth(r, i).value == (if IsCredentialKey(Nth(fields, i).key) then Str(REDACTED)
                                   else Sanitize(Nth(fields, i).value, order))
  {
    if fields.tail.Cons? {
      FieldsKept(fields.tail, order, if i > 0 then i - 1 else 0);
    }
  }

  lemma {:induction false} ItemsKept(items: List<Json>, order: seq<string>, i: nat)
    requires Usable(order) && i < Length(items)
    ensures var r := SanitizeItems(items, order);
            Length(r) == Length(items) && Nth(r, i) == Sanitize(Nth(items, i), order)
  {
    if items.tail.Cons? {
      ItemsKept(items.tail, order, if i > 0 then i - 1 else 0);
    }
  }

  /** SANITIZING KEEPS THE SHAPE at every position of every tree. */
  lemma {:induction false} SanitizeKeepsShape(v: Json, p: List<nat>, order: seq<string>)
    requires Usable(order)
    ensures ShapeKept(v, Sanitize(v, order), p, order)
    decreases p
  {
    match v
    case Obj(fields) =>
      if fields.Cons? {
        var i := if p.Cons? && p.head < Length(fields) then p.head else 0;
        FieldsKept(fields, order, i);
        if p.Cons? {
          SanitizeKeepsShape(Nth(fields, i).value, p.tail, order);
        }
      }
    case Arr(items) =>
      if items.Cons? {
        var i := if p.Cons? && p.head < Length(items) then p.head else 0;
        ItemsKept(items, order, i);
        if p.Cons? {
          SanitizeKeepsShape(Nth(items, i), p.tail, order);
        }
      }
    case _ =>
  }

  /** NO ECHO SURVIVES: no text anywhere in a sanitized value contains a masked secret that does not
      overlap the marker. */
  lemma {:induction false} NoEchoSurvives(v: Json, order: seq<string>, p: List<nat>, q: string)
    requires Usable(order) && q in order && !Overlaps(q)
    ensures var r := ValueAt(Sanitize(v, order), p); r.Some? && r.value.Str? ==> !Contains(r.value.s, q)
    decreases p
  {
    match v
    case Obj(fields) =>
      if p.Cons? && p.head < Length(fields) {
        FieldsKept(fields, order, p.head);
        NoEchoSurvives(Nth(fields, p.head).value, order, p.tail, q);
        MarkerIsClean(q);
      } else if fields.Cons? {
        FieldsKept(fields, order, 0);
      }
    case Arr(items) =>
      if p.Cons? && p.head < Length(items) {
        ItemsKept(items, order, p.head);
        NoEchoSurvives(Nth(items, p.head), order, p.tail, q);
      } else if items.Cons? {
        ItemsKept(items, order, 0);
      }
    case Str(s) => MaskRemoves(s, order, q);
    case _ =>
  }

  lemma MarkerIsClean(q: string)
    requires q != [] && !Overlaps(q)
    ensures !Contains(REDACTED, q)
  {
    var at := Find(REDACTED, q);
    if at.Some? {
      MeetsMarker(q, REDACTED, at.value, 0);
    }
  }

  // ------------------------------------------------------------------ no code is invented

  predicate Subsequence(a: seq<ExitCode>, b: seq<ExitCode>) {
    a == [] || (b != [] && ((a[0] == b[0] && Subsequence(a[1..], b[1..])) || Subsequence(a, b[1..])))
  }

  lemma {:induction false} SubsequenceSkip(a: seq<ExitCode>, b: seq<ExitCode>, c: seq<ExitCode>)
    requires Subsequence(a, c)
    ensures Subsequence(a, b + c)
  {
    if b == [] {
      assert b + c == c;
    } else {
      SubsequenceSkip(a, b[1..], c);
      assert (b + c)[1..] == b[1..] + c;
    }
  }

  lemma {:induction false} SubsequenceConcat(a: seq<ExitCode>, b: seq<ExitCode>, c: seq<ExitCode>, d: seq<ExitCode>)
    requires Subsequence(a, b) && Subsequence(c, d)
    ensures Subsequence(a + c, b + d)
    decreases b
  {
    if a == [] {
      assert a + c == c;
      SubsequenceSkip(c, b, d);
    } else {
      assert (b + d)[1..] == b[1..] + d && (a + c)[1..] == a[1..] + c;
      if a[0] == b[0] && Subsequence(a[1..], b[1..]) {
        SubsequenceConcat(a[1..], b[1..], c, d);
      } else {
        SubsequenceConcat(a, b[1..], c, d);
      }
    }
  }

  /** A text that shows the marker spells no number. */
  lemma MarkedIsNoCode(s: string)
    requires Contains(s, REDACTED)
    ensures ReadCode(Str(s)).None?
  {
    var at := Find(s, REDACTED).value;
    assert s[at + 0] == REDACTED[0];
    var a, b := TrimSplits(s);
    var t := Trim(s);
    var k := at - |a|;
    assert 0 <= k < |t| && t[k] == '<';
    assert HexBody(t).Some? ==> k >= 2 && t[2..][k - 2] == '<';
    BracketIsNoNumber(t, 10, k);
    if HexBody(t).Some? {
      BracketIsNoNumber(t[2..], 16, k - 2);
    }
  }

  lemma BracketIsNoNumber(s: string, radix: nat, k: nat)
    requires k < |s| && s[k] == '<'
    ensures ParseI64(s, radix).None?
  {
    if s[0] == '+' || s[0] == '-' {
      assert s[1..][k - 1] == '<';
    }
  }

  lemma SanitizedCode(field: Field, order: seq<string>, f: Family, path: string)
    requires Usable(order) && !IsCredentialKey(field.key)
    ensures var own := OwnCode(f, Field(field.key, Sanitize(field.value, order)), path);
            own == OwnCode(f, field, path) || own.None?
  {
    if field.value.Str? {
      var s := field.value.s;
      MaskShows(s, order);
      if Mask(s, order) != s {
        MarkedIsNoCode(Mask(s, order));
      }
    }
  }

  /** SANITIZING INVENTS NO CODE: what a reader collects from the sanitized value is what it would
      have collected from the original, with some left out. */
  lemma {:induction false} SanitizeInventsNothing(f: Family, v: Json, order: seq<string>, path: string)
    requires Usable(order)
    ensures Subsequence(Codes(f, Sanitize(v, order), path), Codes(f, v, path))
    decreases v, 1
  {
    match v
    case Obj(fields) => FieldsInventNothing(f, fields, order, path);
    case Arr(items) => ItemsInventNothing(f, items, order, path, 0);
    case _ =>
  }

  lemma {:induction false} FieldsInventNothing(f: Family, fields: List<Field>, order: seq<string>, path: string)
    requires Usable(order)
    ensures Subsequence(FieldCodes(f, SanitizeFields(fields, order), path), FieldCodes(f, fields, path))
    decreases fields, 0
  {
    if fields.Cons? {
      var field, stage := fields.head, Stage(path, fields.head.key);
      var clean := SanitizeFields(fields, order).head;
      var own, inner := OwnCodes(f, field, path), Codes(f, field.value, stage);
      var own', inner' := OwnCodes(f, clean, path), Codes(f, clean.value, stage);
      FieldsInventNothing(f, fields.tail, order, path);
      assert Subsequence(own' + inner', own + inner) by {
        if IsCredentialKey(field.key) {
          CredentialIsNoCode(f, clean, path, stage);
        } else {
          SanitizeInventsNothing(f, field.value, order, stage);
          SanitizedCode(field, order, f, path);
          SubsequenceConcat(own', own, inner', inner);
        }
      }
      SubsequenceConcat(own' + inner', own + inner,
                        FieldCodes(f, SanitizeFields(fields.tail, order), path), FieldCodes(f, fields.tail, path));
    }
  }

  lemma CredentialIsNoCode(f: Family, field: Field, path: string, stage: string)
    requires field.value == Str(REDACTED)
    ensures OwnCodes(f, field, path) + Codes(f, field.value, stage) == []
  {
    assert OccursAt(REDACTED, REDACTED, 0);
    MarkedIsNoCode(REDACTED);
  }

  lemma {:induction false} ItemsInventNothing(f: Family, items: List<Json>, order: seq<string>, path: string, i: nat)
    requires Usable(order)
    ensures Subsequence(ItemCodes(f, SanitizeItems(items, order), path, i), ItemCodes(f, items, path, i))
    decreases items, 0
  {
    if items.Cons? {
      var stage := ItemStage(path, i);
      SanitizeInventsNothing(f, items.head, order, stage);
      ItemsInventNothing(f, items.tail, order, path, i + 1);
      SubsequenceConcat(Codes(f, Sanitize(items.head, order), stage), Codes(f, items.head, stage),
                        ItemCodes(f, SanitizeItems(items.tail, order), path, i + 1),
                        ItemCodes(f, items.tail, path, i + 1));
    }
  }
}
