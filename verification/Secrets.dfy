/** Which texts the sanitizer treats as secret, said by position in the tree: those below a field with a
    credential key. */
module Secrets {
  import opened Wrappers
  import opened Text
  import opened Lists
  import opened Json
  import opened Masking
  import opened Redaction

  /** A key whose value is masked wherever it is echoed. A message token is only replaced where it stands. */
  predicate IsEchoKey(key: string) {
    IsCredentialKey(key) && !IsExtMessageTokenKey(key)
  }

  /** A key is a credential in any case of its letters, or in none; and every message token is one. */
  lemma CredentialInAnyCase(a: string, b: string)
    requires Lower(a) == Lower(b)
    ensures IsCredentialKey(a) <==> IsCredentialKey(b)
    ensures IsEchoKey(a) <==> IsEchoKey(b)
    ensures IsExtMessageTokenKey(a) ==> IsCredentialKey(a)
  {
  }

  /** The text `s` stands at position `r`. */
  predicate TextAt(v: Json, r: List<nat>, s: string) {
    s != [] && ValueAt(v, r) == Some(Str(s))
  }

  /** The way to position `r` passes a credential field. */
  predicate PassesCredential(v: Json, r: List<nat>)
    decreases r
  {
    r.Cons? && match v
      case Obj(fields) =>
        r.head < Length(fields)
        && (IsEchoKey(Nth(fields, r.head).key) || PassesCredential(Nth(fields, r.head).value, r.tail))
      case Arr(items) => r.head < Length(items) && PassesCredential(Nth(items, r.head), r.tail)
      case _ => false
  }

  // ------------------------------------------------------------------ all texts of a value

  lemma {:induction false} StringsHold(v: Json, r: List<nat>, s: string)
    requires TextAt(v, r, s)
    ensures s in Strings(v)
    decreases r
  {
    if r.Cons? {
      match v
      case Obj(fields) =>
        StringsHold(Nth(fields, r.head).value, r.tail, s);
        FieldStringsHold(fields, r.head, s);
      case Arr(items) =>
        StringsHold(Nth(items, r.head), r.tail, s);
        ItemStringsHold(items, r.head, s);
    }
  }

  lemma {:induction false} FieldStringsHold(fields: List<Field>, i: nat, s: string)
    requires i < Length(fields) && s in Strings(Nth(fields, i).value)
    ensures s in FieldStrings(fields)
  {
    if i > 0 {
      FieldStringsHold(fields.tail, i - 1, s);
    }
  }

  lemma {:induction false} ItemStringsHold(items: List<Json>, i: nat, s: string)
    requires i < Length(items) && s in Strings(Nth(items, i))
    ensures s in ItemStrings(items)
  {
    if i > 0 {
      ItemStringsHold(items.tail, i - 1, s);
    }
  }

  lemma {:induction false} StringPlace(v: Json, s: string) returns (r: List<nat>)
    requires s in Strings(v)
    ensures TextAt(v, r, s)
    decreases v, 1
  {
    match v
    case Str(_) => r := Nil;
    case Obj(fields) => r := FieldStringPlace(fields, s);
    case Arr(items) => r := ItemStringPlace(items, s);
  }

  lemma {:induction false} FieldStringPlace(fields: List<Field>, s: string) returns (r: List<nat>)
    requires s in FieldStrings(fields)
    ensures r.Cons? && r.head < Length(fields) && TextAt(Nth(fields, r.head).value, r.tail, s)
    decreases fields, 0
  {
    if s in Strings(fields.head.value) {
      r := StringPlace(fields.head.value, s);
      r := Cons(0, r);
    } else {
      r := FieldStringPlace(fields.tail, s);
      r := Cons(r.head + 1, r.tail);
    }
  }

  lemma {:induction false} ItemStringPlace(items: List<Json>, s: string) returns (r: List<nat>)
    requires s in ItemStrings(items)
    ensures r.Cons? && r.head < Length(items) && TextAt(Nth(items, r.head), r.tail, s)
    decreases items, 0
  {
    if s in Strings(items.head) {
      r := StringPlace(items.head, s);
      r := Cons(0, r);
    } else {
      r := ItemStringPlace(items.tail, s);
      r := Cons(r.head + 1, r.tail);
    }
  }

  /** EVERY TEXT, EXACTLY: a text is collected if and only if it is not empty and stands somewhere. */
  lemma StringsExactly(v: Json, s: string)
    ensures s in Strings(v) <==> exists r :: TextAt(v, r, s)
  {
    if s in Strings(v) {
      var r := StringPlace(v, s);
    }
    if r :| TextAt(v, r, s) {
      StringsHold(v, r, s);
    }
  }

  // ------------------------------------------------------------------ the texts under credential keys

  /** The secrets one field contributes. */
  function OwnSecrets(field: Field): (r: set<string>) {
    if IsEchoKey(field.key) then Strings(field.value) else EchoSecrets(field.value)
  }

  predicate SecretAt(v: Json, r: List<nat>, s: string) {
    TextAt(v, r, s) && PassesCredential(v, r)
  }

  lemma {:induction false} SecretsHold(v: Json, r: List<nat>, s: string)
    requires SecretAt(v, r, s)
    ensures s in EchoSecrets(v)
    decreases r
  {
    match v
    case Obj(fields) =>
      var field := Nth(fields, r.head);
      if IsEchoKey(field.key) {
        StringsHold(field.value, r.tail, s);
      } else {
        SecretsHold(field.value, r.tail, s);
      }
      FieldSecretsHold(fields, r.head, s);
    case Arr(items) =>
      SecretsHold(Nth(items, r.head), r.tail, s);
      ItemSecretsHold(items, r.head, s);
  }

  lemma {:induction false} FieldSecretsHold(fields: List<Field>, i: nat, s: string)
    requires i < Length(fields) && s in OwnSecrets(Nth(fields, i))
    ensures s in FieldSecrets(fields)
  {
    if i > 0 {
      FieldSecretsHold(fields.tail, i - 1, s);
    }
  }

  lemma {:induction false} ItemSecretsHold(items: List<Json>, i: nat, s: string)
    requires i < Length(items) && s in EchoSecrets(Nth(items, i))
    ensures s in ItemSecrets(items)
  {
    if i > 0 {
      ItemSecretsHold(items.tail, i - 1, s);
    }
  }

  lemma {:induction false} SecretPlace(v: Json, s: string) returns (r: List<nat>)
    requires s in EchoSecrets(v)
    ensures SecretAt(v, r, s)
    decreases v, 1
  {
    match v
    case Obj(fields) =>
      var i, q := FieldSecretPlace(fields, s);
      r := Cons(i, q);
    case Arr(items) =>
      var i, q := ItemSecretPlace(items, s);
      r := Cons(i, q);
  }

  lemma {:induction false} FieldSecretPlace(fields: List<Field>, s: string) returns (i: nat, q: List<nat>)
    requires s in FieldSecrets(fields)
    ensures i < Length(fields) && TextAt(Nth(fields, i).value, q, s)
    ensures IsEchoKey(Nth(fields, i).key) || PassesCredential(Nth(fields, i).value, q)
    decreases fields, 0
  {
    var field := fields.head;
    if s in OwnSecrets(field) {
      i := 0;
      if IsEchoKey(field.key) {
        q := StringPlace(field.value, s);
      } else {
        q := SecretPlace(field.value, s);
      }
    } else {
      i, q := FieldSecretPlace(fields.tail, s);
      i := i + 1;
    }
  }

  lemma {:induction false} ItemSecretPlace(items: List<Json>, s: string) returns (i: nat, q: List<nat>)
    requires s in ItemSecrets(items)
    ensures i < Length(items) && SecretAt(Nth(items, i), q, s)
    decreases items, 0
  {
    if s in EchoSecrets(items.head) {
      i := 0;
      q := SecretPlace(items.head, s);
    } else {
      i, q := ItemSecretPlace(items.tail, s);
      i := i + 1;
    }
  }

  /** WHAT IS SECRET, EXACTLY: a text is masked elsewhere if and only if it is not empty and stands at or
      below a field with a credential key that is no message token. */
  lemma SecretExactly(v: Json, s: string)
    ensures s in EchoSecrets(v) <==> exists r :: SecretAt(v, r, s)
  {
    if s in EchoSecrets(v) {
      var r := SecretPlace(v, s);
    }
    if r :| SecretAt(v, r, s) {
      SecretsHold(v, r, s);
    }
  }

  /** NO CREDENTIAL IS ECHOED: a text of eight bytes or more below a credential key, that does not overlap
      the marker, stands in no text of the sanitized value, whatever order its secrets were replaced in. */
  lemma NoCredentialEchoed(v: Json, order: seq<string>, r: List<nat>, s: string, p: List<nat>)
    requires IsMaskOrder(order, EchoSecrets(v)) && Usable(order)
    requires SecretAt(v, r, s) && ByteLen(s) >= 8 && !Overlaps(s)
    ensures var w := ValueAt(Sanitize(v, order), p); w.Some? && w.value.Str? ==> !Contains(w.value.s, s)
  {
    SecretsHold(v, r, s);
    NoEchoSurvives(v, order, p, s);
  }

  // ------------------------------------------------------------------ why the longest come first

  lemma {:induction false} ByteLenAppend(a: string, b: string)
    ensures ByteLen(a + b) == ByteLen(a) + ByteLen(b)
  {
    if a == [] {
      assert a + b == b;
    } else {
      ByteLenAppend(a[1..], b);
      assert (a + b)[1..] == a[1..] + b;
    }
  }

  /** A text inside another takes fewer bytes, unless it is the other. */
  lemma InsideIsShorter(p: string, q: string, j: nat)
    requires OccursAt(p, q, j) && q != p
    ensures ByteLen(q) < ByteLen(p)
  {
    OccursAsSlice(p, q, j);
    var a, b := p[..j], p[j + |q|..];
    assert p == a + q + b;
    ByteLenAppend(a + q, b);
    ByteLenAppend(a, q);
    assert [] + q + [] == q;
  }

  lemma LongerIsAbsent(p: string, q: string)
    requires q != p && ByteLen(q) >= ByteLen(p)
    ensures !Contains(p, q)
  {
    var at := Find(p, q);
    if at.Some? {
      InsideIsShorter(p, q, at.value);
    }
  }

  lemma {:induction false} MarkerStays(order: seq<string>)
    requires Usable(order) && forall i :: 0 <= i < |order| ==> !Overlaps(order[i])
    ensures Mask(REDACTED, order) == REDACTED
  {
    if order != [] {
      MarkerIsClean(order[0]);
      ReplaceAbsent(REDACTED, order[0], REDACTED);
      MarkerStays(order[1..]);
    }
  }

  lemma ReplaceWhole(p: string)
    requires p != []
    ensures Replace(p, p, REDACTED) == REDACTED
  {
    assert OccursAt(p, p, 0);
    assert ReplaceFrom(p, p, REDACTED, |p|) == [];
    assert REDACTED + [] == REDACTED;
  }

  /** A SECRET IS MASKED WHOLE: because the longest are replaced first, no shorter secret inside another
      leaves a rest of it standing. */
  lemma {:induction false} MaskedWhole(order: seq<string>, p: string)
    requires Usable(order) && LongestFirst(order) && p in order
    requires forall i :: 0 <= i < |order| ==> !Overlaps(order[i])
    ensures Mask(p, order) == REDACTED
    decreases order
  {
    var q, rest := order[0], order[1..];
    if q == p {
      ReplaceWhole(p);
      MarkerStays(rest);
    } else {
      var k :| 0 < k < |order| && order[k] == p;
      LongerIsAbsent(p, q);
      ReplaceAbsent(p, q, REDACTED);
      assert rest[k - 1] == p;
      assert forall i :: 0 <= i < |rest| ==> rest[i] == order[i + 1];
      MaskedWhole(rest, p);
    }
  }
}
