/** `serde_json::Value`. An object keeps its fields in iteration order. */
module Json {
  import opened Wrappers
  import opened Lists
  import opened Numerals

  datatype Json =
    | Null
    | Bool(b: bool)
    | Int(n: int)            // an integer that serde holds as `i64` or `u64`
    | Float(text: string)
    | Str(s: string)
    | Arr(items: List<Json>)
    | Obj(fields: List<Field>)

  datatype Field = Field(key: string, value: Json)

  function FieldNamed(fields: List<Field>, key: string): (r: Option<Json>) {
    if fields.Nil? then None
    else if fields.head.key == key then Some(fields.head.value)
    else FieldNamed(fields.tail, key)
  }

  /** `value.get("key")`: the named field of an object, nothing of anything else. */
  function Get(v: Json, key: string): (r: Option<Json>) {
    if v.Obj? then FieldNamed(v.fields, key) else None
  }

  /** THE FIRST FIELD of that name is the one that is read. */
  lemma FieldNamedExactly(fields: List<Field>, key: string, v: Json)
    ensures FieldNamed(fields, key) == Some(v) <==>
            exists i: nat :: i < Length(fields) && IsFirst(fields, key, i) && Nth(fields, i).value == v
  {
    if FieldNamed(fields, key).Some? {
      var i := NamedPlace(fields, key);
    }
    if i: nat :| i < Length(fields) && IsFirst(fields, key, i) && Nth(fields, i).value == v {
      NamedThere(fields, key, i);
    }
  }

  lemma {:induction false} NamedPlace(fields: List<Field>, key: string) returns (i: nat)
    requires FieldNamed(fields, key).Some?
    ensures i < Length(fields) && IsFirst(fields, key, i) && FieldNamed(fields, key) == Some(Nth(fields, i).value)
  {
    i := 0;
    if fields.head.key != key {
      i := NamedPlace(fields.tail, key);
      i := i + 1;
    }
  }

  lemma {:induction false} NamedThere(fields: List<Field>, key: string, i: nat)
    requires i < Length(fields) && IsFirst(fields, key, i)
    ensures FieldNamed(fields, key) == Some(Nth(fields, i).value)
  {
    if i > 0 {
      NamedThere(fields.tail, key, i - 1);
    }
  }

  /** The `i`-th field is named `key`, and none before it is. */
  predicate IsFirst(fields: List<Field>, key: string, i: nat)
    requires i < Length(fields)
  {
    Nth(fields, i).key == key && (i > 0 ==> fields.head.key != key && IsFirst(fields.tail, key, i - 1))
  }

  function AsU64(v: Json): (r: Option<nat>) {
    if v.Int? && 0 <= v.n <= U64_MAX then Some(v.n) else None
  }

  function AsI64(v: Json): (r: Option<int>) {
    if v.Int? && I64_MIN <= v.n <= I64_MAX then Some(v.n) else None
  }
}
