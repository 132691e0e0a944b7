/** The string operations of the Rust standard library that the client leans on:
    `trim`, `find`, `split_once`, `replace`, and the UTF-8 length of a text. */
module Text {
  import opened Wrappers

  /** Unicode `White_Space`, which is what `str::trim` strips. */
  predicate IsSpace(c: char) {
    var n := c as int;
    || 9 <= n <= 13 || n == 0x20 || n == 0x85 || n == 0xA0 || n == 0x1680
    || 0x2000 <= n <= 0x200A || n == 0x2028 || n == 0x2029 || n == 0x202F || n == 0x205F || n == 0x3000
  }

  predicate Blank(s: string) {
    forall i :: 0 <= i < |s| ==> IsSpace(s[i])
  }

  /** Nothing for `trim` to remove. */
  predicate Trimmed(s: string) {
    s == [] || (!IsSpace(s[0]) && !IsSpace(s[|s| - 1]))
  }

  function TrimStart(s: string): (r: string) {
    if s != [] && IsSpace(s[0]) then TrimStart(s[1..]) else s
  }

  function TrimEnd(s: string): (r: string) {
    if s != [] && IsSpace(s[|s| - 1]) then TrimEnd(s[..|s| - 1]) else s
  }

  function Trim(s: string): (r: string) {
    TrimEnd(TrimStart(s))
  }

  lemma {:induction false} TrimStartSplits(s: string) returns (a: string)
    ensures Blank(a) && s == a + TrimStart(s)
    ensures TrimStart(s) != [] ==> !IsSpace(TrimStart(s)[0])
  {
    a := [];
    if s != [] && IsSpace(s[0]) {
      a := TrimStartSplits(s[1..]);
      a := [s[0]] + a;
    }
  }

  lemma {:induction false} TrimEndSplits(s: string) returns (b: string)
    ensures Blank(b) && s == TrimEnd(s) + b
    ensures var r := TrimEnd(s); r != [] ==> !IsSpace(r[|r| - 1])
  {
    b := [];
    if s != [] && IsSpace(s[|s| - 1]) {
      b := TrimEndSplits(s[..|s| - 1]);
      b := b + [s[|s| - 1]];
    }
  }

  lemma {:induction false} TrimStartPadded(a: string, t: string)
    requires Blank(a) && (t == [] || !IsSpace(t[0]))
    ensures TrimStart(a + t) == t
  {
    if a == [] {
      assert a + t == t;
    } else {
      TrimStartPadded(a[1..], t);
      assert (a + t)[0] == a[0] && (a + t)[1..] == a[1..] + t;
    }
  }

  lemma {:induction false} TrimEndPadded(t: string, b: string)
    requires Blank(b) && (t == [] || !IsSpace(t[|t| - 1]))
    ensures TrimEnd(t + b) == t
  {
    if b == [] {
      assert t + b == t;
    } else {
      TrimEndPadded(t, b[..|b| - 1]);
      var s := t + b;
      assert s[|s| - 1] == b[|b| - 1] && s[..|s| - 1] == t + b[..|b| - 1];
    }
  }

  /** `Trim` finds the one trimmed text that blanks on either side surround. */
  lemma TrimPadded(a: string, body: string, b: string)
    requires Blank(a) && Blank(b) && Trimmed(body)
    ensures Trim(a + body + b) == body
  {
    if body == [] {
      TrimStartPadded(a + b, []);
      assert a + body + b == (a + b) + [];
    } else {
      TrimStartPadded(a, body + b);
      assert a + body + b == a + (body + b);
      TrimEndPadded(body, b);
    }
  }

  lemma TrimSplits(s: string) returns (a: string, b: string)
    ensures Blank(a) && Blank(b) && s == a + Trim(s) + b && Trimmed(Trim(s))
  {
    a := TrimStartSplits(s);
    b := TrimEndSplits(TrimStart(s));
  }

  lemma TrimOfTrimmed(s: string)
    requires Trimmed(s)
    ensures Trim(s) == s
  {
    TrimPadded([], s, []);
    assert [] + s + [] == s;
  }

  lemma TrimEmptyIffBlank(s: string)
    ensures Trim(s) == [] <==> Blank(s)
  {
    if Blank(s) {
      TrimPadded(s, [], []);
      assert s + [] + [] == s;
    }
    if Trim(s) == [] {
      var a, b := TrimSplits(s);
    }
  }

  /** `body`, with blanks around it. */
  ghost predicate Around(s: string, body: string) {
    exists a, b :: Blank(a) && Blank(b) && s == a + body + b
  }

  /** `Trim` finds the one trimmed text that blanks surround. */
  lemma AroundExactly(s: string, body: string)
    requires Trimmed(body)
    ensures Around(s, body) <==> Trim(s) == body
  {
    var c, d := TrimSplits(s);
    if a, b :| Blank(a) && Blank(b) && s == a + body + b {
      TrimPadded(a, body, b);
    }
  }

  lemma TrimIsAround(s: string)
    ensures Around(s, Trim(s)) && Trimmed(Trim(s))
  {
    var a, b := TrimSplits(s);
  }

  lemma JoinsText(x: string, y: string, z: string, a: string, b: string)
    requires x == a + y && y == b + z
    ensures x == (a + b) + z
  {
  }

  predicate OccursAt(s: string, p: string, i: nat) {
    i + |p| <= |s| && forall k :: 0 <= k < |p| ==> s[i + k] == p[k]
  }

  lemma NotAt(s: string, p: string, i: nat)
    requires i < |s| && p != [] && s[i] != p[0]
    ensures !OccursAt(s, p, i)
  {
    assert s[i + 0] != p[0];
  }

  lemma OccursAsSlice(s: string, p: string, i: nat)
    ensures OccursAt(s, p, i) <==> i + |p| <= |s| && s[i..i + |p|] == p
  {
    if i + |p| <= |s| {
      var t := s[i..i + |p|];
      assert forall k :: 0 <= k < |p| ==> t[k] == s[i + k];
    }
  }

  /** Where `p` first occurs in `s`, at or after `i`. */
  function FindFrom(s: string, p: string, i: nat): (r: Option<nat>)
    ensures r.Some? ==> i <= r.value && OccursAt(s, p, r.value)
    ensures forall j: nat :: i <= j && (r.Some? ==> j < r.value) ==> !OccursAt(s, p, j)
    decreases |s| + 1 - i
  {
    if i > |s| then None
    else if OccursAt(s, p, i) then Some(i)
    else FindFrom(s, p, i + 1)
  }

  /** Where the character `c` first occurs in `s`, at or after `i`. */
  function FindChar(s: string, c: char, i: nat): (r: Option<nat>)
    ensures r.Some? ==> i <= r.value < |s| && s[r.value] == c
    ensures forall j :: i <= j < (if r.Some? then r.value else |s|) ==> s[j] != c
    decreases |s| - i
  {
    if i >= |s| then None else if s[i] == c then Some(i) else FindChar(s, c, i + 1)
  }

  function Find(s: string, p: string): (r: Option<nat>)
    ensures r.Some? ==> OccursAt(s, p, r.value)
    ensures forall j: nat :: (r.Some? ==> j < r.value) ==> !OccursAt(s, p, j)
  {
    FindFrom(s, p, 0)
  }

  lemma FindIs(s: string, p: string, from: nat, i: nat)
    requires from <= i && OccursAt(s, p, i) && forall j: nat :: from <= j < i ==> !OccursAt(s, p, j)
    ensures FindFrom(s, p, from) == Some(i)
  {
  }

  predicate Contains(s: string, p: string) {
    Find(s, p).Some?
  }

  /** `str::split_once`. */
  function SplitOnce(s: string, p: string): (r: Option<(string, string)>)
    ensures r.Some? ==> s == r.value.0 + p + r.value.1
    ensures r.None? <==> !Contains(s, p)
  {
    var at := Find(s, p);
    if at.None? then None
    else
      OccursAsSlice(s, p, at.value);
      Some((s[..at.value], s[at.value + |p|..]))
  }

  /** `s` from `i` on with every occurrence of `p` replaced by `m`, left to right and never inside a
      replaced one. */
  function ReplaceFrom(s: string, p: string, m: string, i: nat): (r: string)
    requires p != []
    decreases |s| - i
  {
    if i >= |s| then []
    else if OccursAt(s, p, i) then m + ReplaceFrom(s, p, m, i + |p|)
    else [s[i]] + ReplaceFrom(s, p, m, i + 1)
  }

  /** `str::replace`. */
  function Replace(s: string, p: string, m: string): (r: string)
    requires p != []
  {
    ReplaceFrom(s, p, m, 0)
  }

  function LowerChar(c: char): char {
    if 'A' <= c <= 'Z' then (c as int + 32) as char else c
  }

  /** `to_ascii_lowercase`. */
  function Lower(s: string): (r: string)
    ensures |r| == |s|
  {
    if s == [] then [] else [LowerChar(s[0])] + Lower(s[1..])
  }

  /** Bytes of one character in UTF-8. */
  function Utf8Width(c: char): (n: nat)
    ensures 1 <= n <= 4
  {
    var n := c as int;
    if n < 0x80 then 1 else if n < 0x800 then 2 else if n < 0x10000 then 3 else 4
  }

  /** `str::len`: bytes, not characters. */
  function ByteLen(s: string): (n: nat)
    ensures |s| <= n <= 4 * |s|
  {
    if s == [] then 0 else Utf8Width(s[0]) + ByteLen(s[1..])
  }
}
