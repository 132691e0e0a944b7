/** `mask_exact_secrets`: what replacing a list of secrets by the marker does to one text. */
module Masking {
  import opened Text

  const REDACTED := "<redacted>"

  /** Every secret of `order` replaced in turn. */
  function Mask(text: string, order: seq<string>): (r: string)
    requires forall i :: 0 <= i < |order| ==> order[i] != []
    decreases order
  {
    if order == [] then text else Mask(Replace(text, order[0], REDACTED), order[1..])
  }

  method MaskLoop(text: string, order: seq<string>) returns (masked: string)
    requires forall i :: 0 <= i < |order| ==> order[i] != []
    ensures masked == Mask(text, order)
  {
    masked := text;
    var rest := order;
    while rest != []
      invariant forall i :: 0 <= i < |rest| ==> rest[i] != []
      invariant Mask(text, order) == Mask(masked, rest)
    {
      masked, rest := Replace(masked, rest[0], REDACTED), rest[1..];
    }
  }

  // ------------------------------------------------------------------ one replacement

  lemma {:induction false} ReplaceAbsentFrom(s: string, p: string, m: string, i: nat)
    requires p != [] && i <= |s| && forall j: nat :: i <= j ==> !OccursAt(s, p, j)
    ensures ReplaceFrom(s, p, m, i) == s[i..]
    decreases |s| - i
  {
    if i < |s| {
      ReplaceAbsentFrom(s, p, m, i + 1);
    }
  }

  lemma ReplaceAbsent(s: string, p: string, m: string)
    requires p != [] && !Contains(s, p)
    ensures Replace(s, p, m) == s
  {
    ReplaceAbsentFrom(s, p, m, 0);
  }

  /** Replacing a text by itself changes nothing. */
  lemma {:induction false} ReplaceSameFrom(s: string, p: string, i: nat)
    requires p != [] && i <= |s|
    ensures ReplaceFrom(s, p, p, i) == s[i..]
    decreases |s| - i
  {
    if i < |s| {
      if OccursAt(s, p, i) {
        ReplaceSameFrom(s, p, i + |p|);
        OccursAsSlice(s, p, i);
        assert s[i..] == s[i..i + |p|] + s[i + |p|..];
      } else {
        ReplaceSameFrom(s, p, i + 1);
      }
    }
  }

  lemma OccursBehind(a: string, b: string, w: string, i: nat)
    ensures OccursAt(b, w, i) <==> OccursAt(a + b, w, |a| + i)
  {
    if |a| + i + |w| <= |a + b| {
      forall k | 0 <= k < |w|
        ensures b[i + k] == w[k] <==> (a + b)[|a| + i + k] == w[k]
      {
      }
    }
  }

  lemma {:induction false} ReplacePresentFrom(s: string, p: string, m: string, i: nat, at: nat)
    requires p != [] && i <= at && OccursAt(s, p, at)
    ensures Contains(ReplaceFrom(s, p, m, i), m)
    decreases |s| - i
  {
    var r := ReplaceFrom(s, p, m, i);
    if OccursAt(s, p, i) {
      assert OccursAt(r, m, 0);
    } else {
      ReplacePresentFrom(s, p, m, i + 1, at);
      var rest := ReplaceFrom(s, p, m, i + 1);
      OccursBehind([s[i]], rest, m, Find(rest, m).value);
    }
  }

  /** A replaced occurrence leaves the marker behind. */
  lemma ReplacePresent(s: string, p: string, m: string)
    requires p != [] && Contains(s, p)
    ensures Contains(Replace(s, p, m), m)
  {
    ReplacePresentFrom(s, p, m, 0, Find(s, p).value);
  }

  // ------------------------------------------------------------------ masking is all or marked

  /** A masked text is the text itself, or it shows the marker. */
  lemma {:induction false} MaskShows(text: string, order: seq<string>)
    requires forall i :: 0 <= i < |order| ==> order[i] != []
    ensures Mask(text, order) == text || Contains(Mask(text, order), REDACTED)
    ensures Contains(text, REDACTED) ==> Contains(Mask(text, order), REDACTED)
    decreases order
  {
    if order != [] {
      var next := Replace(text, order[0], REDACTED);
      if Contains(text, order[0]) {
        ReplacePresent(text, order[0], REDACTED);
      } else {
        ReplaceAbsent(text, order[0], REDACTED);
      }
      MaskShows(next, order[1..]);
    }
  }

  /** With nothing but the marker to replace, nothing changes. */
  lemma {:induction false} MaskMarkerOnly(text: string, order: seq<string>)
    requires forall i :: 0 <= i < |order| ==> order[i] == REDACTED
    ensures Mask(text, order) == text
  {
    if order != [] {
      ReplaceSameFrom(text, REDACTED, 0);
      MaskMarkerOnly(text, order[1..]);
    }
  }

  // ------------------------------------------------------------------ masking is complete
  //
  // A replacement can spell a secret anew only across the marker it leaves. `Meets(q, k)` lays the
  // secret over the marker, starting `k` characters into it (before it, if `k` is negative).

  predicate Meets(q: string, k: int) {
    && -|q| < k < |REDACTED|
    && forall i :: 0 <= i < |q| && 0 <= k + i < |REDACTED| ==> q[i] == REDACTED[k + i]
  }

  /** Some part of the secret reads as some part of the marker, with the rest outside it. */
  predicate Overlaps(q: string) {
    exists k {:trigger Meets(q, k)} :: -|q| < k < |REDACTED| && Meets(q, k)
  }

  /** The first `n` characters of the result are copied, and nothing was replaced there. */
  predicate Copied(s: string, p: string, i: nat, n: nat)
    requires p != []
  {
    var r := ReplaceFrom(s, p, REDACTED, i);
    && n <= |r| && i + n <= |s|
    && (forall k :: 0 <= k < n ==> r[k] == s[i + k])
    && (forall j: nat :: i <= j < i + n ==> !OccursAt(s, p, j))
  }

  /** A marker starts within the first `n` characters of the result, the first at `at`. */
  predicate Marked(s: string, p: string, i: nat, n: nat, at: nat)
    requires p != []
  {
    at < n && Copied(s, p, i, at) && OccursAt(s, p, i + at)
    && OccursAt(ReplaceFrom(s, p, REDACTED, i), REDACTED, at)
  }

  /** COPIED OR MARKED: a prefix of the result shows the text as it was, or the start of a marker. */
  lemma {:induction false} CopiedOrMarked(s: string, p: string, i: nat, n: nat) returns (at: nat)
    requires p != [] && i <= |s| && n <= |ReplaceFrom(s, p, REDACTED, i)|
    ensures Copied(s, p, i, n) || Marked(s, p, i, n, at)
    decreases |s| - i
  {
    at := 0;
    if n > 0 && !OccursAt(s, p, i) {
      var r, rest := ReplaceFrom(s, p, REDACTED, i), ReplaceFrom(s, p, REDACTED, i + 1);
      assert r == [s[i]] + rest;
      at := CopiedOrMarked(s, p, i + 1, n - 1);
      CopiedOneMore(s, p, i, if Copied(s, p, i + 1, n - 1) then n - 1 else at);
      OccursBehind([s[i]], rest, REDACTED, at);
      at := at + 1;
    }
  }

  lemma CopiedOneMore(s: string, p: string, i: nat, n: nat)
    requires p != [] && i < |s| && !OccursAt(s, p, i) && Copied(s, p, i + 1, n)
    ensures Copied(s, p, i, n + 1)
  {
    var r, rest := ReplaceFrom(s, p, REDACTED, i), ReplaceFrom(s, p, REDACTED, i + 1);
    assert r == [s[i]] + rest;
    assert forall k :: 0 < k < n + 1 ==> r[k] == rest[k - 1] == s[i + 1 + (k - 1)];
  }

  /** Replacing `p` spells `q` at offset `m` to the marker: what `q` has before the marker, followed by
      `p`, holds no earlier occurrence of `p`. */
  predicate Respells(q: string, p: string, m: int) {
    Meets(q, m) && FirstBehind(Head(q, m), p)
  }

  /** In `a` followed by `p`, the first occurrence of `p` is the one behind `a`. */
  predicate FirstBehind(a: string, p: string) {
    forall j: nat :: j < |a| ==> !OccursAt(a + p, p, j)
  }

  /** What `q` has before and behind the marker when it starts `m` characters into it. */
  function Head(q: string, m: int): (a: string)
    requires -|q| < m
  {
    if m < 0 then q[..-m] else []
  }

  function Tail(q: string, m: int): (b: string)
    requires -|q| < m < |REDACTED|
  {
    if m + |q| > |REDACTED| then q[|REDACTED| - m..] else []
  }

  lemma RespellsOverlaps(q: string, p: string, m: int)
    ensures Respells(q, p, m) ==> Overlaps(q)
  {
  }

  lemma MeetsMarker(q: string, r: string, k: nat, at: nat)
    requires OccursAt(r, q, k) && OccursAt(r, REDACTED, at) && at < k + |q| && k < at + |REDACTED|
    ensures Meets(q, k - at)
  {
    forall i | 0 <= i < |q| && 0 <= k - at + i < |REDACTED|
      ensures q[i] == REDACTED[k - at + i]
    {
      assert r[k + i] == q[i];
      assert r[at + (k - at + i)] == REDACTED[k - at + i];
    }
  }

  /** Copied characters that spell the head of `q`, up to where `p` is replaced. */
  lemma RespellsAtMark(s: string, p: string, q: string, i: nat, at: nat)
    requires p != [] && Marked(s, p, i, |q|, at) && OccursAt(ReplaceFrom(s, p, REDACTED, i), q, 0)
    ensures Respells(q, p, 0 - at)
  {
    var r, a := ReplaceFrom(s, p, REDACTED, i), q[..at];
    MeetsMarker(q, r, 0, at);
    assert OccursAt(s, a + p, i) by {
      forall k | 0 <= k < |a + p|
        ensures s[i + k] == (a + p)[k]
      {
        if k < at {
          assert r[0 + k] == q[k];
        } else {
          assert s[(i + at) + (k - at)] == p[k - at];
        }
      }
    }
    forall j: nat | j < at
      ensures !OccursAt(a + p, p, j)
    {
      WithinOccurs(s, a + p, p, i, j);
    }
    assert Head(q, 0 - at) == a;
  }

  lemma WithinOccurs(s: string, w: string, p: string, i: nat, j: nat)
    requires OccursAt(s, w, i) && j + |p| <= |w|
    ensures OccursAt(s, p, i + j) <==> OccursAt(w, p, j)
  {
    forall k | 0 <= k < |p|
      ensures s[i + j + k] == p[k] <==> w[j + k] == p[k]
    {
      assert s[i + (j + k)] == w[j + k];
    }
  }

  /** What shows in the result was in the text, or is spelled across a marker. */
  lemma {:induction false} FoundOrRespelled(s: string, p: string, q: string, i: nat, k: nat) returns (m: int)
    requires p != [] && q != [] && OccursAt(ReplaceFrom(s, p, REDACTED, i), q, k)
    ensures Respells(q, p, m) || (q != p && Contains(s, q))
    decreases |s| - i
  {
    m := 0;
    var r := ReplaceFrom(s, p, REDACTED, i);
    if OccursAt(s, p, i) {
      var rest := ReplaceFrom(s, p, REDACTED, i + |p|);
      assert r == REDACTED + rest;
      if k < |REDACTED| {
        MeetsMarker(q, r, k, 0);
        m := k;
      } else {
        OccursBehind(REDACTED, rest, q, k - |REDACTED|);
        m := FoundOrRespelled(s, p, q, i + |p|, k - |REDACTED|);
      }
    } else if k > 0 {
      var rest := ReplaceFrom(s, p, REDACTED, i + 1);
      OccursBehind([s[i]], rest, q, k - 1);
      m := FoundOrRespelled(s, p, q, i + 1, k - 1);
    } else {
      var at := CopiedOrMarked(s, p, i, |q|);
      if Copied(s, p, i, |q|) {
        assert OccursAt(s, q, i) by {
          forall j | 0 <= j < |q|
            ensures s[i + j] == q[j]
          {
            assert r[0 + j] == q[j];
          }
        }
      } else {
        RespellsAtMark(s, p, q, i, at);
        var before: int := at;
        m := -before;
      }
    }
  }

  lemma ReplaceKeepsOut(s: string, p: string, q: string)
    requires p != [] && q != [] && !Overlaps(q) && (q == p || !Contains(s, q))
    ensures !Contains(Replace(s, p, REDACTED), q)
  {
    var at := Find(Replace(s, p, REDACTED), q);
    if at.Some? {
      var m := FoundOrRespelled(s, p, q, 0, at.value);
      RespellsOverlaps(q, p, m);
    }
  }

  lemma {:induction false} MaskKeepsOut(text: string, order: seq<string>, q: string)
    requires forall i :: 0 <= i < |order| ==> order[i] != []
    requires q != [] && !Overlaps(q) && !Contains(text, q)
    ensures !Contains(Mask(text, order), q)
    decreases order
  {
    if order != [] {
      ReplaceKeepsOut(text, order[0], q);
      MaskKeepsOut(Replace(text, order[0], REDACTED), order[1..], q);
    }
  }

  /** MASKING IS COMPLETE: whatever the text and whatever the order, no secret is left that does not
      overlap the marker. */
  lemma {:induction false} MaskRemoves(text: string, order: seq<string>, q: string)
    requires (forall i :: 0 <= i < |order| ==> order[i] != []) && q in order && !Overlaps(q)
    ensures !Contains(Mask(text, order), q)
    decreases order
  {
    var next := Replace(text, order[0], REDACTED);
    if order[0] == q {
      ReplaceKeepsOut(text, q, q);
      MaskKeepsOut(next, order[1..], q);
    } else {
      MaskRemoves(next, order[1..], q);
    }
  }

  // ------------------------------------------------------------------ and complete for no other secret

  /** Replacing the secrets in this order leaves `q` in no text. */
  ghost predicate Removes(order: seq<string>, q: string)
    requires forall i :: 0 <= i < |order| ==> order[i] != []
  {
    forall text :: !Contains(Mask(text, order), q)
  }

  lemma NotRemoved(order: seq<string>, q: string, text: string)
    requires (forall i :: 0 <= i < |order| ==> order[i] != []) && Contains(Mask(text, order), q)
    ensures !Removes(order, q)
  {
  }

  lemma AroundMarker(q: string, m: int)
    requires q != [] && Meets(q, m)
    ensures Contains(Head(q, m) + REDACTED + Tail(q, m), q)
  {
    var a, b := Head(q, m), Tail(q, m);
    var r, at: nat := a + REDACTED + b, if m < 0 then 0 else m;
    forall i | 0 <= i < |q|
      ensures r[at + i] == q[i]
    {
      if m + i < 0 {
        assert r[at + i] == a[i];
      } else if m + i < |REDACTED| {
        assert r[at + i] == REDACTED[m + i];
      } else {
        assert r[at + i] == b[m + i - |REDACTED|];
      }
    }
    assert OccursAt(r, q, at);
  }

  lemma {:induction false} CopiesUpTo(s: string, p: string, m: string, at: nat)
    requires p != [] && at <= |s| && forall j: nat :: j < at ==> !OccursAt(s, p, j)
    ensures ReplaceFrom(s, p, m, 0) == s[..at] + ReplaceFrom(s, p, m, at)
  {
    if at > 0 {
      var rest := ReplaceFrom(s, p, m, at);
      CopiesUpTo(s, p, m, at - 1);
      JoinsText(ReplaceFrom(s, p, m, 0), [s[at - 1]] + rest, rest, s[..at - 1], [s[at - 1]]);
      assert s[..at] == s[..at - 1] + [s[at - 1]];
    }
  }

  /** One occurrence, with nothing before it, is replaced by the marker. */
  lemma ReplacesOne(a: string, p: string, b: string)
    requires p != [] && !Contains(b, p) && FirstBehind(a, p)
    ensures Replace(a + p + b, p, REDACTED) == a + REDACTED + b
  {
    var s := a + p + b;
    assert OccursAt(s, a + p, 0) && OccursAt(s, p, |a|);
    forall j: nat | j < |a|
      ensures !OccursAt(s, p, j)
    {
      WithinOccurs(s, a + p, p, 0, j);
    }
    forall j: nat | |a| + |p| <= j
      ensures !OccursAt(s, p, j)
    {
      OccursBehind(a + p, b, p, j - |a| - |p|);
    }
    ReplacesAt(s, p, |a|);
    assert s[..|a|] == a && s[|a| + |p|..] == b;
  }

  lemma ReplacesAt(s: string, p: string, at: nat)
    requires p != [] && OccursAt(s, p, at) && forall j: nat :: j < at || at + |p| <= j ==> !OccursAt(s, p, j)
    ensures Replace(s, p, REDACTED) == s[..at] + REDACTED + s[at + |p|..]
  {
    CopiesUpTo(s, p, REDACTED, at);
    ReplaceAbsentFrom(s, p, REDACTED, at + |p|);
    JoinsText(Replace(s, p, REDACTED), REDACTED + s[at + |p|..], s[at + |p|..], s[..at], REDACTED);
  }

  lemma TooShort(b: string, q: string)
    requires |b| < |q|
    ensures !Contains(b, q)
  {
  }

  lemma MaskOne(text: string, q: string)
    requires q != []
    ensures Mask(text, [q]) == Replace(text, q, REDACTED)
  {
    assert [q][1..] == [];
  }

  /** The text in which masking `q` spells `q` anew. */
  lemma PutsBack(q: string, m: int)
    requires q != [] && Respells(q, q, m)
    ensures Contains(Mask(Head(q, m) + q + Tail(q, m), [q]), q)
  {
    var a, b := Head(q, m), Tail(q, m);
    TooShort(b, q);
    ReplacesOne(a, q, b);
    MaskOne(a + q + b, q);
    AroundMarker(q, m);
  }

  /** A secret that starts inside the marker is put back in the text made of it and its own tail. */
  lemma PutsBackInside(q: string, m: nat)
    requires q != [] && Meets(q, m)
    ensures Contains(Mask(q + Tail(q, m), [q]), q)
  {
    assert Head(q, m) + q == q;
    PutsBack(q, m);
  }

  /** ALONE, EXACTLY: masking a single secret removes it from every text if and only if no offset to
      the marker spells it anew. */
  lemma RemovedAloneExactly(q: string)
    requires q != []
    ensures Removes([q], q)
            <==> (forall m :: -|q| < m < |REDACTED| ==> !Respells(q, q, m))
  {
    forall text | Contains(Mask(text, [q]), q)
      ensures exists m :: -|q| < m < |REDACTED| && Respells(q, q, m)
    {
      MaskOne(text, q);
      var m := FoundOrRespelled(text, q, q, 0, Find(Replace(text, q, REDACTED), q).value);
      assert Respells(q, q, m);
    }
    if m :| -|q| < m < |REDACTED| && Respells(q, q, m) {
      PutsBack(q, m);
      NotRemoved([q], q, Head(q, m) + q + Tail(q, m));
    }
  }

  predicate Disjoint(p: string, q: string) {
    forall i, j :: 0 <= i < |p| && 0 <= j < |q| ==> p[i] != q[j]
  }

  lemma DisjointNowhere(a: string, p: string, b: string, q: string)
    requires p != [] && q != [] && Disjoint(p, q) && |a| < |q| && |b| < |q|
    ensures !Contains(a + p + b, q)
  {
    var s := a + p + b;
    forall j: nat
      ensures !OccursAt(s, q, j)
    {
      if j + |q| <= |s| {
        var k := if j <= |a| then |a| - j else 0;
        assert k < |q|;
        assert s[j + k] != q[k] || j > |a| by {
          if j <= |a| {
            assert s[|a|] == p[0];
          }
        }
        if j > |a| {
          assert j < |a| + |p|;
          assert s[j + 0] == p[j - |a|] != q[0];
        }
      }
    }
  }

  /** BESIDE ANOTHER, EXACTLY: with a second secret that shares no character with it and is replaced
      later, a secret is removed from every text if and only if it does not overlap the marker. */
  lemma RemovedBesideExactly(q: string, p: string)
    requires q != [] && p != [] && Disjoint(p, q)
    ensures Removes([q, p], q) <==> !Overlaps(q)
  {
    if !Overlaps(q) {
      forall text
        ensures !Contains(Mask(text, [q, p]), q)
      {
        MaskRemoves(text, [q, p], q);
      }
    } else {
      var m :| -|q| < m < |REDACTED| && Meets(q, m);
      SpelledBeside(q, p, m);
      NotRemoved([q, p], q, Head(q, m) + p + Tail(q, m));
    }
  }

  lemma SpelledBeside(q: string, p: string, m: int)
    requires q != [] && p != [] && Disjoint(p, q) && Meets(q, m)
    ensures Contains(Mask(Head(q, m) + p + Tail(q, m), [q, p]), q)
  {
    var a, b := Head(q, m), Tail(q, m);
    var text := a + p + b;
    DisjointNowhere(a, p, b, q);
    ReplaceAbsent(text, q, REDACTED);
    assert [q, p][1..] == [p];
    MaskOne(text, p);
    forall j: nat | j < |a|
      ensures !OccursAt(a + p, p, j)
    {
      assert (a + p)[j + 0] == q[j] != p[0];
    }
    forall j: nat
      ensures !OccursAt(b, p, j)
    {
      assert j < |b| ==> b[j + 0] == q[|REDACTED| - m + j] != p[0];
    }
    ReplacesOne(a, p, b);
    AroundMarker(q, m);
  }

  // ------------------------------------------------------------------ which secrets those are

  predicate BracketFree(s: string) {
    forall i :: 0 <= i < |s| ==> s[i] != '<' && s[i] != '>'
  }

  lemma {:induction false} AsciiBytes(s: string)
    requires forall i :: 0 <= i < |s| ==> (s[i] as int) < 0x80
    ensures ByteLen(s) == |s|
  {
    if s != [] {
      AsciiBytes(s[1..]);
    }
  }

  /** Without brackets, a secret long enough to be masked overlaps the marker only if it is the
      marker's own word. */
  lemma PlainOverlapsExactly(q: string)
    requires ByteLen(q) >= 8 && BracketFree(q)
    ensures Overlaps(q) <==> q == "redacted"
  {
    if q == "redacted" {
      assert Meets(q, 1);
    }
    if m :| -|q| < m < |REDACTED| && Meets(q, m) {
      PlainMeets(q, m);
    }
  }

  lemma PlainMeets(q: string, m: int)
    requires ByteLen(q) >= 8 && BracketFree(q) && Meets(q, m)
    ensures q == "redacted"
  {
    if m <= 0 {
      MeetsAt(q, m, -m);
    } else if m + |q| > 9 {
      MeetsAt(q, m, 9 - m);
    } else {
      forall i | 0 <= i < |q|
        ensures q[i] == REDACTED[m + i]
      {
        MeetsAt(q, m, i);
      }
      AsciiBytes(q);
      assert q == REDACTED[1..9];
    }
  }

  lemma MeetsAt(q: string, m: int, i: nat)
    requires Meets(q, m) && i < |q| && 0 <= m + i < |REDACTED|
    ensures q[i] == REDACTED[m + i]
  {
  }

  /** Two secrets of eight bytes that stay: one spelled inside the marker, one across its end. */
  lemma SecretsThatStay()
    ensures Contains(Mask("redacted", ["redacted"]), "redacted")
    ensures Contains(Mask(">passwrdpasswrd", [">passwrd"]), ">passwrd")
  {
    var q := "redacted";
    assert Meets(q, 1);
    PutsBack(q, 1);
    assert Head(q, 1) + q + Tail(q, 1) == q;
    var w := ">passwrd";
    assert Meets(w, 9);
    PutsBack(w, 9);
    assert Head(w, 9) + w + Tail(w, 9) == ">passwrdpasswrd";
  }
}
