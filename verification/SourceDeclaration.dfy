/** Which occurrence of a signature `body_of` takes for the declaration, and for which signatures that is
    the first one that starts a line. */
module SourceDeclaration {
  import opened Text
  import opened SourceProbe

  predicate Declares(source: string, signature: string, i: nat) {
    OccursAt(source, signature, i) && StartsLine(source, i)
  }

  lemma StartsLineMeans(t: string, i: nat)
    requires i <= |t|
    ensures StartsLine(t, i) <==> forall k :: LineStart(t, i) <= k < i ==> IsSpace(t[k])
  {
    var from := LineStart(t, i);
    var line := t[from..i];
    TrimEmptyIffBlank(line);
    assert forall k :: from <= k < i ==> t[k] == line[k - from];
    assert forall k :: 0 <= k < |line| ==> line[k] == t[from + k];
  }

  lemma {:induction false} LineStartIs(t: string, i: nat)
    requires i <= |t|
    ensures var n := LineStart(t, i);
            (n == 0 || t[n - 1] == '\n') && forall k :: n <= k < i ==> t[k] != '\n'
  {
    if i > 0 && t[i - 1] != '\n' {
      LineStartIs(t, i - 1);
    }
  }

  predicate NewlineBetween(t: string, k: nat, i: nat)
    requires i <= |t|
  {
    exists m :: k < m < i && t[m] == '\n'
  }

  /** AT THE START OF A LINE, EXACTLY: whatever stands before is blank, or a newline stands behind it. */
  lemma StartsLineExactly(t: string, i: nat)
    requires i <= |t|
    ensures StartsLine(t, i) <==> forall k: nat :: k < i ==> IsSpace(t[k]) || NewlineBetween(t, k, i)
  {
    var n := LineStart(t, i);
    LineStartIs(t, i);
    StartsLineMeans(t, i);
    if StartsLine(t, i) {
      forall k: nat | k < i
        ensures IsSpace(t[k]) || NewlineBetween(t, k, i)
      {
        if k < n - 1 {
          assert t[n - 1] == '\n';
        } else if k == n - 1 {
          assert IsSpace('\n');
        }
      }
    }
    if forall k: nat :: k < i ==> IsSpace(t[k]) || NewlineBetween(t, k, i) {
      forall k | n <= k < i
        ensures IsSpace(t[k])
      {
        assert !NewlineBetween(t, k, i);
      }
    }
  }

  /** The line begins inside a text that occurs, if it does there, and otherwise where that text's does. */
  lemma {:induction false} LineStartInside(t: string, w: string, at: nat, d: nat)
    requires OccursAt(t, w, at) && d <= |w|
    ensures LineStart(t, at + d) == if LineStart(w, d) > 0 then at + LineStart(w, d) else LineStart(t, at)
  {
    if d > 0 {
      assert t[at + (d - 1)] == w[d - 1];
      LineStartInside(t, w, at, d - 1);
    }
  }

  /** The signature occurs again `d` characters into itself, as far as it reaches, at the start of one of
      its own lines. */
  predicate Restarts(w: string, d: nat) {
    && 0 < d < |w| && LineStart(w, d) > 0
    && (forall k :: 0 <= k < |w| - d ==> w[d + k] == w[k])
    && (forall k :: LineStart(w, d) <= k < d ==> IsSpace(w[k]))
  }

  predicate NeverRestarts(w: string) {
    forall d {:trigger Restarts(w, d)} :: 0 < d < |w| ==> !Restarts(w, d)
  }

  lemma DeclaredInsideRestarts(source: string, w: string, at: nat, d: nat)
    requires OccursAt(source, w, at) && !StartsLine(source, at) && 0 < d < |w| && Declares(source, w, at + d)
    ensures Restarts(w, d)
  {
    LineStartInside(source, w, at, d);
    StartsLineMeans(source, at);
    StartsLineMeans(source, at + d);
    forall k | 0 <= k < |w| - d
      ensures w[d + k] == w[k]
    {
      assert source[at + (d + k)] == w[d + k] && source[(at + d) + k] == w[k];
    }
    forall k | LineStart(w, d) <= k < d
      ensures LineStart(w, d) > 0 ==> IsSpace(w[k])
    {
      assert source[at + k] == w[k];
    }
  }

  /** NONE SKIPPED: the search looks at non-overlapping matches only, and still passes over no
      declaration of a signature that never restarts. */
  lemma {:induction false} FirstDeclaration(source: string, signature: string, from: nat)
    requires NeverRestarts(signature)
    ensures var r := DeclaredFrom(source, signature, from);
            forall j: nat :: from <= j && (r.Some? ==> j < r.value) ==> !Declares(source, signature, j)
    decreases |source| + 1 - from
  {
    if from <= |source| {
      var at := FindFrom(source, signature, from);
      if at.Some? && !StartsLine(source, at.value) {
        FirstDeclaration(source, signature, Behind(at.value, signature));
        forall j: nat | at.value < j < Behind(at.value, signature)
          ensures !Declares(source, signature, j)
        {
          if Declares(source, signature, j) {
            DeclaredInsideRestarts(source, signature, at.value, j - at.value);
          }
        }
      }
    }
  }

  /** Every declaration is found, or an earlier one is. */
  ghost predicate FindsFirst(signature: string) {
    forall source, j: nat :: Declares(source, signature, j) ==> Finds(source, signature, j)
  }

  predicate Finds(source: string, signature: string, j: nat) {
    var r := DeclaredFrom(source, signature, 0);
    r.Some? && r.value <= j
  }

  /** A character that is neither blank nor the first of `w`. */
  function Other(w: string): (c: char)
    requires w != []
    ensures !IsSpace(c) && c != w[0] && c != '\n'
  {
    if w[0] == 'x' then 'y' else 'x'
  }

  /** The text in which the second occurrence starts a line and the first, around it, does not. */
  function Skipping(w: string, d: nat): (t: string)
    requires 0 < d < |w|
  {
    [Other(w)] + w + w[|w| - d..]
  }

  lemma SkippingOccurs(w: string, d: nat)
    requires Restarts(w, d)
    ensures OccursAt(Skipping(w, d), w, 1) && OccursAt(Skipping(w, d), w, 1 + d)
  {
    var t := Skipping(w, d);
    forall k | 0 <= k < |w|
      ensures t[1 + d + k] == w[k]
    {
      if k < |w| - d {
        assert t[1 + (d + k)] == w[d + k];
      } else {
        assert t[1 + d + k] == w[|w| - d..][d + k - |w|];
      }
    }
  }

  lemma RestartDeclares(t: string, w: string, d: nat)
    requires Restarts(w, d) && OccursAt(t, w, 1) && OccursAt(t, w, 1 + d)
    ensures Declares(t, w, 1 + d)
  {
    LineStartInside(t, w, 1, d);
    StartsLineMeans(t, 1 + d);
    forall k | LineStart(t, 1 + d) <= k < 1 + d
      ensures IsSpace(t[k])
    {
      assert t[1 + (k - 1)] == w[k - 1];
    }
  }

  lemma NotAtOne(t: string)
    requires t != [] && !IsSpace(t[0]) && t[0] != '\n'
    ensures !StartsLine(t, 1)
  {
    assert LineStart(t, 0) == 0 && LineStart(t, 1) == 0;
    StartsLineMeans(t, 1);
  }

  /** With one match that starts no line, and no room behind it, nothing is found. */
  lemma MissesAll(t: string, w: string)
    requires w != [] && OccursAt(t, w, 1) && !StartsLine(t, 1) && t[0] != w[0] && |t| < 1 + 2 * |w|
    ensures DeclaredFrom(t, w, 0).None?
  {
    NotAt(t, w, 0);
    FindIs(t, w, 0, 1);
    MissesRest(t, w, 1 + |w|);
  }

  lemma MissesRest(t: string, w: string, from: nat)
    requires |t| < from + |w|
    ensures DeclaredFrom(t, w, from).None?
  {
    assert FindFrom(t, w, from).None?;
  }

  lemma SkippingIsMissed(w: string, d: nat)
    requires Restarts(w, d)
    ensures Declares(Skipping(w, d), w, 1 + d) && DeclaredFrom(Skipping(w, d), w, 0).None?
  {
    var t := Skipping(w, d);
    SkippingOccurs(w, d);
    RestartDeclares(t, w, d);
    assert t[0] == Other(w);
    NotAtOne(t);
    MissesAll(t, w);
  }

  /** FIRST, EXACTLY: a signature's first declaration is found in every source if and only if it never
      restarts at the start of one of its own lines. */
  lemma FindsFirstExactly(signature: string)
    ensures FindsFirst(signature) <==> NeverRestarts(signature)
  {
    if NeverRestarts(signature) {
      forall source, j: nat | Declares(source, signature, j)
        ensures Finds(source, signature, j)
      {
        FirstDeclaration(source, signature, 0);
      }
    } else {
      var d :| 0 < d < |signature| && Restarts(signature, d);
      SkippingIsMissed(signature, d);
      assert !Finds(Skipping(signature, d), signature, 1 + d);
    }
  }

  lemma {:induction false} OneLineStart(w: string, d: nat)
    requires '\n' !in w && d <= |w|
    ensures LineStart(w, d) == 0
  {
    if d > 0 {
      OneLineStart(w, d - 1);
    }
  }

  /** A signature on one line never restarts, so its first declaration is always found. */
  lemma OneLineNeverRestarts(w: string)
    requires '\n' !in w
    ensures NeverRestarts(w)
  {
    forall d | 0 < d < |w|
      ensures !Restarts(w, d)
    {
      OneLineStart(w, d);
    }
  }

  /** COUNTEREXAMPLE: a signature of two lines that begin alike. */
  lemma TwoLinesCanBeSkipped()
    ensures Declares("xa\na\na", "a\na", 3) && DeclaredFrom("xa\na\na", "a\na", 0).None?
  {
    var w := "a\na";
    assert LineStart(w, 2) == 2;
    assert Restarts(w, 2);
    SkippingIsMissed(w, 2);
    assert Skipping(w, 2) == "xa\na\na";
  }
}
