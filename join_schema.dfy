/**
 * Schema merging done by the JoinOperator constructor: the output variable mask, the implicit
 * equi-join pairs found from shared variable names, and the right-side duplicate columns.
 * Mask entries compare as Java's List.contains and List.indexOf compare them: two anonymous
 * (None) entries are equal, exactly as two nulls are.
 */
module JoinSchema {
  import opened Wrappers
  import opened Operators

  /** List.indexOf for an element known to be present: its first position. */
  function IndexOf<X(==)>(s: seq<X>, x: X): (k: nat)
    requires x in s
    ensures k < |s| && s[k] == x && x !in s[..k]
  {
    if s[0] == x then 0
    else
      var k' := IndexOf(s[1..], x);
      assert s[..k' + 1] == [s[0]] + s[1..][..k'];
      k' + 1
  }

  /** The first occurrence is the only position before which x does not occur. */
  lemma IndexOfUnique<X>(s: seq<X>, x: X, k: nat)
    requires k < |s| && s[k] == x && x !in s[..k]
    ensures IndexOf(s, x) == k
  {
  }

  /** Whether the right-mask entry at j joins the output mask: an anonymous entry always does,
      a name only when neither the left mask nor an earlier right entry already holds it. */
  predicate Appended(lm: Mask, rm: Mask, j: nat)
    requires j < |rm|
  {
    rm[j] == None || (rm[j] !in lm && rm[j] !in rm[..j])
  }

  /** The right-mask entries appended after the left mask, in right-mask order. */
  function AppendedRight(lm: Mask, rm: Mask): (a: Mask)
    ensures |a| <= |rm|
  {
    if rm == [] then []
    else
      var n := |rm| - 1;
      AppendedRight(lm, rm[..n]) + (if Appended(lm, rm, n) then [rm[n]] else [])
  }

  /** The join's output variable mask: the left mask, then the appended right entries. */
  function JoinMask(lm: Mask, rm: Mask): Mask
  {
    lm + AppendedRight(lm, rm)
  }

  /** No variable name occurs twice in the mask (anonymous entries may repeat). */
  predicate NamesDistinct(m: Mask)
  {
    forall i, j :: 0 <= i < j < |m| && m[i] != None ==> m[i] != m[j]
  }

  /** A name is appended exactly when it occurs on the right and not on the left. */
  lemma {:induction false} AppendedRightNames(lm: Mask, rm: Mask, x: Entry)
    requires x != None
    ensures x in AppendedRight(lm, rm) <==> x in rm && x !in lm
  {
    if rm != [] {
      var n := |rm| - 1;
      AppendedRightNames(lm, rm[..n], x);
      assert rm == rm[..n] + [rm[n]];
    }
  }

  /** Every anonymous right entry is appended: the appended part holds as many as the right mask. */
  lemma {:induction false} AppendedRightAnonymous(lm: Mask, rm: Mask)
    ensures multiset(AppendedRight(lm, rm))[None] == multiset(rm)[None]
  {
    if rm != [] {
      var n := |rm| - 1;
      AppendedRightAnonymous(lm, rm[..n]);
      assert rm == rm[..n] + [rm[n]];
    }
  }

  /** The output mask repeats no name that the left mask does not already repeat. */
  lemma {:induction false} JoinMaskNamesDistinct(lm: Mask, rm: Mask)
    requires NamesDistinct(lm)
    ensures NamesDistinct(JoinMask(lm, rm))
  {
    if rm != [] {
      var n := |rm| - 1;
      JoinMaskNamesDistinct(lm, rm[..n]);
      var prev := JoinMask(lm, rm[..n]);
      if Appended(lm, rm, n) {
        assert JoinMask(lm, rm) == prev + [rm[n]];
        if rm[n] != None {
          AppendedRightNames(lm, rm[..n], rm[n]);
          assert rm[n] !in prev;
        }
      } else {
        assert JoinMask(lm, rm) == prev;
      }
    }
  }

  /** The implicit equi-join pairs: for each name on the left that also occurs on the right,
      its first left position maps to its first right position. */
  function ImplicitPairs(lm: Mask, rm: Mask): map<nat, nat>
  {
    PairsBefore(lm, rm, |lm|)
  }

  /** The pairs the first n steps of the left scan put: each left entry found on the right puts
      (first left position, first right position), which for a repeated entry overwrites the
      pair with itself. */
  function PairsBefore(lm: Mask, rm: Mask, n: nat): map<nat, nat>
    requires n <= |lm|
  {
    if n == 0 then map[]
    else
      var m := n - 1;
      if lm[m] in rm then PairsBefore(lm, rm, m)[IndexOf(lm, lm[m]) := IndexOf(rm, lm[m])]
      else PairsBefore(lm, rm, m)
  }

  /** After n steps, the keys are the first left positions, before n, of the entries shared
      with the right, each mapped to the entry's first right position. */
  lemma {:induction false} PairsBeforeExact(lm: Mask, rm: Mask, n: nat)
    requires n <= |lm|
    ensures forall k :: k in PairsBefore(lm, rm, n) ==>
      k < n && lm[k] in rm && IndexOf(lm, lm[k]) == k && PairsBefore(lm, rm, n)[k] == IndexOf(rm, lm[k])
    ensures forall i :: 0 <= i < n && lm[i] in rm ==> IndexOf(lm, lm[i]) in PairsBefore(lm, rm, n)
  {
    if n > 0 {
      var m := n - 1;
      PairsBeforeExact(lm, rm, m);
      var prev, cur := PairsBefore(lm, rm, m), PairsBefore(lm, rm, n);
      if lm[m] in rm {
        var key := IndexOf(lm, lm[m]);
        assert cur == prev[key := IndexOf(rm, lm[m])];
        forall k | k in cur
          ensures k < n && lm[k] in rm && IndexOf(lm, lm[k]) == k && cur[k] == IndexOf(rm, lm[k])
        {
          if k == key {
            assert lm[key] == lm[m];
          }
        }
        forall i | 0 <= i < n && lm[i] in rm
          ensures IndexOf(lm, lm[i]) in cur
        {
        }
      }
    }
  }

  /** Each pair links equal entries at their first positions, and every shared entry has its pair. */
  lemma ImplicitPairsExact(lm: Mask, rm: Mask)
    ensures forall k :: k in ImplicitPairs(lm, rm) ==>
      k < |lm| && ImplicitPairs(lm, rm)[k] < |rm| && lm[k] == rm[ImplicitPairs(lm, rm)[k]] &&
      lm[k] !in lm[..k] && rm[ImplicitPairs(lm, rm)[k]] !in rm[..ImplicitPairs(lm, rm)[k]]
    ensures forall i :: 0 <= i < |lm| && lm[i] in rm ==>
      IndexOf(lm, lm[i]) in ImplicitPairs(lm, rm) &&
      ImplicitPairs(lm, rm)[IndexOf(lm, lm[i])] == IndexOf(rm, lm[i])
  {
    PairsBeforeExact(lm, rm, |lm|);
    forall i | 0 <= i < |lm| && lm[i] in rm
      ensures ImplicitPairs(lm, rm)[IndexOf(lm, lm[i])] == IndexOf(rm, lm[i])
    {
      assert lm[IndexOf(lm, lm[i])] == lm[i];
    }
  }

  /** The right-side duplicate columns: for each left entry also on the right, in left order,
      the first right position holding it (repeated when the left mask repeats the entry). */
  function DuplicateColumns(lm: Mask, rm: Mask): seq<nat>
  {
    if lm == [] then []
    else
      var n := |lm| - 1;
      DuplicateColumns(lm[..n], rm) + (if lm[n] in rm then [IndexOf(rm, lm[n])] else [])
  }

  /** A right column is marked duplicate exactly when its entry occurs on the left and it is
      that entry's first position on the right; no other right column is marked. */
  lemma {:induction false} DuplicateColumnsExact(lm: Mask, rm: Mask, j: nat)
    ensures j in DuplicateColumns(lm, rm) <==> j < |rm| && rm[j] in lm && rm[j] !in rm[..j]
  {
    if lm != [] {
      var n := |lm| - 1;
      DuplicateColumnsExact(lm[..n], rm, j);
      assert lm == lm[..n] + [lm[n]];
      if j < |rm| && rm[j] == lm[n] && rm[j] !in rm[..j] {
        IndexOfUnique(rm, rm[j], j);
      }
    }
  }

  /** The duplicate columns are exactly the right positions of the implicit pairs, so the
      columns dropped from joined rows are the ones the implicit equalities constrain. */
  lemma DuplicatesArePairedColumns(lm: Mask, rm: Mask)
    ensures (set j | j in DuplicateColumns(lm, rm)) == ImplicitPairs(lm, rm).Values
  {
    var pairs := ImplicitPairs(lm, rm);
    ImplicitPairsExact(lm, rm);
    forall j | j in DuplicateColumns(lm, rm)
      ensures j in pairs.Values
    {
      DuplicateColumnsExact(lm, rm, j);
      var i := IndexOf(lm, rm[j]);
      IndexOfUnique(rm, rm[j], j);
      assert pairs[i] == j;
    }
    forall j | j in pairs.Values
      ensures j in DuplicateColumns(lm, rm)
    {
      var k :| k in pairs && pairs[k] == j;
      DuplicateColumnsExact(lm, rm, j);
    }
  }

  /** The constructor's two loops over the masks: returns the output mask, the implicit pairs
      and the duplicate columns. */
  method MergeSchemas(lm: Mask, rm: Mask) returns (mask: Mask, pairs: map<nat, nat>, dups: seq<nat>)
    ensures mask == JoinMask(lm, rm)
    ensures pairs == ImplicitPairs(lm, rm)
    ensures dups == DuplicateColumns(lm, rm)
  {
    mask, pairs, dups := [], map[], [];
    for i := 0 to |lm|
      invariant mask == lm[..i]
      invariant pairs == PairsBefore(lm, rm, i)
      invariant dups == DuplicateColumns(lm[..i], rm)
    {
      assert lm[..i + 1][..i] == lm[..i] && lm[..i + 1][i] == lm[i];
      mask := mask + [lm[i]];
      if lm[i] in rm {
        pairs := pairs[IndexOf(lm, lm[i]) := IndexOf(rm, lm[i])];
        dups := dups + [IndexOf(rm, lm[i])];
      }
    }
    assert lm[..|lm|] == lm;
    for j := 0 to |rm|
      invariant mask == lm + AppendedRight(lm, rm[..j])
    {
      assert rm[..j + 1][..j] == rm[..j] && rm[..j + 1][j] == rm[j];
      if rm[j] == None {
        mask := mask + [None];
      } else {
        AppendedRightNames(lm, rm[..j], rm[j]);
        if rm[j] !in mask {
          mask := mask + [rm[j]];
        }
      }
    }
    assert rm[..|rm|] == rm;
  }
}
