/**
 * What the join does with one (left tuple, right tuple) pair, and the rows one epoch of the
 * nested-loop join yields: the implicit equalities and explicit conditions a pair must pass,
 * the joined tuple built for a passing pair, and the expected output sequence.
 */
module JoinRows {
  import opened Wrappers
  import opened Operators
  import opened JoinSchema

  /** An explicit join condition: the check a JoinCondition performs on a left and a right tuple. */
  type Condition<!T> = (Row<T>, Row<T>) -> bool

  /** The join's fixed configuration: implicit pairs, explicit conditions, duplicate columns. */
  datatype Plan<!T> = Plan(pairs: map<nat, nat>, conditions: seq<Condition<T>>, duplicates: seq<nat>)

  /** Every implicit pair links equal terms: left[i] == right[pairs[i]]. */
  predicate ImplicitHold<T(==)>(pairs: map<nat, nat>, l: Row<T>, r: Row<T>)
  {
    forall i :: i in pairs ==> i < |l| && pairs[i] < |r| && l[i] == r[pairs[i]]
  }

  /** Every explicit condition accepts the pair. */
  predicate ExplicitHold<T>(conditions: seq<Condition<T>>, l: Row<T>, r: Row<T>)
  {
    forall k :: 0 <= k < |conditions| ==> conditions[k](l, r)
  }

  /** The pair passes the join: all implicit equalities and all explicit conditions hold. */
  predicate Matches<T(==)>(p: Plan<T>, l: Row<T>, r: Row<T>)
  {
    ImplicitHold(p.pairs, l, r) && ExplicitHold(p.conditions, l, r)
  }

  /** The right terms at positions not marked duplicate, in position order: exactly one term
      is dropped per distinct duplicate position inside the tuple. */
  function KeepColumns<T>(r: Row<T>, dups: seq<nat>): (kept: Row<T>)
    ensures |kept| + |DuplicatesBelow(dups, |r|)| == |r|
  {
    if r == [] then []
    else
      var n := |r| - 1;
      assert n !in DuplicatesBelow(dups, n);
      assert DuplicatesBelow(dups, n + 1) == DuplicatesBelow(dups, n) + (if n in dups then {n} else {});
      KeepColumns(r[..n], dups) + (if n in dups then [] else [r[n]])
  }

  /** The joined tuple: all left terms, then the right terms that are not duplicates. */
  function Joined<T>(l: Row<T>, r: Row<T>, dups: seq<nat>): Row<T>
  {
    l + KeepColumns(r, dups)
  }

  /** The joined tuples the left tuple l yields against the right rows from position j on,
      in right order. */
  function JoinRow<T(==)>(p: Plan<T>, l: Row<T>, rs: seq<Row<T>>, j: nat): seq<Row<T>>
    requires j <= |rs|
    decreases |rs| - j
  {
    if j == |rs| then []
    else (if Matches(p, l, rs[j]) then [Joined(l, rs[j], p.duplicates)] else []) + JoinRow(p, l, rs, j + 1)
  }

  /** The joined tuples of the left rows from position i on, each against all right rows:
      left-major order. JoinAll(p, ls, rs, 0) is everything one epoch yields. */
  function JoinAll<T(==)>(p: Plan<T>, ls: seq<Row<T>>, rs: seq<Row<T>>, i: nat): seq<Row<T>>
    requires i <= |ls|
    decreases |ls| - i
  {
    if i == |ls| then [] else JoinRow(p, ls[i], rs, 0) + JoinAll(p, ls, rs, i + 1)
  }

  /** The distinct duplicate positions below n. */
  function DuplicatesBelow(dups: seq<nat>, n: nat): set<nat>
  {
    set j | j in dups && j < n
  }

  // ---------------------------------------------------------------- the checking loops

  /** The loop over the implicit pairs, in whatever order the map yields its keys; it stops at
      the first pair whose terms differ. */
  method CheckImplicit<T(==)>(pairs: map<nat, nat>, l: Row<T>, r: Row<T>) returns (pass: bool)
    requires forall i :: i in pairs ==> i < |l| && pairs[i] < |r|
    ensures pass <==> ImplicitHold(pairs, l, r)
  {
    pass := true;
    var unchecked := pairs.Keys;
    while unchecked != {}
      invariant unchecked <= pairs.Keys
      invariant forall i :: i in pairs && i !in unchecked ==> l[i] == r[pairs[i]]
      decreases unchecked
    {
      var i :| i in unchecked;
      if l[i] != r[pairs[i]] {
        pass := false;
        break;
      }
      unchecked := unchecked - {i};
    }
  }

  /** The loop over the explicit conditions, in order; it stops at the first that fails. */
  method CheckExplicit<T>(conditions: seq<Condition<T>>, l: Row<T>, r: Row<T>) returns (pass: bool)
    ensures pass <==> ExplicitHold(conditions, l, r)
  {
    pass := true;
    for k := 0 to |conditions|
      invariant forall m :: 0 <= m < k ==> conditions[m](l, r)
    {
      if !conditions[k](l, r) {
        pass := false;
        break;
      }
    }
  }

  /** Builds the joined term list: the left terms, then each right term whose position is not
      a duplicate column. */
  method JoinTerms<T>(l: Row<T>, r: Row<T>, dups: seq<nat>) returns (joined: Row<T>)
    ensures joined == Joined(l, r, dups)
  {
    joined := [];
    for k := 0 to |l|
      invariant joined == l[..k]
    {
      joined := joined + [l[k]];
    }
    assert l[..|l|] == l;
    for i := 0 to |r|
      invariant joined == l + KeepColumns(r[..i], dups)
    {
      assert r[..i + 1][..i] == r[..i] && r[..i + 1][i] == r[i];
      if i !in dups {
        joined := joined + [r[i]];
      }
    }
    assert r[..|r|] == r;
  }

  // ---------------------------------------------------------------- the shape of a joined tuple

  /** What a prefix of the right tuple keeps is a prefix of what the whole tuple keeps. */
  lemma {:induction false} KeepColumnsPrefix<T>(r: Row<T>, dups: seq<nat>, n: nat)
    requires n <= |r|
    ensures KeepColumns(r[..n], dups) <= KeepColumns(r, dups)
  {
    if n < |r| {
      var m := |r| - 1;
      KeepColumnsPrefix(r[..m], dups, n);
      assert r[..m][..n] == r[..n];
    } else {
      assert r[..n] == r;
    }
  }

  /** A non-duplicate right term sits in the joined tuple right after the terms kept before it. */
  lemma KeepColumnsAt<T>(r: Row<T>, dups: seq<nat>, j: nat)
    requires j < |r| && j !in dups
    ensures |KeepColumns(r[..j], dups)| < |KeepColumns(r, dups)|
    ensures KeepColumns(r, dups)[|KeepColumns(r[..j], dups)|] == r[j]
  {
    assert r[..j + 1][..j] == r[..j];
    assert KeepColumns(r[..j + 1], dups) == KeepColumns(r[..j], dups) + [r[j]];
    KeepColumnsPrefix(r, dups, j + 1);
  }

  /** Kept right terms keep their relative order. */
  lemma KeepColumnsOrdered<T>(r: Row<T>, dups: seq<nat>, i: nat, j: nat)
    requires i < j < |r| && i !in dups && j !in dups
    ensures |KeepColumns(r[..i], dups)| < |KeepColumns(r[..j], dups)|
  {
    KeepColumnsAt(r[..j], dups, i);
    assert r[..j][..i] == r[..i];
  }

  /** The joined tuple's length: |left| + |right| - (number of distinct duplicate positions). */
  lemma JoinedLength<T>(l: Row<T>, r: Row<T>, dups: seq<nat>)
    ensures |Joined(l, r, dups)| == |l| + |r| - |DuplicatesBelow(dups, |r|)|
  {
  }

  /** When the right mask names each variable once and anonymous columns are not on both sides,
      a joined tuple is exactly as long as the join's output mask. */
  lemma JoinedFitsMask<T>(lm: Mask, rm: Mask, l: Row<T>, r: Row<T>)
    requires NamesDistinct(rm) && !(None in lm && None in rm)
    requires |l| == |lm| && |r| == |rm|
    ensures |Joined(l, r, DuplicateColumns(lm, rm))| == |JoinMask(lm, rm)|
  {
    KeptMatchesAppended(lm, rm, r, |rm|);
    assert r[..|rm|] == r && rm[..|rm|] == rm;
  }

  /** With distinct right names, each prefix of the right tuple keeps as many terms as the
      output-mask loop appends entries for it, less one once the prefix holds a null that
      collides with a null on the left. */
  lemma {:induction false} KeptMatchesAppended<T>(lm: Mask, rm: Mask, r: Row<T>, n: nat)
    requires NamesDistinct(rm)
    requires |r| == |rm| && n <= |rm|
    ensures |KeepColumns(r[..n], DuplicateColumns(lm, rm))| + (if None in lm && None in rm[..n] then 1 else 0) ==
      |AppendedRight(lm, rm[..n])|
  {
    if n > 0 {
      var m := n - 1;
      KeptMatchesAppended(lm, rm, r, m);
      KeptAppendedStep(lm, rm, r, m);
    }
  }

  /** The step of KeptMatchesAppended: right position m adds as much to the kept terms, plus the
      collision count, as it adds to the appended entries. */
  lemma KeptAppendedStep<T>(lm: Mask, rm: Mask, r: Row<T>, m: nat)
    requires NamesDistinct(rm)
    requires |r| == |rm| && m < |rm|
    ensures |KeepColumns(r[..m + 1], DuplicateColumns(lm, rm))| + (if None in lm && None in rm[..m + 1] then 1 else 0) +
      |AppendedRight(lm, rm[..m])| ==
      |KeepColumns(r[..m], DuplicateColumns(lm, rm))| + (if None in lm && None in rm[..m] then 1 else 0) +
      |AppendedRight(lm, rm[..m + 1])|
  {
    var n, dups := m + 1, DuplicateColumns(lm, rm);
    assert |KeepColumns(r[..n], dups)| == |KeepColumns(r[..m], dups)| + (if m in dups then 0 else 1) by {
      assert r[..n][..m] == r[..m];
    }
    assert |AppendedRight(lm, rm[..n])| ==
      |AppendedRight(lm, rm[..m])| + (if Appended(lm, rm, m) then 1 else 0) by {
      assert rm[..n][..m] == rm[..m];
    }
    assert (None in rm[..n]) == (None in rm[..m] || rm[m] == None) by {
      assert rm[..n] == rm[..m] + [rm[m]];
    }
    DuplicateColumnsExact(lm, rm, m);
    if rm[m] != None {
      assert rm[m] !in rm[..m];
    }
  }

  /** The null collision in general: when both masks hold a null, the output mask is one entry
      longer than every joined tuple, because the first right null is dropped from the tuple as
      a duplicate but still appended to the mask. */
  lemma AnonymousColumnsOverhang<T>(lm: Mask, rm: Mask, l: Row<T>, r: Row<T>)
    requires NamesDistinct(rm) && None in lm && None in rm
    requires |l| == |lm| && |r| == |rm|
    ensures |JoinMask(lm, rm)| == |Joined(l, r, DuplicateColumns(lm, rm))| + 1
  {
    KeptMatchesAppended(lm, rm, r, |rm|);
    assert r[..|rm|] == r && rm[..|rm|] == rm;
  }

  /** The null collision, as written: two anonymous columns, one per side, count as a shared
      variable. The anonymous right column is marked duplicate and paired with the left one, yet
      it is still appended to the output mask, so the mask is one entry longer than the tuple. */
  lemma AnonymousColumnsCollide<T>(l: Row<T>, r: Row<T>)
    requires |l| == 1 && |r| == 1
    ensures ImplicitPairs([None], [None]) == map[0 := 0]
    ensures DuplicateColumns([None], [None]) == [0]
    ensures |JoinMask([None], [None])| == 2
    ensures |Joined(l, r, DuplicateColumns([None], [None]))| == 1
    ensures ImplicitHold(ImplicitPairs([None], [None]), l, r) <==> l[0] == r[0]
  {
    var m: Mask := [None];
    assert m[..0] == [];
    assert IndexOf(m, None) == 0;
    assert PairsBefore(m, m, 1).Keys == {0};
    assert JoinMask(m, m) == [None, None];
    assert KeepColumns(r, [0]) == [] by {
      assert r[..0] == [];
    }
  }

  /** What the null collision does to results: with one shared variable and one constant
      column on each side, a pair passes the implicit equalities only when the two constants
      are equal too, so rows that agree on the variable but hold different constants are not
      joined. */
  lemma ConstantsMustAgree<T>(x: Name, l: Row<T>, r: Row<T>)
    requires |l| == 2 && |r| == 2
    ensures ImplicitHold(ImplicitPairs([Some(x), None], [Some(x), None]), l, r) <==>
      l[0] == r[0] && l[1] == r[1]
  {
    var m: Mask := [Some(x), None];
    assert m[..1] == [Some(x)];
    assert IndexOf(m, Some(x)) == 0 && IndexOf(m, None) == 1;
    assert PairsBefore(m, m, 1) == map[0 := 0];
    assert ImplicitPairs(m, m) == PairsBefore(m, m, 2) == map[0 := 0, 1 := 1];
  }

  // ---------------------------------------------------------------- one epoch of the join

  /** Cutting the right rows at k: what l yields from j on is what it yields against the rows
      before k, followed by what it yields from k on. */
  lemma {:induction false} JoinRowSplit<T>(p: Plan<T>, l: Row<T>, rs: seq<Row<T>>, j: nat, k: nat)
    requires j <= k <= |rs|
    ensures JoinRow(p, l, rs, j) == JoinRow(p, l, rs[..k], j) + JoinRow(p, l, rs, k)
    decreases k - j
  {
    if j < k {
      JoinRowSplit(p, l, rs, j + 1, k);
      assert rs[..k][j] == rs[j];
    }
  }

  /** Cutting the left rows at m: the epoch's output from i on is that of the rows before m,
      followed by that of the rows from m on. */
  lemma {:induction false} JoinAllSplit<T>(p: Plan<T>, ls: seq<Row<T>>, rs: seq<Row<T>>, i: nat, m: nat)
    requires i <= m <= |ls|
    ensures JoinAll(p, ls, rs, i) == JoinAll(p, ls[..m], rs, i) + JoinAll(p, ls, rs, m)
    decreases m - i
  {
    if i < m {
      JoinAllSplit(p, ls, rs, i + 1, m);
      assert ls[..m][i] == ls[i];
    }
  }

  /** Each (left a, right b) pair contributes exactly its own joined tuple when it matches and
      nothing otherwise, after every pair with a smaller left index, or the same left index and
      a smaller right index, and before all others. */
  lemma JoinAllAtPair<T>(p: Plan<T>, ls: seq<Row<T>>, rs: seq<Row<T>>, a: nat, b: nat)
    requires a < |ls| && b < |rs|
    ensures JoinAll(p, ls, rs, 0) ==
      JoinAll(p, ls[..a], rs, 0) + JoinRow(p, ls[a], rs[..b], 0) +
      (if Matches(p, ls[a], rs[b]) then [Joined(ls[a], rs[b], p.duplicates)] else []) +
      JoinRow(p, ls[a], rs, b + 1) + JoinAll(p, ls, rs, a + 1)
  {
    var l := ls[a];
    JoinAllAtRow(p, ls, rs, a);
    JoinRowAt(p, l, rs, b);
    Regroup(JoinAll(p, ls[..a], rs, 0), JoinRow(p, l, rs[..b], 0),
      if Matches(p, l, rs[b]) then [Joined(l, rs[b], p.duplicates)] else [],
      JoinRow(p, l, rs, b + 1), JoinAll(p, ls, rs, a + 1));
  }

  /** The epoch's output around left row a. */
  lemma JoinAllAtRow<T>(p: Plan<T>, ls: seq<Row<T>>, rs: seq<Row<T>>, a: nat)
    requires a < |ls|
    ensures JoinAll(p, ls, rs, 0) ==
      JoinAll(p, ls[..a], rs, 0) + (JoinRow(p, ls[a], rs, 0) + JoinAll(p, ls, rs, a + 1))
  {
    JoinAllSplit(p, ls, rs, 0, a);
  }

  /** What l yields around right row b. */
  lemma JoinRowAt<T>(p: Plan<T>, l: Row<T>, rs: seq<Row<T>>, b: nat)
    requires b < |rs|
    ensures JoinRow(p, l, rs, 0) ==
      JoinRow(p, l, rs[..b], 0) +
      ((if Matches(p, l, rs[b]) then [Joined(l, rs[b], p.duplicates)] else []) + JoinRow(p, l, rs, b + 1))
  {
    JoinRowSplit(p, l, rs, 0, b);
  }

  /** Regrouping a concatenation of five sequences. */
  lemma Regroup<X>(a: seq<X>, b: seq<X>, c: seq<X>, d: seq<X>, e: seq<X>)
    ensures a + ((b + (c + d)) + e) == a + b + c + d + e
  {
    assert b + (c + d) == b + c + d;
  }

  /** A tuple is in what l yields from j on exactly when it joins l with a matching right row
      at or after j. */
  lemma {:induction false} JoinRowMembers<T>(p: Plan<T>, l: Row<T>, rs: seq<Row<T>>, j: nat, t: Row<T>)
    requires j <= |rs|
    ensures t in JoinRow(p, l, rs, j) <==>
      exists k :: j <= k < |rs| && Matches(p, l, rs[k]) && t == Joined(l, rs[k], p.duplicates)
    decreases |rs| - j
  {
    if j < |rs| {
      JoinRowMembers(p, l, rs, j + 1, t);
      var here := if Matches(p, l, rs[j]) then [Joined(l, rs[j], p.duplicates)] else [];
      assert JoinRow(p, l, rs, j) == here + JoinRow(p, l, rs, j + 1);
      if t in here {
        assert Matches(p, l, rs[j]) && t == Joined(l, rs[j], p.duplicates);
      }
      if k :| j <= k < |rs| && Matches(p, l, rs[k]) && t == Joined(l, rs[k], p.duplicates) {
        assert k == j ==> t in here;
      }
    }
  }

  /** t joins left row a, at or after i, with a right row b that it matches. */
  predicate Pairs<T(==)>(p: Plan<T>, ls: seq<Row<T>>, rs: seq<Row<T>>, i: nat, a: nat, b: nat, t: Row<T>)
  {
    i <= a < |ls| && b < |rs| && Matches(p, ls[a], rs[b]) && t == Joined(ls[a], rs[b], p.duplicates)
  }

  /** A tuple is in the epoch's output exactly when it joins a left row with a right row that
      matches it: no other tuple is produced and no matching pair is missed. */
  lemma {:induction false} JoinAllMembers<T>(p: Plan<T>, ls: seq<Row<T>>, rs: seq<Row<T>>, i: nat, t: Row<T>)
    requires i <= |ls|
    ensures t in JoinAll(p, ls, rs, i) <==> exists a, b :: Pairs(p, ls, rs, i, a, b, t)
    decreases |ls| - i
  {
    if i < |ls| {
      JoinAllMembers(p, ls, rs, i + 1, t);
      JoinRowMembers(p, ls[i], rs, 0, t);
      assert JoinAll(p, ls, rs, i) == JoinRow(p, ls[i], rs, 0) + JoinAll(p, ls, rs, i + 1);
      if t in JoinRow(p, ls[i], rs, 0) {
        var b :| 0 <= b < |rs| && Matches(p, ls[i], rs[b]) && t == Joined(ls[i], rs[b], p.duplicates);
        assert Pairs(p, ls, rs, i, i, b, t);
      }
      if t in JoinAll(p, ls, rs, i + 1) {
        var a: nat, b: nat :| Pairs(p, ls, rs, i + 1, a, b, t);
        assert Pairs(p, ls, rs, i, a, b, t);
      }
      if a, b :| Pairs(p, ls, rs, i, a, b, t) {
        if a == i {
          assert t in JoinRow(p, ls[i], rs, 0);
        } else {
          assert Pairs(p, ls, rs, i + 1, a, b, t);
        }
      }
    }
  }

  /** Every tuple of the epoch has the same length: the left width plus the right width less
      the distinct duplicate positions. */
  lemma JoinAllShape<T>(p: Plan<T>, ls: seq<Row<T>>, rs: seq<Row<T>>, nl: nat, nr: nat, t: Row<T>)
    requires forall i :: 0 <= i < |ls| ==> |ls[i]| == nl
    requires forall j :: 0 <= j < |rs| ==> |rs[j]| == nr
    requires t in JoinAll(p, ls, rs, 0)
    ensures |t| == nl + nr - |DuplicatesBelow(p.duplicates, nr)|
  {
    JoinAllMembers(p, ls, rs, 0, t);
    var a: nat, b: nat :| Pairs(p, ls, rs, 0, a, b, t);
    assert a < |ls| && b < |rs|;
    JoinedLength(ls[a], rs[b], p.duplicates);
  }
}
