/**
 * The pull-based nested-loop join operator. It holds one left (outer) tuple across calls,
 * scans the right (inner) child for tuples that pass the implicit equalities and the explicit
 * conditions, and rewinds the right child each time it advances the left one.
 */
module JoinOperators {
  import opened Wrappers
  import opened Operators
  import opened JoinSchema
  import opened JoinRows

  /** The rest of an epoch from the state (held tuple, left cursor lc, right cursor rc). */
  function Pending<T(==)>(p: Plan<T>, ls: seq<Row<T>>, rs: seq<Row<T>>, held: Option<Row<T>>, lc: nat, rc: nat): seq<Row<T>>
    requires lc <= |ls| && rc <= |rs|
  {
    match held
    case Some(l) => JoinRow(p, l, rs, rc) + JoinAll(p, ls, rs, lc)
    case None => if lc < |ls| then JoinRow(p, ls[lc], rs, rc) + JoinAll(p, ls, rs, lc + 1) else []
  }

  /** Taking the next left tuple into hand leaves the rest of the epoch unchanged. */
  lemma TakeLeft<T>(p: Plan<T>, ls: seq<Row<T>>, rs: seq<Row<T>>, lc: nat, rc: nat)
    requires lc < |ls| && rc <= |rs|
    ensures Pending(p, ls, rs, None, lc, rc) == Pending(p, ls, rs, Some(ls[lc]), lc + 1, rc)
  {
  }

  /** Once the held tuple has met every right row, rewinding the right child and dropping the
      held tuple leaves the rest of the epoch unchanged. */
  lemma NextLeft<T>(p: Plan<T>, ls: seq<Row<T>>, rs: seq<Row<T>>, l: Row<T>, lc: nat)
    requires lc <= |ls|
    ensures Pending(p, ls, rs, Some(l), lc, |rs|) == Pending(p, ls, rs, None, lc, 0)
  {
  }

  /** A joined tuple found at the front of the held tuple's remaining right rows is the head of
      the rest of the epoch. */
  lemma Emit<T>(p: Plan<T>, ls: seq<Row<T>>, rs: seq<Row<T>>, l: Row<T>, lc: nat, rc: nat, rc': nat, t: Row<T>)
    requires lc <= |ls| && rc <= rc' <= |rs|
    requires JoinRow(p, l, rs, rc) == [t] + JoinRow(p, l, rs, rc')
    ensures Pending(p, ls, rs, Some(l), lc, rc) == [t] + Pending(p, ls, rs, Some(l), lc, rc')
  {
    var rest, later := JoinRow(p, l, rs, rc'), JoinAll(p, ls, rs, lc);
    assert ([t] + rest) + later == [t] + (rest + later);
  }

  class JoinOperator<T(==)> {
    const leftChild: RowSource<T>
    const rightChild: RowSource<T>
    const conditions: seq<Condition<T>>
    /** Implicit equi-join pairs: left position to right position of a shared variable. */
    const joinConditionIndices: map<nat, nat>
    /** Right positions left out of joined tuples. */
    const rightDuplicateColumns: seq<nat>
    /** The output variable mask. */
    const variableMask: Mask
    /** The left tuple being joined, held across calls; None when there is none. */
    var leftTuple: Option<Row<T>>

    /** The configuration every candidate pair is judged by. */
    function JoinPlan(): Plan<T>
    {
      Plan(joinConditionIndices, conditions, rightDuplicateColumns)
    }

    /** The fields the constructor fills hold the merged schema of the two children. These are
        constants, so this holds for the operator's whole life once the constructor returns. */
    ghost predicate SchemaMerged()
    {
      variableMask == JoinMask(leftChild.mask, rightChild.mask) &&
      joinConditionIndices == ImplicitPairs(leftChild.mask, rightChild.mask) &&
      rightDuplicateColumns == DuplicateColumns(leftChild.mask, rightChild.mask)
    }

    /** What the per-call work relies on: distinct children, and implicit pairs that index
        within the children's masks. */
    ghost predicate Configured()
    {
      leftChild != rightChild &&
      forall i :: i in joinConditionIndices ==>
        i < |leftChild.mask| && joinConditionIndices[i] < |rightChild.mask|
    }

    ghost predicate Valid()
      reads this, leftChild, rightChild
    {
      Configured() && leftChild.Valid() && rightChild.Valid() &&
      (leftTuple.Some? ==> 0 < leftChild.cursor && leftTuple.value == leftChild.rows[leftChild.cursor - 1])
    }

    /** Everything one epoch yields, from a fresh or reset operator. */
    ghost function Epoch(): seq<Row<T>>
    {
      JoinAll(JoinPlan(), leftChild.rows, rightChild.rows, 0)
    }

    /** What the calls to come yield before the first None: the held left tuple against the
        rest of the right child, then every later left tuple against all right rows. With no
        held tuple, the next left tuple is paired with the rest of the right child. */
    ghost function Remaining(): seq<Row<T>>
      reads this, leftChild, rightChild
      requires Valid()
    {
      Pending(JoinPlan(), leftChild.rows, rightChild.rows, leftTuple, leftChild.cursor, rightChild.cursor)
    }

    /** Merges the children's masks; explicit conditions arrive as their checks. */
    constructor (leftChild: RowSource<T>, rightChild: RowSource<T>, conditions: seq<Condition<T>>)
      requires leftChild != rightChild && leftChild.Valid() && rightChild.Valid()
      ensures Valid() && SchemaMerged()
      ensures this.leftChild == leftChild && this.rightChild == rightChild
      ensures this.conditions == conditions && leftTuple == None
      ensures leftChild.cursor == 0 && rightChild.cursor == 0 ==> Remaining() == Epoch()
    {
      this.leftChild := leftChild;
      this.rightChild := rightChild;
      this.conditions := conditions;
      var mask, pairs, dups := MergeSchemas(leftChild.mask, rightChild.mask);
      variableMask := mask;
      joinConditionIndices := pairs;
      rightDuplicateColumns := dups;
      leftTuple := None;
      ImplicitPairsExact(leftChild.mask, rightChild.mask);
      new;
    }

    /** Rewinds both children and drops the held left tuple: the next epoch starts over. */
    method Reset()
      requires Valid()
      modifies this, leftChild, rightChild
      ensures Valid() && leftTuple == None
      ensures leftChild.cursor == 0 && rightChild.cursor == 0
      ensures Remaining() == Epoch()
    {
      leftChild.Reset();
      rightChild.Reset();
      leftTuple := None;
    }

    /** Tests a (left, right) pair: first the implicit equalities, then, only if they all hold,
        the explicit conditions. */
    method PairPasses(l: Row<T>, r: Row<T>) returns (pass: bool)
      requires Configured() && |l| == |leftChild.mask| && |r| == |rightChild.mask|
      ensures pass <==> Matches(JoinPlan(), l, r)
    {
      pass := CheckImplicit(joinConditionIndices, l, r);
      if pass {
        pass := CheckExplicit(conditions, l, r);
      }
    }

    /** The inner loop for the held left tuple l: reads right tuples until one passes the
        implicit equalities and the explicit conditions, and returns their joined tuple; None
        once the right child is exhausted. What it returns followed by what the rest of the
        right child would yield is what l yields against the right rows from the old cursor on. */
    method ScanRight(l: Row<T>) returns (joined: Option<Row<T>>)
      requires Configured() && rightChild.Valid() && |l| == |leftChild.mask|
      modifies rightChild
      ensures rightChild.Valid() && old(rightChild.cursor) <= rightChild.cursor
      ensures joined == None ==> rightChild.cursor == |rightChild.rows|
      ensures joined.Some? ==>
                0 < rightChild.cursor &&
                Matches(JoinPlan(), l, rightChild.rows[rightChild.cursor - 1]) &&
                joined.value == Joined(l, rightChild.rows[rightChild.cursor - 1], rightDuplicateColumns)
      ensures JoinRow(JoinPlan(), l, rightChild.rows, old(rightChild.cursor)) ==
        (if joined.Some? then [joined.value] + JoinRow(JoinPlan(), l, rightChild.rows, rightChild.cursor)
         else [])
    {
      ghost var rs, plan := rightChild.rows, JoinPlan();
      ghost var start := JoinRow(plan, l, rs, rightChild.cursor);
      var rightTuple := rightChild.Next();
      ghost var next: nat := if rightTuple.Some? then rightChild.cursor - 1 else rightChild.cursor;
      while rightTuple.Some?
        invariant rightChild.Valid() && old(rightChild.cursor) <= next
        invariant rightTuple.Some? ==> next == rightChild.cursor - 1 && rightTuple.value == rs[next]
        invariant rightTuple == None ==> next == rightChild.cursor == |rs|
        invariant start == JoinRow(plan, l, rs, next)
        decreases |rs| - next
      {
        var r := rightTuple.value;
        var pass := PairPasses(l, r);
        if pass {
          var terms := JoinTerms(l, r, rightDuplicateColumns);
          joined := Some(terms);
          return;
        }
        rightTuple := rightChild.Next();
        next := next + 1;
      }
      joined := None;
    }

    /** Ends the inner loop for the held left tuple once the right child is exhausted: rewinds
        the right child, then replaces the held tuple by the next left tuple (None at the end). */
    method AdvanceLeft()
      requires Valid() && leftTuple.Some? && rightChild.cursor == |rightChild.rows|
      modifies this, leftChild, rightChild
      ensures Valid() && rightChild.cursor == 0
      ensures leftChild.cursor == old(leftChild.cursor) + (if leftTuple.Some? then 1 else 0)
      ensures leftTuple.Some? ==> Remaining() == old(Remaining())
      ensures leftTuple == None ==> leftChild.cursor == |leftChild.rows| && old(Remaining()) == []
    {
      ghost var ls, rs, plan := leftChild.rows, rightChild.rows, JoinPlan();
      ghost var lc := leftChild.cursor;
      NextLeft(plan, ls, rs, leftTuple.value, lc);
      rightChild.Reset();
      if lc < |ls| {
        TakeLeft(plan, ls, rs, lc, 0);
      }
      leftTuple := leftChild.Next();
    }

    /** Takes the next left tuple into hand when none is held (None once the left child is
        exhausted); the rest of the epoch is unchanged. */
    method FetchLeft()
      requires Valid() && leftTuple == None
      modifies this, leftChild
      ensures Valid() && Remaining() == old(Remaining())
      ensures leftChild.cursor == old(leftChild.cursor) + (if leftTuple.Some? then 1 else 0)
      ensures leftTuple == None ==> leftChild.cursor == |leftChild.rows| && Remaining() == []
    {
      if leftChild.cursor < |leftChild.rows| {
        TakeLeft(JoinPlan(), leftChild.rows, rightChild.rows, leftChild.cursor, rightChild.cursor);
      }
      leftTuple := leftChild.Next();
    }

    /** The inner loop for the held left tuple, in terms of the epoch: a tuple it finds is the
        head of the rest of the epoch; finding none exhausts the right child and leaves the rest
        of the epoch unchanged. */
    method ScanHeld() returns (t: Option<Row<T>>)
      requires Valid() && leftTuple.Some?
      modifies rightChild
      ensures Valid() && old(rightChild.cursor) <= rightChild.cursor
      ensures t == None ==> rightChild.cursor == |rightChild.rows| && Remaining() == old(Remaining())
      ensures t.Some? ==> old(Remaining()) == [t.value] + Remaining()
      ensures t.Some? ==>
                0 < rightChild.cursor &&
                Matches(JoinPlan(), leftTuple.value, rightChild.rows[rightChild.cursor - 1]) &&
                t.value == Joined(leftTuple.value, rightChild.rows[rightChild.cursor - 1], rightDuplicateColumns)
    {
      ghost var lc, rc := leftChild.cursor, rightChild.cursor;
      var l := leftTuple.value;
      t := ScanRight(l);
      if t.Some? {
        Emit(JoinPlan(), leftChild.rows, rightChild.rows, l, lc, rc, rightChild.cursor, t.value);
      }
    }

    /** The next joined tuple, or None when the left child is exhausted. Each call yields the
        head of Remaining() and leaves its tail. */
    method GetNextTuple() returns (t: Option<Row<T>>)
      requires Valid()
      modifies this, leftChild, rightChild
      ensures Valid()
      ensures t == None <==> old(Remaining()) == []
      ensures t.Some? ==> t.value == old(Remaining())[0] && Remaining() == old(Remaining())[1..]
      ensures t.Some? ==>
                leftTuple.Some? && 0 < rightChild.cursor &&
                Matches(JoinPlan(), leftTuple.value, rightChild.rows[rightChild.cursor - 1]) &&
                t.value == Joined(leftTuple.value, rightChild.rows[rightChild.cursor - 1], rightDuplicateColumns)
      ensures t == None ==> leftTuple == None && leftChild.cursor == |leftChild.rows| && Remaining() == []
    {
      ghost var rem := Remaining();
      if leftTuple == None {
        FetchLeft();
      }
      while leftTuple.Some?
        invariant Valid()
        invariant leftTuple.Some? ==> rem == Remaining()
        invariant leftTuple == None ==> leftChild.cursor == |leftChild.rows| && rem == []
        decreases |leftChild.rows| - leftChild.cursor + (if leftTuple.Some? then 1 else 0)
      {
        t := ScanHeld();
        if t.Some? {
          assert rem == [t.value] + Remaining();
          assert rem[1..] == Remaining();
          return;
        }
        AdvanceLeft();
      }
      t := None;
    }
  }

  /** A client of the operator: resets it, then pulls tuples until None. What it collects is
      exactly one epoch's output. */
  method Drain<T(==)>(op: JoinOperator<T>) returns (out: seq<Row<T>>)
    requires op.Valid()
    modifies op, op.leftChild, op.rightChild
    ensures out == op.Epoch()
  {
    op.Reset();
    ghost var epoch, rest := op.Epoch(), op.Remaining();
    out := [];
    var done := false;
    while !done
      invariant op.Valid() && rest == op.Remaining()
      invariant out + rest == epoch
      invariant done ==> rest == []
      decreases |rest| + (if done then 0 else 1)
    {
      var t := op.GetNextTuple();
      ghost var now := op.Remaining();
      if t.Some? {
        Collect(out, rest, now, t.value, epoch);
        out := out + [t.value];
      } else {
        done := true;
      }
      rest := now;
    }
  }

  /** Moving the head of what remains to the end of what was collected keeps their
      concatenation and shortens what remains. */
  lemma Collect<X>(out: seq<X>, rest: seq<X>, now: seq<X>, x: X, whole: seq<X>)
    requires out + rest == whole && rest != [] && x == rest[0] && now == rest[1..]
    ensures (out + [x]) + now == whole && |now| < |rest|
  {
    assert rest == [x] + now;
  }
}
