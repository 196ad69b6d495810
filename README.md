# Nested-loop join operator of Minibase

Minibase evaluates conjunctive queries with a tree of pull-based (iterator) operators. Every
operator exposes a variable mask (one entry per column: a variable name, or null for a constant
column) and hands out one tuple per `getNextTuple` call until it returns null, and `reset`
starts it over. This project models the join operator, `JoinOperator`, in Dafny:

- **Schema merging** (module `JoinSchema`, file `join_schema.dfy`). The constructor scans
  the left mask. For every left entry that also occurs on the right, it records an implicit
  equality pair (first left position to first right position) and marks that right column
  as a duplicate. The output mask is the left mask, then each right entry, in right-mask
  order, that is null or not yet in the output. `MergeSchemas` runs the two loops. Its results are tied
  to the functions `JoinMask`, `ImplicitPairs` and `DuplicateColumns`. Lemmas state what
  those functions contain.
- **One candidate pair** (module `JoinRows`, file `join_rows.dfy`). A pair first has all
  implicit equalities checked, then all explicit conditions; each check stops at the first
  failure. A passing pair gives the joined tuple: all left terms, then the right terms at
  non-duplicate positions. `Matches`, `Joined`, `JoinRow` and `JoinAll` form the reference
  definition of one epoch's output. `JoinAll` lists, in left-major order, the joined tuple of
  every matching (left row, right row) pair.
- **The operator** (module `JoinOperators`, file `join_operator.dfy`). A class holds the two
  children and the merged schema as constants, and the current left tuple as its one mutable
  field. Each child is a `RowSource` (module `Operators`, file `operators.dfy`): the rows it
  yields in one epoch plus a cursor. `Remaining()` is the output still to come from the current
  state. Each `GetNextTuple` call returns the head of `Remaining()` and leaves its tail, or
  returns None exactly when nothing remains. `Reset` sets `Remaining()` to the whole epoch,
  and so does the constructor when both children are at their first row. `Drain` pulls tuples
  from a reset operator until None and returns exactly the whole epoch. From these and
  `JoinAllMembers`: an epoch yields a joined tuple exactly for each matching pair, once per
  pair, with left rows in order and right rows in order within each left row. A held left
  tuple is never dropped before it has met every right row.

Terms are a type parameter compared with `==` (Java's `Term.equals`). A null mask entry is
`None`. Java's `List.contains` and `List.indexOf` treat two nulls as equal, and `==` on
`Option` does too.

**Null entries behave as in the code, not as intended.** A column that holds a constant
rather than a variable has a null mask entry, and the schema pass treats a null on the left
and a null on the right as one shared variable. It pairs the first left null with the first
right null as an implicit equality and marks that right column as a duplicate. Two effects
follow. First, a pair of rows that agrees on every shared variable but holds different
constants in those two columns fails the implicit equalities and is dropped from the output:
`ConstantsMustAgree` proves this for masks `[x, null]` on both sides, and the last ensures of
`AnonymousColumnsCollide` proves it for one null column per side. Second, the output-mask loop
still appends the right null, so the output mask no longer matches the tuples:
`AnonymousColumnsOverhang` proves that, when both masks hold a null (and the right mask names
each variable at most once), the output mask is one entry longer than every joined tuple.
`JoinedFitsMask` proves that mask and tuple lengths agree once this case is excluded.

## Model

| member | source | states |
|---|---|---|
| Operators.RowSource.Next | minibase/operator/JoinOperator.java:100 | a child's `getNextTuple`: the next row of the epoch and the cursor moves by one; None once the rows are exhausted, with the cursor left there |
| Operators.RowSource.Reset | minibase/operator/JoinOperator.java:140 | a child's `reset`: the cursor returns to the first row |
| JoinSchema.IndexOf | minibase/operator/JoinOperator.java:62-63 | `List.indexOf` of a present element: a position holding it with no earlier occurrence |
| JoinSchema.MergeSchemas | minibase/operator/JoinOperator.java:58-73 | the constructor's two loops compute exactly `JoinMask`, `ImplicitPairs` and `DuplicateColumns` of the two masks |
| JoinSchema.AppendedRightNames | minibase/operator/JoinOperator.java:66-73 | a name is appended to the output mask iff it occurs in the right mask and not in the left one |
| JoinSchema.AppendedRightAnonymous | minibase/operator/JoinOperator.java:66-68 | every null right entry is appended: the appended part holds as many nulls as the right mask |
| JoinSchema.JoinMaskNamesDistinct | minibase/operator/JoinOperator.java:58-73 | if the left mask names each variable once, so does the output mask |
| JoinSchema.PairsBeforeExact | minibase/operator/JoinOperator.java:58-65 | after the first n left entries, the recorded pairs are keyed by the first positions before n of shared entries, each mapped to the entry's first right position, and every shared entry before n has its key |
| JoinSchema.ImplicitPairsExact | minibase/operator/JoinOperator.java:58-65 | each implicit pair links equal entries at their first left and first right positions, and every left entry also on the right has its pair |
| JoinSchema.DuplicateColumnsExact | minibase/operator/JoinOperator.java:58-65 | right position j is marked duplicate iff its entry occurs on the left and j is that entry's first right position |
| JoinSchema.DuplicatesArePairedColumns | minibase/operator/JoinOperator.java:60-64 | the set of duplicate columns equals the set of right positions of the implicit pairs |
| JoinRows.CheckImplicit | minibase/operator/JoinOperator.java:103-111 | the loop over the implicit pairs, in any key order, passes iff every pair links equal terms |
| JoinRows.CheckExplicit | minibase/operator/JoinOperator.java:113-120 | the loop over the explicit conditions passes iff every condition accepts the pair |
| JoinRows.JoinTerms | minibase/operator/JoinOperator.java:124-132 | the built term list is the joined tuple: all left terms, then the right terms at non-duplicate positions |
| JoinRows.KeepColumns | minibase/operator/JoinOperator.java:128-132 | the right terms kept in a joined tuple: exactly one term is dropped per distinct duplicate position inside the tuple |
| JoinRows.KeepColumnsPrefix | minibase/operator/JoinOperator.java:128-132 | what a prefix of the right tuple keeps is a prefix of what the whole tuple keeps |
| JoinRows.KeepColumnsAt | minibase/operator/JoinOperator.java:128-132 | a non-duplicate right term appears in the kept terms, right after the terms kept before it |
| JoinRows.KeepColumnsOrdered | minibase/operator/JoinOperator.java:128-132 | kept right terms keep their relative order |
| JoinRows.JoinedLength | minibase/operator/JoinOperator.java:124-132 | a joined tuple's length is left length plus right length minus the distinct duplicate positions |
| JoinRows.KeptMatchesAppended | minibase/operator/JoinOperator.java:63-71 | with distinct right names, each right prefix keeps as many terms as the output-mask loop appends entries for it, less one once the prefix holds a null colliding with a left null |
| JoinRows.KeptAppendedStep | minibase/operator/JoinOperator.java:63-71 | step lemma of `KeptMatchesAppended`: one right position adds equally to both sides of its equation |
| JoinRows.JoinedFitsMask | minibase/operator/JoinOperator.java:58-73 | with distinct right names and nulls not on both sides, a joined tuple is exactly as long as the output mask |
| JoinRows.AnonymousColumnsOverhang | minibase/operator/JoinOperator.java:60-68 | with distinct right names and a null in both masks, the output mask is exactly one entry longer than every joined tuple |
| JoinRows.AnonymousColumnsCollide | minibase/operator/JoinOperator.java:60-68 | one null column per side becomes an implicit pair (0 to 0) and a duplicate column, which forces the two terms to be equal; the mask gets two entries but the tuple only one |
| JoinRows.ConstantsMustAgree | minibase/operator/JoinOperator.java:57-63 | with masks `[x, null]` on both sides the implicit pairs link column 0 to 0 and column 1 to 1, so a pair of rows passes them exactly when it agrees on `x` and on the constant column as well; rows with different constants are dropped |
| JoinRows.JoinRowSplit | minibase/operator/JoinOperator.java:101-137 | what a left tuple yields against the right rows splits at any right position into the yield before it followed by the yield from it on |
| JoinRows.JoinAllSplit | minibase/operator/JoinOperator.java:98-142 | an epoch's output splits at any left position into the output of the earlier left rows followed by that of the later ones |
| JoinRows.JoinRowAt | minibase/operator/JoinOperator.java:101-137 | around right row b, a left tuple yields the earlier rows' tuples, then the pair's own joined tuple if it matches, then the later rows' tuples |
| JoinRows.JoinAllAtRow | minibase/operator/JoinOperator.java:98-142 | around left row a, the epoch yields the earlier left rows' output, then row a against all right rows, then the later left rows' output |
| JoinRows.JoinAllAtPair | minibase/operator/JoinOperator.java:98-143 | each (left a, right b) pair contributes its joined tuple iff it matches, after all pairs with a smaller left index or the same left index and a smaller right index, and before all others |
| JoinRows.JoinRowMembers | minibase/operator/JoinOperator.java:101-137 | a tuple is yielded for a left tuple from right position j on iff it joins the left tuple with a matching right row at or after j |
| JoinRows.JoinAllMembers | minibase/operator/JoinOperator.java:98-143 | a tuple is in an epoch's output iff it is the joined tuple of some matching (left row, right row) pair: no extra tuple, no missed pair |
| JoinRows.JoinAllShape | minibase/operator/JoinOperator.java:124-133 | when all left rows and all right rows have fixed widths, every tuple of an epoch has the same length |
| JoinOperators.TakeLeft | minibase/operator/JoinOperator.java:95-96 | step lemma of the `Remaining()` abstraction used by `FetchLeft` and `AdvanceLeft`: taking the next left tuple into hand leaves the output still to come unchanged |
| JoinOperators.NextLeft | minibase/operator/JoinOperator.java:139-142 | step lemma of the `Remaining()` abstraction used by `AdvanceLeft`: once the held tuple has met every right row, rewinding the right child and dropping the tuple leaves the output still to come unchanged |
| JoinOperators.Emit | minibase/operator/JoinOperator.java:123-133 | step lemma of the `Remaining()` abstraction used by `ScanHeld`: a tuple found first among the held tuple's remaining right rows is the head of the output still to come |
| JoinOperators.JoinOperator.constructor | minibase/operator/JoinOperator.java:47-74 | the children and conditions are stored and the schema fields hold the merged masks; no left tuple is held; with rewound children, the output to come is the whole epoch |
| JoinOperators.JoinOperator.Reset | minibase/operator/JoinOperator.java:80-84 | both children are rewound and the held tuple dropped, so the output to come is again the whole epoch |
| JoinOperators.JoinOperator.PairPasses | minibase/operator/JoinOperator.java:103-120 | the pair passes iff all implicit equalities and all explicit conditions hold |
| JoinOperators.JoinOperator.ScanRight | minibase/operator/JoinOperator.java:100-138 | the inner loop returns the joined tuple of the first matching right row from the cursor on, leaving the cursor just past it, or None with the right child exhausted; that result followed by the yield of the rest of the right rows is the yield from the old cursor |
| JoinOperators.JoinOperator.AdvanceLeft | minibase/operator/JoinOperator.java:139-142 | rewinds the right child and takes the next left tuple, keeping the output to come; at the end of the left child, nothing was left to come |
| JoinOperators.JoinOperator.FetchLeft | minibase/operator/JoinOperator.java:95-96 | with no held tuple, reads the next left tuple, keeping the output to come; None means the left child is exhausted and nothing is to come |
| JoinOperators.JoinOperator.ScanHeld | minibase/operator/JoinOperator.java:100-138 | the inner loop for the held tuple returns the head of the output to come and leaves its tail; if it finds nothing, the right child is exhausted and the output to come is unchanged |
| JoinOperators.JoinOperator.GetNextTuple | minibase/operator/JoinOperator.java:93-145 | returns None iff no output is to come; otherwise returns its head and leaves its tail, and the result is the joined tuple of the held left tuple and the right row just read, which match |
| JoinOperators.Drain | minibase/operator/JoinOperator.java:80-145 | a client that resets the operator and calls `GetNextTuple` until None collects exactly one epoch's output, `JoinAll` of the two children's rows |

## Left out

- `main` (lines 151-204) builds a demonstration query over a database on disk and prints its result; it is I/O only.
- The explicit conditions are not built from `ComparisonAtom`s (lines 53-54). `JoinCondition` is not part of this model. The constructor receives each condition as its `check` function, a total function of the left and right tuple.
- `Tuple`, `Term` and the `"Join"` relation name of an output tuple (line 133) are not modelled. A tuple is the sequence of its terms, and `Term.equals` is `==` on the term type.
- The key order of the `HashMap` of implicit pairs is not modelled. `CheckImplicit` takes the keys in an arbitrary order and its result does not depend on it.
- A child is modelled by the rows it yields in one epoch and a cursor: every epoch yields the same rows, and `getNextTuple` after exhaustion keeps returning null.
- The same operator object cannot serve as both children: the constructor requires two distinct children, so aliasing between the two cursors is not modelled.
- Rows whose length differs from their child's mask are not modelled: every child row in the model is exactly as long as its child's mask. A join breaks that length itself when both of its masks hold a null (`AnonymousColumnsOverhang`), so a join whose child is such a join is not modelled; there the positions found by `indexOf` no longer line up with the terms, which gives wrong matches or an exception. With rows of other lengths, the Java code throws `IndexOutOfBoundsException` at least when an implicit-pair index falls outside a row (line 107); an explicit condition may fail on them as well (line 115; `JoinCondition` is not part of this model). Otherwise it joins them: a longer or shorter left row gives a longer or shorter joined tuple (lines 125-126), and so does a right row, whose terms past the mask are appended (lines 127-131).
- JoinRows.JoinedFitsMask: the output mask and the joined tuple have equal lengths only for masks without the null collision and without a name repeated on the right; `AnonymousColumnsOverhang` states the first exception exactly, and a name repeated on the right is not characterised.
