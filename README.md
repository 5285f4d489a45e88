# nKnights: a verified model of the CSP knight solver

This project models `KnightSolverCSP`, a backtracking search that places
`numKnights(n)` mutually non-attacking knights on an n x n board.

The solver's state is four pieces:
- a pool of available board positions (`availBoardPositions`);
- an array of knight slots;
- one list of already-tried positions per slot (`seenMoves`);
- a pointer to the slot being filled (`knightPointer`).

Each loop round of `solve` takes the first free pool entry (`arbitraryBP`).
- If there is one, it **commits** to it: the knight takes that square, the square is recorded as tried, and the square and every square it attacks leave the pool.
- Otherwise it **backtracks**: it clears the slot's tried list, retreats, and gives the undone knight's square back to the pool, together with those of its attacked squares that no earlier knight attacks.

The model is split into five modules:

- `Lists` (lists.dfy): the `ArrayList` operations the solver uses, on `seq`:
  - the flag scans;
  - `remove(Object)`;
  - the `remove(i); i++` loop;
  - the duplicate-checked `add` of `addSeen`;
  - the order-preserving filter `Keep` that specifies them.
- `Positions` (positions.dfy): board squares and `posAttacked`.
  - `posAttacked` is a table of the eight offsets in the code's order, each with the code's one-sided bounds test.
  - It also defines the conflict list `allPreviousConflicts` computes.
- `Board` (board.dfy): `numKnights` and `initializeBoard`.
- `Pool` (pool.dfy): the pool invariant and the two pool updates.
  - The invariant: without repetition, the pool holds exactly the on-board squares that carry no committed knight and that no committed knight attacks.
  - The updates, commit and backtrack, are stated as functions and implemented by the code's loops.
  - Lemmas prove that both updates keep the invariant, so the restore rule is exact. Proving this needs the attack relation to be symmetric.
- `Solver` (solver.dfy): the class `KnightSolver`.
  - Three fields mirror the Java ones: `pool: seq<Pos>`, `seen: seq<seq<Pos>>` and `ptr`.
  - The `const knights: array<Option<Pos>>` holds the knight slots. A `Knight` whose board position is null is `None`.
  - The transitions `Commit`, `Backtrack` and `Solve` carry the loop invariant `Valid()`. The scans need only `Readable()`: the slots below the pointer are assigned. `Solve` drives the search loop with a step budget.

Squares are the datatype `Pos(x, y)`. The code compares positions by coordinates everywhere except `remove(bp)` at line 47, which removes by object identity. There `bp` is an element of the pool, and the pool never holds two equal squares, so datatype equality models both.

The pieces of the solver's `Valid()` invariant:
- `0 <= ptr <= numKnights`;
- slots below `ptr` are assigned, and each one's square is in that slot's tried list;
- the later slots are unassigned and have empty tried lists;
- no tried list repeats a square;
- the committed squares form a `Placement`: on the board, pairwise distinct and non-attacking;
- `PoolMatches`: the pool holds no duplicates and holds exactly the free, unattacked squares.

Three behaviours of the code that the model keeps:
- When slot 0 runs out of candidates, the code does not report a failure cleanly. It sets the pointer to -1 at line 59, and line 60 then reads `knights[-1]` and throws. `Solve` returns `Exhausted` with the state the code leaves at that point: slot 0's tried list cleared and `ptr == -1`.
- A candidate must not be in the slot's tried list, and it must also not be occupied by a committed knight (the `isPlaced` scan, lines 124-130). Under the pool invariant the second test never rejects anything (`Pool.PoolSquaresFree`).
- Backtracking appends re-added squares at the end of the pool, so after a backtrack the scan order is no longer row-major.

## Model

| member | source | states |
|---|---|---|
| Board.NumKnights | KnightSolverCSP.java:150-158 | the target is non-negative; for even n, twice the target is n*n; for odd n, twice the target is n*n + 1 |
| Board.NumKnightsExamples | KnightSolverCSP.java:150-158 | the targets for n = 3, 4, 5, 8 are 5, 8, 13, 32 |
| Board.InitializeBoard | KnightSolverCSP.java:139-148 | the result has n*n entries (none for n <= 0); entry k is (k / n, k % n); it holds every on-board square and nothing else, with no duplicates |
| Board.RowMajorComplete | KnightSolverCSP.java:139-148 | the row-major enumeration of length n*n holds exactly the on-board squares, each once |
| Positions.Attacks | KnightSolverCSP.java:226-268 | posAttacked yields at most 8 squares |
| Positions.TargetsMembers | KnightSolverCSP.java:226-268 | from an on-board square, the one-sided bounds tests keep exactly the on-board shifts by the offsets |
| Positions.TargetsNoDup | KnightSolverCSP.java:226-268 | distinct offsets yield distinct squares |
| Positions.AttacksExactly | KnightSolverCSP.java:226-268 | from an on-board square: no duplicates, never the square itself, and q is in the result iff q is on the board and one knight move away |
| Positions.TargetsInOrder | KnightSolverCSP.java:226-268 | the guarded appends equal the list of on-board shifts, in offset order |
| Positions.AttacksInOrder | KnightSolverCSP.java:226-268 | posAttacked lists the on-board moves in the code's order (1,2), (1,-2), (2,1), (2,-1), (-1,2), (-1,-2), (-2,1), (-2,-1) |
| Positions.AttackSymmetric | KnightSolverCSP.java:226-268 | for on-board p and q: q is in attacks(p) iff p is in attacks(q) |
| Positions.Conflicts | KnightSolverCSP.java:163-176 | q is in the conflict list iff some committed knight's attack list contains q |
| Lists.RemoveFirst | KnightSolverCSP.java:47 | `remove(Object)`: the list is unchanged when x is absent; otherwise it is one shorter and has exactly one occurrence of x fewer |
| Lists.RemoveFirstIsKeep | KnightSolverCSP.java:47 | on a duplicate-free list, removing the first occurrence is filtering out every occurrence |
| Lists.RemoveMatching | KnightSolverCSP.java:50-54 | the `remove(i); i++` loop on a duplicate-free list removes exactly the entries equal to the conflict, keeping the order of the rest |
| Lists.KeepIsSubsequence | KnightSolverCSP.java:47-55 | filtering keeps the surviving entries in their relative order |
| Lists.Contains | KnightSolverCSP.java:64-69 | the flag scan is true iff the element occurs in the list |
| Lists.Inserted | KnightSolverCSP.java:196-207 | the element is present afterwards; the elements are the old ones plus it; the old list is a prefix and at most one entry is added; no duplicates are introduced |
| Lists.InsertedIdempotent | KnightSolverCSP.java:196-207 | inserting the same square twice is inserting it once |
| Pool.CommitPool | KnightSolverCSP.java:47-55 | after a commit, q is in the pool iff it was before, is not bp and is not attacked by bp; no duplicates are introduced; the rest keep their relative order |
| Pool.RemoveAttacked | KnightSolverCSP.java:47-55 | `remove(bp)` followed by one removal loop per attacked square computes CommitPool |
| Pool.RestoredPool | KnightSolverCSP.java:60-73 | after a backtrack, q is in the pool iff it was before, is the undone square k, or is attacked by k and is in no earlier knight's attack list; the old pool plus k is a prefix |
| Pool.RestoreAttacked | KnightSolverCSP.java:60-73 | appending k, then each attacked square that the flag scan does not find among the previous conflicts, yields the old pool + [k] + the unmatched attacked squares, in attack order |
| Pool.InitialPool | KnightSolverCSP.java:22 | the full board with no knights satisfies the placement and pool invariants |
| Pool.PoolSquaresFree | KnightSolverCSP.java:124-130 | under the pool invariant no pool square carries a committed knight, so the isPlaced scan never rejects a pool entry |
| Pool.ConflictsSnoc | KnightSolverCSP.java:163-176 | adding a knight appends its attack list to the conflict list |
| Pool.CommitPreserves | KnightSolverCSP.java:44-56 | committing any pool square extends a non-attacking placement, and the updated pool matches the longer placement |
| Pool.BacktrackPreserves | KnightSolverCSP.java:57-75 | undoing the last knight leaves a non-attacking placement, and the restored pool is exactly the pool of the shorter placement |
| Pool.CommitThenBacktrack | KnightSolverCSP.java:44-75 | a commit followed by its backtrack gives back the original pool up to order (the same multiset) |
| Pool.SameElementsPermutation | KnightSolverCSP.java:44-75 | duplicate-free lists with the same elements are permutations of each other |
| Solver.KnightSolver.constructor | KnightSolverCSP.java:17-32 | for a size of at least 3: the invariant holds; the target is NumKnights(n); the pool is the row-major board; all slots are unassigned with empty tried lists; the pointer is 0 |
| Solver.KnightSolver.Create | KnightSolverCSP.java:17-32 | sizes below 3 are rejected; every other size yields a fresh solver in its initial state: the invariant holds, the target is NumKnights(n), the pool is the row-major board, all slots are unassigned with empty tried lists, and the pointer is 0 |
| Solver.KnightSolver.Occupied | KnightSolverCSP.java:124-130 | the isPlaced scan is true iff a knight in slots 0 .. ptr-1 stands on the square |
| Solver.KnightSolver.ArbitraryBP | KnightSolverCSP.java:115-137 | returns (-1,-1) when no pool entry is free; otherwise returns the first pool entry, in list order, that is neither tried for this slot nor occupied |
| Solver.KnightSolver.GetLCV | KnightSolverCSP.java:84-110 | returns (-1,-1) when no pool entry is free; otherwise a free entry with an attack list no longer than any other free entry's, such that every earlier free entry has a strictly longer one |
| Solver.KnightSolver.AllPreviousConflicts | KnightSolverCSP.java:163-176 | returns the attack lists of slots 0 .. ptr-1 concatenated in slot order, with no deduplication |
| Solver.KnightSolver.AddSeen | KnightSolverCSP.java:196-207 | replaces the slot's tried list by Inserted(list, bp) and changes nothing else |
| Solver.KnightSolver.Place | KnightSolverCSP.java:45-56 | the slot updates of a commit: the slot holds bp, bp is recorded as tried, the pointer advances, there is one more committed square, the slot invariant is kept |
| Solver.KnightSolver.Commit | KnightSolverCSP.java:44-56 | the invariant is kept; knights[ptr] == bp and no other slot changes; bp is in the tried list; the pointer goes up by one; the pool becomes CommitPool |
| Solver.KnightSolver.Unplace | KnightSolverCSP.java:58-74 | the slot updates of a backtrack: the tried list cleared, the pointer decremented, the slot unassigned, its square returned |
| Solver.KnightSolver.Backtrack | KnightSolverCSP.java:57-75 | from a slot above 0 the invariant is kept; the tried list is cleared; the pointer goes down by one; the slot becomes unassigned; the pool becomes RestoredPool |
| Solver.KnightSolver.Solve | KnightSolverCSP.java:38-76 | Solved: the invariant holds and the result is a non-attacking placement of NumKnights(n) on-board squares in slot order. Out of fuel: the invariant holds. Exhausted: the pointer is -1 and slot 0's tried list is empty |

## Left out

- Timing and console output: the clock reads and the `println` at lines 39 and 77-78, and `printState`/`printSeen` at lines 178-191. They are I/O with no behaviour to state.
- The `toString` methods at lines 224 and 283, for the same reason.
- The unused mutators `setX`/`setY` at lines 221-222 and the unused no-argument `Knight()` constructor at line 274.
- Object identity in `availBoardPositions.remove(bp)` at line 47. The model uses value equality, which is the same there because `bp` is a pool element and the pool has no duplicates.
- Board.NumKnights: does not model the 32-bit overflow of `boardSize * boardSize` for sizes above 46340. The model computes with unbounded integers.
- Solver.KnightSolver.Solve: runs for at most `fuel` loop rounds instead of until the loop condition fails. The model does not prove that the search terminates.
- Solver.KnightSolver.Solve: `Exhausted` does not claim that no placement exists. The model proves nothing about completeness or about reaching the target for a given n.
- Solver.KnightSolver.Solve: the `ArrayIndexOutOfBoundsException` raised at line 60 when slot 0 runs out of candidates is reported as the `Exhausted` outcome. The exception itself is not modelled.
- Lists.RemoveMatching: stated only for duplicate-free lists. On a list with two adjacent equal entries the Java loop skips the second one. The pool invariant rules this case out.
- The initialisation loops at lines 25-30 become an array initialiser and a sequence comprehension.
- Solver.KnightSolver.Unplace: performs the unassignment of line 74 before the pool updates of lines 60-73. Those updates read the undone knight's square, which `Unplace` returns before clearing the slot. Apart from that square they read only the slots below the pointer, so the resulting state is the same.
- Solver.KnightSolver.GetLCV: modelled on its own. `solve` does not call it, because the call at line 42 is commented out.
- Performance of the linear scans is not modelled; only their results are stated.
