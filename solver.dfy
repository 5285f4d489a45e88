/**
  KnightSolverCSP: the backtracking search that places NumKnights(n)
  mutually non-attacking knights on an n x n board. The knight slots are an
  array of optional squares (a Knight whose board position may be null),
  the pool of available squares and the per-slot lists of squares already
  tried are sequences the methods reassign, and `ptr` is the slot being filled.
 */
module Solver {
  import opened Lists
  import opened Positions
  import opened Board
  import opened Pool

  datatype Option<T> = None | Some(value: T)

  /** How a run of the search ends. */
  datatype Outcome =
    | Solved(placement: seq<Pos>)
    /** No candidate is left for slot 0: the code then reads slot -1 and throws. */
    | Exhausted
    /** The step budget ran out first. */
    | OutOfFuel

  /** The constructor either builds a solver or rejects the board size. */
  datatype Creation = Created(solver: KnightSolver) | BoardTooSmall

  /** The squares held by a run of assigned slots, in slot order. */
  function Values(slots: seq<Option<Pos>>): (r: seq<Pos>)
    requires forall i :: 0 <= i < |slots| ==> slots[i].Some?
    ensures |r| == |slots| && forall i :: 0 <= i < |slots| ==> r[i] == slots[i].value
  {
    if slots == [] then [] else Values(slots[..|slots| - 1]) + [slots[|slots| - 1].value]
  }

  class KnightSolver {
    const boardSize: int
    const numKnights: int
    /** Slot i holds the square of knight i, or None while it is unassigned. */
    const knights: array<Option<Pos>>
    /** availBoardPositions */
    var pool: seq<Pos>
    /** seenMoves: the squares already tried for each slot */
    var seen: seq<seq<Pos>>
    /** knightPointer */
    var ptr: int

    /** The slots below the pointer are assigned, as the scans rely on. */
    predicate Readable()
      reads this`ptr, knights
    {
      0 <= ptr <= knights.Length && forall i :: 0 <= i < ptr ==> knights[i].Some?
    }

    /** The squares of the committed knights, slots 0 .. ptr - 1. */
    function Committed(): (r: seq<Pos>)
      requires Readable()
      reads this`ptr, knights
      ensures |r| == ptr && forall i :: 0 <= i < ptr ==> r[i] == knights[i].value
    {
      Values(knights[..ptr])
    }

    /** A square the scans may pick: not tried yet for this slot and carrying no knight. */
    predicate Free(q: Pos, curSeen: seq<Pos>)
      requires Readable()
      reads this`ptr, knights
    {
      q !in curSeen && q !in Committed()
    }

    /**
      The slot part of the loop invariant: the committed knights fill slots
      0 .. ptr - 1, each recorded as tried in its slot; the later slots are
      empty and have nothing tried; no tried list repeats a square.
     */
    ghost predicate SlotsValid()
      reads this`ptr, this`seen, knights
    {
      boardSize >= 3 && numKnights == NumKnights(boardSize) &&
      knights.Length == numKnights && |seen| == numKnights &&
      0 <= ptr <= numKnights &&
      (forall i :: 0 <= i < ptr ==> knights[i].Some? && knights[i].value in seen[i]) &&
      (forall i :: ptr <= i < numKnights ==> knights[i].None?) &&
      (forall i :: 0 <= i < numKnights ==> NoDup(seen[i])) &&
      (forall i :: ptr < i < numKnights ==> seen[i] == [])
    }

    /**
      The invariant of the search loop: the slots as above, the committed
      knights a non-attacking placement, and the pool exactly the free,
      unattacked squares, without repetition.
     */
    ghost predicate Valid()
      reads this, knights
    {
      SlotsValid() &&
      Placement(boardSize, Committed()) &&
      PoolMatches(boardSize, Committed(), pool)
    }

    /**
      The constructor for a board size of at least 3: the pool is the
      row-major list of all squares, every slot is unassigned with nothing
      tried, and the pointer is at slot 0.
     */
    constructor (boardSize: int)
      requires boardSize >= 3
      ensures Valid() && fresh(knights)
      ensures this.boardSize == boardSize && numKnights == NumKnights(boardSize) && ptr == 0
      ensures |pool| == boardSize * boardSize
      ensures forall k :: 0 <= k < |pool| ==> pool[k] == RowMajorAt(boardSize, k)
      ensures forall i :: 0 <= i < numKnights ==> knights[i] == None && seen[i] == []
    {
      this.boardSize := boardSize;
      numKnights := NumKnights(boardSize);
      var squares := InitializeBoard(boardSize);
      pool := squares;
      knights := new Option<Pos>[NumKnights(boardSize)](_ => None);
      seen := seq(NumKnights(boardSize), _ => []);
      ptr := 0;
      new;
      assert Committed() == [];
      InitialPool(boardSize, pool);
    }

    /** The constructor with its size check: sizes below 3 are rejected. */
    static method Create(boardSize: int) returns (r: Creation)
      ensures r.BoardTooSmall? <==> boardSize < 3
      ensures r.Created? ==> fresh(r.solver) && fresh(r.solver.knights) && r.solver.Valid()
      ensures r.Created? ==> r.solver.boardSize == boardSize && r.solver.numKnights == NumKnights(boardSize) && r.solver.ptr == 0
      ensures r.Created? ==> |r.solver.pool| == boardSize * boardSize
      ensures r.Created? ==> forall k :: 0 <= k < |r.solver.pool| ==> r.solver.pool[k] == RowMajorAt(boardSize, k)
      ensures r.Created? ==> forall i :: 0 <= i < r.solver.numKnights ==> r.solver.knights[i] == None && r.solver.seen[i] == []
    {
      if boardSize < 3 {
        return BoardTooSmall;
      }
      var s := new KnightSolver(boardSize);
      return Created(s);
    }

    /** The isPlaced scan: does a knight in slots 0 .. ptr - 1 stand on `bp`? */
    method Occupied(bp: Pos) returns (isPlaced: bool)
      requires Readable()
      ensures isPlaced <==> bp in Committed()
    {
      isPlaced := false;
      var i := 0;
      while i < ptr
        invariant 0 <= i <= ptr
        invariant isPlaced <==> bp in Committed()[..i]
      {
        assert Committed()[..i + 1] == Committed()[..i] + [knights[i].value];
        if knights[i].value == bp {
          isPlaced := true;
        }
        i := i + 1;
      }
      assert Committed()[..i] == Committed();
    }

    /**
      arbitraryBP: the first pool entry, in list order, that is free for
      this slot; the sentinel (-1,-1) when there is none.
     */
    method ArbitraryBP(curSeen: seq<Pos>) returns (bp: Pos)
      requires Readable()
      ensures (forall i :: 0 <= i < |pool| ==> !Free(pool[i], curSeen)) ==> bp == NoPos
      ensures (exists i :: 0 <= i < |pool| && Free(pool[i], curSeen)) ==>
        exists m :: 0 <= m < |pool| && pool[m] == bp && Free(bp, curSeen) &&
          forall i :: 0 <= i < m ==> !Free(pool[i], curSeen)
    {
      bp := NoPos;
      var i := 0;
      while i < |pool|
        invariant 0 <= i <= |pool| && bp == NoPos
        invariant forall k :: 0 <= k < i ==> !Free(pool[k], curSeen)
      {
        var cand := pool[i];
        var isSeen := Contains(curSeen, cand);
        var isPlaced := Occupied(cand);
        if !isSeen && !isPlaced {
          bp := cand;
          return;
        }
        i := i + 1;
      }
    }

    /**
      getLCV: a free pool entry whose attack list is no longer than that of
      any other free entry, the earliest such one (the comparison is strict);
      the sentinel (-1,-1) when there is none.
     */
    method GetLCV(curSeen: seq<Pos>) returns (min: Pos)
      requires Readable()
      ensures (forall i :: 0 <= i < |pool| ==> !Free(pool[i], curSeen)) ==> min == NoPos
      ensures (exists i :: 0 <= i < |pool| && Free(pool[i], curSeen)) ==>
        exists m :: 0 <= m < |pool| && pool[m] == min && Free(min, curSeen) &&
          (forall i :: 0 <= i < |pool| && Free(pool[i], curSeen) ==>
             |Attacks(boardSize, min)| <= |Attacks(boardSize, pool[i])|) &&
          (forall i :: 0 <= i < m && Free(pool[i], curSeen) ==>
             |Attacks(boardSize, min)| < |Attacks(boardSize, pool[i])|)
    {
      var minConflicts := 10000000;
      min := NoPos;
      ghost var m := -1;
      var i := 0;
      while i < |pool|
        invariant 0 <= i <= |pool|
        invariant m == -1 ==> min == NoPos && forall k :: 0 <= k < i ==> !Free(pool[k], curSeen)
        invariant m == -1 ==> minConflicts == 10000000
        invariant m != -1 ==> 0 <= m < i && pool[m] == min && Free(min, curSeen)
        invariant m != -1 ==> minConflicts == |Attacks(boardSize, min)|
        invariant m != -1 ==> forall k :: 0 <= k < i && Free(pool[k], curSeen) ==>
          minConflicts <= |Attacks(boardSize, pool[k])|
        invariant m != -1 ==> forall k :: 0 <= k < m && Free(pool[k], curSeen) ==>
          minConflicts < |Attacks(boardSize, pool[k])|
      {
        var bp := pool[i];
        var isSeen := Contains(curSeen, bp);
        var isPlaced := Occupied(bp);
        if !isSeen && !isPlaced {
          var bps := Attacks(boardSize, bp);
          if |bps| < minConflicts {
            min := bp;
            minConflicts := |bps|;
            m := i;
          }
        }
        i := i + 1;
      }
    }

    /**
      allPreviousConflicts: the attack lists of the committed knights,
      concatenated in slot order; `alreadyContained` is never set, so
      nothing is deduplicated.
     */
    method AllPreviousConflicts() returns (cons: seq<Pos>)
      requires Readable()
      ensures cons == Conflicts(boardSize, Committed())
    {
      cons := [];
      var i := 0;
      while i < ptr
        invariant 0 <= i <= ptr
        invariant cons == Conflicts(boardSize, Committed()[..i])
      {
        var bp := knights[i].value;
        var conflicts := Attacks(boardSize, bp);
        var alreadyContained := false;
        var k := 0;
        while k < |conflicts|
          invariant 0 <= k <= |conflicts|
          invariant cons == Conflicts(boardSize, Committed()[..i]) + conflicts[..k]
        {
          assert conflicts[..k + 1] == conflicts[..k] + [conflicts[k]];
          if !alreadyContained {
            cons := cons + [conflicts[k]];
          }
          k := k + 1;
        }
        assert conflicts[..k] == conflicts;
        assert Committed()[..i + 1] == Committed()[..i] + [bp];
        ConflictsSnoc(boardSize, Committed()[..i], bp);
        i := i + 1;
      }
      assert Committed()[..i] == Committed();
    }

    /** addSeen: record `bp` as tried for slot `index` unless it already is. */
    method AddSeen(bp: Pos, index: int)
      requires 0 <= index < |seen|
      modifies this`seen
      ensures seen == old(seen)[index := Inserted(old(seen[index]), bp)]
    {
      var found := Contains(seen[index], bp);
      if !found {
        seen := seen[index := seen[index] + [bp]];
      }
    }

    /**
      The commit step of solve: the knight in slot `ptr` goes to `bp`, `bp`
      is recorded as tried for that slot, `bp` and every square it attacks
      leave the pool (the rest keeping their order), and the pointer advances.
     */
    method Commit(bp: Pos)
      requires Valid() && ptr < numKnights && bp in pool
      modifies this, knights
      ensures Valid()
      ensures ptr == old(ptr) + 1
      ensures knights[old(ptr)] == Some(bp)
      ensures forall i :: 0 <= i < knights.Length && i != old(ptr) ==> knights[i] == old(knights[i])
      ensures seen == old(seen)[old(ptr) := Inserted(old(seen[ptr]), bp)]
      ensures Committed() == old(Committed()) + [bp]
      ensures pool == CommitPool(boardSize, old(pool), bp)
    {
      ghost var ks := Committed();
      Place(bp);
      ghost var ks' := Committed();
      assert ks' == ks + [bp];
      pool := RemoveAttacked(boardSize, pool, bp);
      assert SlotsValid() && Committed() == ks';
      CommitPreserves(boardSize, ks, old(pool), bp);
    }

    /** The slot updates of the commit step, lines 45, 46 and 56. */
    method Place(bp: Pos)
      requires SlotsValid() && ptr < numKnights
      modifies this`seen, this`ptr, knights
      ensures SlotsValid()
      ensures ptr == old(ptr) + 1
      ensures knights[old(ptr)] == Some(bp)
      ensures forall i :: 0 <= i < knights.Length && i != old(ptr) ==> knights[i] == old(knights[i])
      ensures seen == old(seen)[old(ptr) := Inserted(old(seen[ptr]), bp)]
      ensures Committed() == old(Committed()) + [bp]
    {
      ghost var ks := Committed();
      knights[ptr] := Some(bp);
      AddSeen(bp, ptr);
      ptr := ptr + 1;
      assert Committed() == ks + [bp];
      assert forall i :: 0 <= i < ptr ==> knights[i].Some? && knights[i].value in seen[i] by {
        forall i | 0 <= i < ptr ensures knights[i].Some? && knights[i].value in seen[i] {
          if i < old(ptr) {
            assert knights[i] == old(knights[i]) && seen[i] == old(seen[i]);
          }
        }
      }
      assert forall i :: 0 <= i < numKnights ==> NoDup(seen[i]) by {
        forall i | 0 <= i < numKnights ensures NoDup(seen[i]) {
          if i != old(ptr) {
            assert seen[i] == old(seen[i]);
          }
        }
      }
    }

    /**
      The backtrack step of solve, from a slot above 0: the current slot's
      tried list is cleared and the pointer retreats; the undone knight's
      square goes back at the end of the pool, followed by each square it
      attacks that no earlier knight attacks; the slot becomes unassigned.
     */
    method Backtrack()
      requires Valid() && 1 <= ptr < numKnights
      modifies this, knights
      ensures Valid()
      ensures ptr == old(ptr) - 1
      ensures knights[ptr] == None
      ensures forall i :: 0 <= i < knights.Length && i != ptr ==> knights[i] == old(knights[i])
      ensures seen == old(seen)[old(ptr) := []]
      ensures old(Committed()) == Committed() + [old(knights[ptr - 1].value)]
      ensures pool == RestoredPool(boardSize, Committed(), old(pool), old(knights[ptr - 1].value))
    {
      var k := Unplace();
      ghost var ks := Committed();
      var prevConflicts := AllPreviousConflicts();
      pool := RestoreAttacked(boardSize, pool, k, prevConflicts);
      assert SlotsValid() && Committed() == ks;
      BacktrackPreserves(boardSize, Committed(), k, old(pool));
    }

    /**
      The slot updates of the backtrack step, lines 58, 59 and 74: clear the
      tried list of the current slot, retreat, and unassign the slot retreated
      to, returning the square its knight held. The unassignment comes first
      here; the pool updates between them in the code read that square, which
      is returned before the slot is cleared, and otherwise only the slots
      below the pointer, which it does not touch.
     */
    method Unplace() returns (k: Pos)
      requires SlotsValid() && 1 <= ptr < numKnights
      modifies this`seen, this`ptr, knights
      ensures SlotsValid()
      ensures ptr == old(ptr) - 1 && k == old(knights[ptr - 1].value)
      ensures knights[ptr] == None
      ensures forall i :: 0 <= i < knights.Length && i != ptr ==> knights[i] == old(knights[i])
      ensures seen == old(seen)[old(ptr) := []]
      ensures old(Committed()) == Committed() + [k]
    {
      ghost var ks := Committed();
      seen := seen[ptr := []];
      ptr := ptr - 1;
      k := knights[ptr].value;
      knights[ptr] := None;
      assert ks == Committed() + [k];
      assert forall i :: 0 <= i < ptr ==> knights[i].Some? && knights[i].value in seen[i] by {
        forall i | 0 <= i < ptr ensures knights[i].Some? && knights[i].value in seen[i] {
          assert knights[i] == old(knights[i]) && seen[i] == old(seen[i]);
        }
      }
      assert forall i :: 0 <= i < numKnights ==> NoDup(seen[i]) by {
        forall i | 0 <= i < numKnights ensures NoDup(seen[i]) {
          if i != old(ptr) {
            assert seen[i] == old(seen[i]);
          }
        }
      }
    }

    /**
      solve: commit the first free candidate while there is one, otherwise
      backtrack, until every knight is placed. Each loop round is one step
      of the budget `fuel`.
     */
    method Solve(fuel: nat) returns (r: Outcome)
      requires Valid()
      modifies this, knights
      ensures r.Solved? ==> Valid() && ptr == numKnights && r.placement == Committed()
      ensures r.Solved? ==> |r.placement| == NumKnights(boardSize) && Placement(boardSize, r.placement)
      ensures r.OutOfFuel? ==> Valid()
      ensures r.Exhausted? ==> ptr == -1 && |seen| == numKnights && seen[0] == []
    {
      var steps := fuel;
      while ptr < numKnights && ptr > -1
        invariant Valid()
        decreases steps
      {
        if steps == 0 {
          return OutOfFuel;
        }
        steps := steps - 1;
        var curSeen := seen[ptr];
        var bp := ArbitraryBP(curSeen);
        if bp.x != -1 {
          Commit(bp);
        } else if ptr == 0 {
          seen := seen[0 := []];
          ptr := -1;
          return Exhausted;
        } else {
          Backtrack();
        }
      }
      return Solved(Committed());
    }
  }
}
