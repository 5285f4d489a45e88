/**
  Board squares and the squares a knight on one of them attacks
  (class BoardPosition and its posAttacked method). The board size, an
  implicit field of the enclosing solver in the Java code, is an explicit
  parameter `n` here.
 */
module Positions {
  import opened Lists

  /** A square, column `x` and row `y`; value equality is coordinate equality. */
  datatype Pos = Pos(x: int, y: int)

  /** The "no square" sentinel (-1,-1) that the candidate scans return. */
  const NoPos := Pos(-1, -1)

  predicate InBounds(n: int, p: Pos) {
    0 <= p.x < n && 0 <= p.y < n
  }

  function Abs(a: int): nat {
    if a < 0 then -a else a
  }

  /** `q` is one knight move away from `p`: (±1,±2) or (±2,±1). */
  predicate KnightMove(p: Pos, q: Pos) {
    var dx, dy := Abs(q.x - p.x), Abs(q.y - p.y);
    (dx == 1 && dy == 2) || (dx == 2 && dy == 1)
  }

  /** The knight-move offsets in the order posAttacked tries them. */
  const Offsets: seq<(int, int)> := [(1, 2), (1, -2), (2, 1), (2, -1), (-1, 2), (-1, -2), (-2, 1), (-2, -1)]

  function Shift(p: Pos, o: (int, int)): Pos {
    Pos(p.x + o.0, p.y + o.1)
  }

  /** The offset that leads from `p` to `q`. */
  function Delta(p: Pos, q: Pos): (int, int) {
    (q.x - p.x, q.y - p.y)
  }

  /**
    The bounds test posAttacked applies to one offset: only the side of the
    board the offset moves towards is checked (`newX < boardSize` for a
    positive step, `newX >= 0` for a negative one, and likewise for y).
   */
  predicate Guard(n: int, p: Pos, o: (int, int)) {
    (if o.0 > 0 then p.x + o.0 < n else p.x + o.0 >= 0) &&
    (if o.1 > 0 then p.y + o.1 < n else p.y + o.1 >= 0)
  }

  /** `if (test) bps.add(q);` */
  function AddIf(bps: seq<Pos>, test: bool, q: Pos): (r: seq<Pos>)
    ensures |r| <= |bps| + 1
  {
    if test then bps + [q] else bps
  }

  /** The guarded appends of posAttacked for the offsets `offs`, in order. */
  function Targets(n: int, p: Pos, offs: seq<(int, int)>): (r: seq<Pos>)
    ensures |r| <= |offs|
  {
    if offs == [] then []
    else
      var last := offs[|offs| - 1];
      AddIf(Targets(n, p, offs[..|offs| - 1]), Guard(n, p, last), Shift(p, last))
  }

  /** posAttacked: one guarded append per knight-move offset, in the code's order. */
  function Attacks(n: int, p: Pos): (r: seq<Pos>)
    ensures |r| <= 8
  {
    Targets(n, p, Offsets)
  }

  /** Every offset moves in both directions. */
  predicate Moving(offs: seq<(int, int)>) {
    forall k :: 0 <= k < |offs| ==> offs[k].0 != 0 && offs[k].1 != 0
  }

  /**
    From a square on the board, the one-sided guards are full bounds checks:
    the targets are exactly the on-board squares that one of the offsets reaches.
   */
  lemma {:induction false} TargetsMembers(n: int, p: Pos, offs: seq<(int, int)>, q: Pos)
    requires InBounds(n, p) && Moving(offs)
    ensures q in Targets(n, p, offs) <==> InBounds(n, q) && Delta(p, q) in offs
  {
    if offs != [] {
      var init, last := offs[..|offs| - 1], offs[|offs| - 1];
      assert Moving(init) by {
        forall k | 0 <= k < |init| ensures init[k].0 != 0 && init[k].1 != 0 {
          assert init[k] == offs[k];
        }
      }
      TargetsMembers(n, p, init, q);
      assert offs == init + [last];
      assert Guard(n, p, last) <==> InBounds(n, Shift(p, last));
      assert Shift(p, last) == q <==> last == Delta(p, q);
    }
  }

  /** Distinct offsets give distinct targets. */
  lemma {:induction false} TargetsNoDup(n: int, p: Pos, offs: seq<(int, int)>)
    requires InBounds(n, p) && Moving(offs) && NoDup(offs)
    ensures NoDup(Targets(n, p, offs))
  {
    if offs != [] {
      var init, last := offs[..|offs| - 1], offs[|offs| - 1];
      assert Moving(init) && NoDup(init) && last !in init by {
        forall k | 0 <= k < |init| ensures init[k] == offs[k] {
        }
      }
      TargetsNoDup(n, p, init);
      var q := Shift(p, last);
      var s := Targets(n, p, init);
      TargetsMembers(n, p, init, q);
      assert Delta(p, q) == last;
      assert q !in s;
      if Guard(n, p, last) {
        forall i, j | 0 <= i < j < |s + [q]| ensures (s + [q])[i] != (s + [q])[j] {
          if j >= |s| {
            assert (s + [q])[i] == s[i];
          }
        }
      }
    }
  }

  /**
    posAttacked from a square on the board: distinct squares, all on the
    board, none of them the square itself, each one knight move away; and
    every knight move that stays on the board is among them.
   */
  lemma AttacksExactly(n: int, p: Pos)
    requires InBounds(n, p)
    ensures NoDup(Attacks(n, p)) && p !in Attacks(n, p)
    ensures forall q :: q in Attacks(n, p) <==> InBounds(n, q) && KnightMove(p, q)
  {
    TargetsNoDup(n, p, Offsets);
    forall q ensures q in Attacks(n, p) <==> InBounds(n, q) && KnightMove(p, q) {
      TargetsMembers(n, p, Offsets, q);
    }
    TargetsMembers(n, p, Offsets, p);
  }

  /** The shifts of `p` by `offs` that land on the board, in the order of `offs`. */
  function OnBoard(n: int, p: Pos, offs: seq<(int, int)>): (r: seq<Pos>)
    ensures |r| <= |offs|
  {
    if offs == [] then []
    else
      var last := offs[|offs| - 1];
      AddIf(OnBoard(n, p, offs[..|offs| - 1]), InBounds(n, Shift(p, last)), Shift(p, last))
  }

  /**
    posAttacked keeps the offset order of the code: from a square on the
    board its result is the list of on-board shifts of the square by
    (1,2), (1,-2), (2,1), (2,-1), (-1,2), (-1,-2), (-2,1), (-2,-1), in that order.
   */
  lemma {:induction false} TargetsInOrder(n: int, p: Pos, offs: seq<(int, int)>)
    requires InBounds(n, p) && Moving(offs)
    ensures Targets(n, p, offs) == OnBoard(n, p, offs)
  {
    if offs != [] {
      var init, last := offs[..|offs| - 1], offs[|offs| - 1];
      assert Moving(init) by {
        forall k | 0 <= k < |init| ensures init[k].0 != 0 && init[k].1 != 0 {
          assert init[k] == offs[k];
        }
      }
      TargetsInOrder(n, p, init);
      assert Guard(n, p, last) <==> InBounds(n, Shift(p, last));
    }
  }

  lemma AttacksInOrder(n: int, p: Pos)
    requires InBounds(n, p)
    ensures Attacks(n, p) == OnBoard(n, p, Offsets)
  {
    TargetsInOrder(n, p, Offsets);
  }

  /** The attack relation is symmetric on the board. */
  lemma AttackSymmetric(n: int, p: Pos, q: Pos)
    requires InBounds(n, p) && InBounds(n, q)
    ensures q in Attacks(n, p) <==> p in Attacks(n, q)
  {
    AttacksExactly(n, p);
    AttacksExactly(n, q);
  }

  /**
    allPreviousConflicts as a value: the attack lists of `ks`, concatenated
    in slot order and never deduplicated.
   */
  function Conflicts(n: int, ks: seq<Pos>): (r: seq<Pos>)
    ensures forall q :: q in r <==> exists i :: 0 <= i < |ks| && q in Attacks(n, ks[i])
  {
    if ks == [] then []
    else
      var r := Conflicts(n, ks[..|ks| - 1]) + Attacks(n, ks[|ks| - 1]);
      assert forall i :: 0 <= i < |ks| - 1 ==> ks[..|ks| - 1][i] == ks[i];
      r
  }
}
