/**
 * A rendered screen coordinate in display columns (x) and rows (y). Both are
 * 32-bit unsigned in the editor; the one-step moves saturate at 0 and at the
 * largest 32-bit value.
 */
module Positions {

  const MaxU32: nat := 0xFFFF_FFFF

  datatype Position = Position(x: nat, y: nat)

  /** Both coordinates fit the editor's 32-bit fields. */
  predicate FitsU32(p: Position) {
    p.x <= MaxU32 && p.y <= MaxU32
  }

  /** One row up, stopping at row 0. */
  function Top(p: Position): (r: Position)
    requires FitsU32(p)
    ensures FitsU32(r) && r.x == p.x
    ensures p.y > 0 ==> r.y + 1 == p.y
    ensures p.y == 0 ==> r.y == 0
  {
    Position(p.x, if p.y == 0 then 0 else p.y - 1)
  }

  /** One column right, stopping at the largest 32-bit value. */
  function Right(p: Position): (r: Position)
    requires FitsU32(p)
    ensures FitsU32(r) && r.y == p.y
    ensures p.x < MaxU32 ==> r.x == p.x + 1
    ensures p.x == MaxU32 ==> r.x == MaxU32
  {
    Position(if p.x == MaxU32 then MaxU32 else p.x + 1, p.y)
  }

  /** One row down, stopping at the largest 32-bit value. */
  function Bottom(p: Position): (r: Position)
    requires FitsU32(p)
    ensures FitsU32(r) && r.x == p.x
    ensures p.y < MaxU32 ==> r.y == p.y + 1
    ensures p.y == MaxU32 ==> r.y == MaxU32
  {
    Position(p.x, if p.y == MaxU32 then MaxU32 else p.y + 1)
  }

  /** One column left, stopping at column 0. */
  function Left(p: Position): (r: Position)
    requires FitsU32(p)
    ensures FitsU32(r) && r.y == p.y
    ensures p.x > 0 ==> r.x + 1 == p.x
    ensures p.x == 0 ==> r.x == 0
  {
    Position(if p.x == 0 then 0 else p.x - 1, p.y)
  }

  /** Builds a position holding exactly the given coordinates. */
  function New(x: nat, y: nat): (r: Position)
    requires x <= MaxU32 && y <= MaxU32
    ensures FitsU32(r) && r.x == x && r.y == y
  {
    Position(x, y)
  }

  /** Moving up then down, or left then right, returns to the start away from the edges. */
  lemma StepsUndo(p: Position)
    requires FitsU32(p)
    ensures p.y > 0 ==> Bottom(Top(p)) == p
    ensures p.x > 0 ==> Right(Left(p)) == p
    ensures p.y < MaxU32 ==> Top(Bottom(p)) == p
    ensures p.x < MaxU32 ==> Left(Right(p)) == p
  {
  }
}
