/**
 * Display width of a code point: four control points are forced to width 0,
 * every other code point takes the width of the first entry of an ascending
 * table of (upper bound, width) pairs whose bound is not below it, and a code
 * point above the last bound is one column wide.
 */
module Measure {

  /** The 39 (upper bound, width) pairs, in the order the lookup scans them. */
  const Widths: seq<(nat, nat)> := [
    (126, 1), (159, 0), (687, 1), (710, 0), (711, 1), (727, 0), (733, 1),
    (879, 0), (1154, 1), (1161, 0), (4347, 1), (4447, 2), (7467, 1),
    (7521, 0), (8369, 1), (8426, 0), (9000, 1), (9002, 2), (11021, 1),
    (12350, 2), (12351, 1), (12438, 2), (12442, 0), (19893, 2), (19967, 1),
    (55203, 2), (63743, 1), (64106, 2), (65039, 1), (65059, 0), (65131, 2),
    (65279, 1), (65376, 2), (65500, 1), (65510, 2), (120831, 1), (130047, 1),
    (262141, 2), (1114109, 1)
  ]

  /** The code points the editor treats as invisible before consulting the table. */
  predicate IsZeroWidthControl(v: nat) {
    v == 14 || v == 15 || v == 10 || v == 13
  }

  /** Every width of `table` is at most 2 and its bounds strictly increase from entry to entry. */
  ghost predicate Ordered(table: seq<(nat, nat)>) {
    && (forall i :: 0 <= i < |table| ==> table[i].1 <= 2)
    && (forall i :: 0 <= i < |table| - 1 ==> table[i].0 < table[i + 1].0)
  }

  /** The width table is ordered. */
  lemma WidthsOrdered()
    ensures Ordered(Widths)
  {
    forall i | 0 <= i < |Widths|
      ensures Widths[i].1 <= 2
    {
    }
    forall i | 0 <= i < |Widths| - 1
      ensures Widths[i].0 < Widths[i + 1].0
    {
    }
  }

  /**
   * The scan of `table` from entry `i` on: the width of the first entry whose
   * bound is at least `v`, or 1 when no entry is left.
   */
  function LookUp(table: seq<(nat, nat)>, v: nat, i: nat): (w: nat)
    requires i <= |table|
    ensures Ordered(table) ==> w <= 2
    ensures i == |table| ==> w == 1
    decreases |table| - i
  {
    if i == |table| then 1
    else if v <= table[i].0 then table[i].1
    else LookUp(table, v, i + 1)
  }

  /** The number of columns the glyph `c` occupies on screen. */
  function CharWidth(c: char): (w: nat)
    ensures w <= 2
    ensures IsZeroWidthControl(c as nat) ==> w == 0
  {
    var v := c as nat;
    if IsZeroWidthControl(v) then 0
    else
      WidthsOrdered();
      LookUp(Widths, v, 0)
  }

  /** All bounds of an ordered table strictly increase, so the table is a partition into intervals. */
  lemma {:induction false} BoundsAscend(table: seq<(nat, nat)>, i: nat, j: nat)
    requires Ordered(table) && i < j < |table|
    ensures table[i].0 < table[j].0
    decreases j - i
  {
    if i + 1 < j {
      BoundsAscend(table, i + 1, j);
    }
  }

  /**
   * Scanning an ordered table from any entry at or before `k` reaches entry `k`
   * when `v` lies in the interval (bound of entry k-1, bound of entry k].
   */
  lemma {:induction false} LookUpFindsInterval(table: seq<(nat, nat)>, v: nat, i: nat, k: nat)
    requires Ordered(table) && i <= k < |table|
    requires v <= table[k].0
    requires k == 0 || table[k - 1].0 < v
    ensures LookUp(table, v, i) == table[k].1
    decreases k - i
  {
    if i < k {
      if i < k - 1 {
        BoundsAscend(table, i, k - 1);
      }
      LookUpFindsInterval(table, v, i + 1, k);
    }
  }

  /**
   * First match over the table is the same as interval membership: a code point
   * other than the four controls in (bound of entry k-1, bound of entry k] gets
   * the width of entry k.
   */
  lemma WidthOfInterval(c: char, k: nat)
    requires k < |Widths|
    requires !IsZeroWidthControl(c as nat)
    requires c as nat <= Widths[k].0
    requires k == 0 || Widths[k - 1].0 < c as nat
    ensures CharWidth(c) == Widths[k].1
  {
    WidthsOrdered();
    LookUpFindsInterval(Widths, c as nat, 0, k);
  }

  /** Above the last bound of an ordered table the lookup falls through to the default width 1. */
  lemma {:induction false} LookUpPastTable(table: seq<(nat, nat)>, v: nat, i: nat)
    requires Ordered(table) && 0 < |table| && i <= |table|
    requires v > table[|table| - 1].0
    ensures LookUp(table, v, i) == 1
    decreases |table| - i
  {
    if i < |table| {
      if i < |table| - 1 {
        BoundsAscend(table, i, |table| - 1);
      }
      LookUpPastTable(table, v, i + 1);
    }
  }

  /** Code points above 1114109 are one column wide. */
  lemma WidthPastTable(c: char)
    requires c as nat > 1114109
    ensures CharWidth(c) == 1
  {
    WidthsOrdered();
    LookUpPastTable(Widths, c as nat, 0);
  }

  /** Printable ASCII and the other low code points except the four controls are one column wide. */
  lemma WidthOfAscii(c: char)
    requires c as nat <= 126
    ensures CharWidth(c) == (if IsZeroWidthControl(c as nat) then 0 else 1)
  {
  }

  /** The C1 control block 127..159 is invisible. */
  lemma WidthOfC1Controls(c: char)
    requires 127 <= c as nat <= 159
    ensures CharWidth(c) == 0
  {
    WidthOfInterval(c, 1);
  }

  /** The CJK unified ideographs 19968..55203 are two columns wide. */
  lemma WidthOfCjk(c: char)
    requires 19968 <= c as nat <= 55203
    ensures CharWidth(c) == 2
  {
    WidthOfInterval(c, 25);
  }

  /** The full-width punctuation block 65280..65376 (the full-width comma among it) is two columns wide. */
  lemma WidthOfFullWidthForms(c: char)
    requires 65280 <= c as nat <= 65376
    ensures CharWidth(c) == 2
  {
    WidthOfInterval(c, 32);
  }
}
