/**
 * Clipping one display line into the viewport. The glyphs are scanned left
 * to right with two column counters: first the glyphs left of the horizontal
 * scroll offset are skipped, a double-width glyph straddling that edge being
 * replaced by `<` fillers for its columns past the offset; then glyphs are
 * copied while they fit the viewport width, a glyph straddling the right edge
 * being replaced by `>` fillers up to the width; after that nothing more is
 * shown. The `<` fillers are not counted against the width.
 */
module Clipping {
  import opened Measure
  import opened Characters

  /** The column where glyph k of the line starts: the total width of the glyphs before it. */
  function Col(line: seq<Character>, k: nat): (c: nat)
    requires k <= |line|
  {
    if k == 0 then 0 else Col(line, k - 1) + line[k - 1].width
  }

  /** Columns never decrease along the line. */
  lemma {:induction false} ColMonotone(line: seq<Character>, i: nat, j: nat)
    requires i <= j <= |line|
    ensures Col(line, i) <= Col(line, j)
    decreases j - i
  {
    if i < j {
      ColMonotone(line, i, j - 1);
    }
  }

  /** The total width of a run of glyphs starting at index j of the line. */
  lemma {:induction false} ColOfSlice(line: seq<Character>, j: nat, k: nat)
    requires j <= k <= |line|
    ensures Col(line[j..k], k - j) == Col(line, k) - Col(line, j)
    ensures Col(line, j) <= Col(line, k)
    decreases k - j
  {
    if j < k {
      ColOfSlice(line, j, k - 1);
      assert line[j..k][..k - 1 - j] == line[j..k - 1];
      ColPrefix(line[j..k], k - 1 - j);
    }
  }

  /** Columns of a prefix of the line are the columns of the line up to there. */
  lemma {:induction false} ColPrefix(line: seq<Character>, k: nat)
    requires k <= |line|
    ensures Col(line[..k], k) == Col(line, k)
    decreases k
  {
    if k > 0 {
      assert line[..k][..k - 1] == line[..k - 1];
      ColPrefix(line[..k - 1], k - 1);
      ColPrefixOf(line, k - 1, k);
    }
  }

  /** Cutting the line after index k does not change the columns before k. */
  lemma {:induction false} ColPrefixOf(line: seq<Character>, i: nat, k: nat)
    requires i <= k <= |line|
    ensures Col(line[..k], i) == Col(line, i)
    decreases i
  {
    if i > 0 {
      ColPrefixOf(line, i - 1, k);
    }
  }

  /** `n` copies of the filler `c`. */
  function Fill(c: char, n: nat): (s: seq<char>)
    ensures |s| == n && forall i :: 0 <= i < n ==> s[i] == c
  {
    seq(n, _ => c)
  }

  /** The first glyph at or after j that starts at or past column `left`, or the end of the line. */
  function SkipTo(line: seq<Character>, left: nat, j: nat): (k: nat)
    requires j <= |line|
    ensures j <= k <= |line|
    ensures forall m :: j <= m < k ==> Col(line, m) < left
    ensures k == |line| || Col(line, k) >= left
    decreases |line| - j
  {
    if j == |line| || Col(line, j) >= left then j else SkipTo(line, left, j + 1)
  }

  /** Glyph m starts before column `limit` and ends at or before it. */
  predicate FitsBefore(line: seq<Character>, limit: nat, m: nat)
    requires m < |line|
  {
    Col(line, m) < limit && Col(line, m + 1) <= limit
  }

  /**
   * The first glyph at or after j that does not wholly fit before column
   * `limit` (it starts at or past it, or ends past it), or the end of the line.
   */
  function FitTo(line: seq<Character>, limit: nat, j: nat): (k: nat)
    requires j <= |line|
    ensures j <= k <= |line|
    ensures forall m :: j <= m < k ==> FitsBefore(line, limit, m)
    ensures k == |line| || !FitsBefore(line, limit, k)
    ensures Col(line, j) <= limit ==> Col(line, k) <= limit
    decreases |line| - j
  {
    if j == |line| || !FitsBefore(line, limit, j) then j else FitTo(line, limit, j + 1)
  }

  /** Index of the first glyph not skipped by the horizontal offset. */
  function ShownStart(line: seq<Character>, left: nat): nat {
    SkipTo(line, left, 0)
  }

  /** The column where the shown part begins: the end of the last skipped glyph. */
  function Base(line: seq<Character>, left: nat): nat {
    Col(line, ShownStart(line, left))
  }

  /** Index of the first glyph not shown: the glyphs that fit `width` columns from the base. */
  function ShownEnd(line: seq<Character>, left: nat, width: nat): nat {
    FitTo(line, Base(line, left) + width, ShownStart(line, left))
  }

  /** The number of `<` fillers: the straddling glyph's columns past the offset. */
  function LeftFill(line: seq<Character>, left: nat): nat {
    if Base(line, left) < left then 0 else Base(line, left) - left
  }

  /** The number of `>` fillers: the columns left of the width when a glyph straddles the right edge. */
  function RightFill(line: seq<Character>, left: nat, width: nat): nat {
    var e := ShownEnd(line, left, width);
    var limit := Base(line, left) + width;
    if e < |line| && Col(line, e) < limit then limit - Col(line, e) else 0
  }

  /** The row shown for `line` with horizontal offset `left` in a viewport `width` columns wide. */
  function Clip(line: seq<Character>, left: nat, width: nat): (row: seq<char>) {
    if Base(line, left) < left then []
    else
      Fill('<', LeftFill(line, left))
      + Values(line[ShownStart(line, left)..ShownEnd(line, left, width)])
      + Fill('>', RightFill(line, left, width))
  }

  // ---------------------------------------------------------------------------
  // What a clipped row is made of

  /**
   * The `<` fillers stand for exactly one glyph, the one that starts before the
   * offset and ends after it; there are as many as its columns past the offset,
   * so fewer than its width.
   */
  lemma LeftFillIsStraddle(line: seq<Character>, left: nat)
    ensures LeftFill(line, left) > 0 ==>
      var k := ShownStart(line, left) - 1;
      && 0 <= k < |line|
      && Col(line, k) < left < Col(line, k + 1)
      && LeftFill(line, left) == Col(line, k + 1) - left
      && LeftFill(line, left) < line[k].width
  {
  }

  /**
   * The copied glyphs take at most `width` columns, and `>` fillers appear
   * only when a glyph straddles the right edge, filling the row up to exactly
   * `width` columns after the base.
   */
  lemma ShownFits(line: seq<Character>, left: nat, width: nat)
    requires Base(line, left) >= left
    ensures var s, e := ShownStart(line, left), ShownEnd(line, left, width);
      && Col(line[s..e], e - s) + RightFill(line, left, width) <= width
      && (RightFill(line, left, width) > 0 ==>
            e < |line| && Col(line[s..e], e - s) + RightFill(line, left, width) == width
            && Col(line, e + 1) > Base(line, left) + width)
  {
    var s, e := ShownStart(line, left), ShownEnd(line, left, width);
    ColOfSlice(line, s, e);
  }

  /** Every glyph of a line of visible glyphs that is at most `width` columns wide fits before column `width`. */
  lemma AllFit(line: seq<Character>, width: nat)
    requires forall k :: 0 <= k < |line| ==> line[k].width > 0
    requires Col(line, |line|) <= width
    ensures forall m :: 0 <= m < |line| ==> FitsBefore(line, width, m)
  {
    forall m | 0 <= m < |line|
      ensures FitsBefore(line, width, m)
    {
      ColMonotone(line, m + 1, |line|);
    }
  }

  /** With no horizontal offset, every glyph of a line of visible glyphs that fits the width is copied. */
  lemma AllShown(line: seq<Character>, width: nat)
    requires forall k :: 0 <= k < |line| ==> line[k].width > 0
    requires Col(line, |line|) <= width
    ensures ShownStart(line, 0) == 0 && Base(line, 0) == 0 && ShownEnd(line, 0, width) == |line|
    ensures LeftFill(line, 0) == 0 && RightFill(line, 0, width) == 0
  {
    AllFit(line, width);
  }

  /** A row with no fillers whose copied glyphs are the whole line shows the line's code points. */
  lemma RowIsWholeLine(line: seq<Character>, width: nat)
    requires ShownStart(line, 0) == 0 && Base(line, 0) == 0 && ShownEnd(line, 0, width) == |line|
    requires LeftFill(line, 0) == 0 && RightFill(line, 0, width) == 0
    ensures Clip(line, 0, width) == Values(line)
  {
    assert line[0..|line|] == line;
    assert Fill('<', 0) + Values(line) + Fill('>', 0) == Values(line);
  }

  /**
   * With no horizontal offset, a line of visible glyphs that fits the width is
   * shown whole, with no fillers.
   */
  lemma ShortLineShownWhole(line: seq<Character>, width: nat)
    requires forall k :: 0 <= k < |line| ==> line[k].width > 0
    requires Col(line, |line|) <= width
    ensures Clip(line, 0, width) == Values(line)
  {
    AllShown(line, width);
    RowIsWholeLine(line, width);
  }

  /** A line that lies wholly left of the offset shows as an empty row. */
  lemma HiddenLineEmpty(line: seq<Character>, left: nat)
    requires Col(line, |line|) < left
    ensures forall width: nat :: Clip(line, left, width) == []
  {
    ColMonotone(line, ShownStart(line, left), |line|);
  }

  /** The glyph widths of a line of nine glyphs: the ideograph 汉 at index j takes two columns, each digit one. */
  lemma DigitLineWidths(line: seq<Character>, j: nat)
    requires |line| == 9 && j < 9
    requires forall k :: 0 <= k < 9 ==> line[k].width == CharWidth(line[k].value)
    requires line[j].value == '汉'
    requires forall k :: 0 <= k < 9 && k != j ==> '0' <= line[k].value <= '9'
    ensures forall k :: 0 <= k < 9 ==> line[k].width == (if k == j then 2 else 1)
  {
    WidthOfCjk('汉');
    forall k | 0 <= k < 9 && k != j
      ensures line[k].width == 1
    {
      WidthOfAscii(line[k].value);
    }
  }

  /** In such a line the glyphs up to the ideograph start at their index, the ones after it one column later. */
  lemma {:induction false} DigitLineColumns(line: seq<Character>, j: nat, k: nat)
    requires |line| == 9 && j < 9 && k <= 9
    requires forall i :: 0 <= i < 9 ==> line[i].width == (if i == j then 2 else 1)
    ensures Col(line, k) == if k <= j then k else k + 1
  {
    if k > 0 {
      DigitLineColumns(line, j, k - 1);
    }
  }

  /**
   * Scrolled four columns left in a viewport nine columns wide, such a line with
   * its ideograph at index 3 or 4 shows glyphs 4 to 8, and nothing straddles the right edge.
   */
  lemma DigitLineShown(line: seq<Character>, j: nat)
    requires |line| == 9 && (j == 3 || j == 4)
    requires forall i :: 0 <= i < 9 ==> line[i].width == (if i == j then 2 else 1)
    ensures ShownStart(line, 4) == 4 && Base(line, 4) == (if j == 3 then 5 else 4)
    ensures ShownEnd(line, 4, 9) == 9 && RightFill(line, 4, 9) == 0
  {
    DigitLineColumns(line, j, 3);
    DigitLineColumns(line, j, 4);
    assert ShownStart(line, 4) == 4;
    var limit := Base(line, 4) + 9;
    forall m | 4 <= m < 9
      ensures FitsBefore(line, limit, m)
    {
      DigitLineColumns(line, j, m);
      DigitLineColumns(line, j, m + 1);
    }
  }

  /**
   * The line "333汉33333" scrolled four columns left in a viewport nine columns
   * wide: three digits are skipped, the double-width glyph straddles the edge
   * and shows as one `<`, and the five digits after it fit.
   */
  lemma StraddleExample(line: seq<Character>)
    requires Values(line) == "333汉33333"
    requires forall k :: 0 <= k < |line| ==> line[k].width == CharWidth(line[k].value)
    ensures Clip(line, 4, 9) == "<33333"
  {
    forall k | 0 <= k < 9
      ensures line[k].value == (if k == 3 then '汉' else '3')
    {
      assert Values(line)[k] == line[k].value;
    }
    DigitLineWidths(line, 3);
    DigitLineShown(line, 3);
    assert Values(line[4..9]) == "33333";
  }

  /**
   * The line "4444汉4444" scrolled four columns left in a viewport nine columns
   * wide: the four digits are skipped, the ideograph starts exactly at the
   * edge, and it and the four digits after it fit, with no fillers.
   */
  lemma AlignedExample(line: seq<Character>)
    requires Values(line) == "4444汉4444"
    requires forall k :: 0 <= k < |line| ==> line[k].width == CharWidth(line[k].value)
    ensures Clip(line, 4, 9) == "汉4444"
  {
    forall k | 0 <= k < 9
      ensures line[k].value == (if k == 4 then '汉' else '4')
    {
      assert Values(line)[k] == line[k].value;
    }
    DigitLineWidths(line, 4);
    DigitLineShown(line, 4);
    assert Values(line[4..9]) == "汉4444";
  }

  // ---------------------------------------------------------------------------
  // The clipping loop

  /**
   * The loop's counters after the first i glyphs: while skipping, `cut` is the
   * columns skipped so far; once past the offset it equals the offset, and
   * `used` counts the copied columns (the full width once a glyph no longer
   * fits), with the row built so far in `out`.
   */
  ghost predicate ClipState(line: seq<Character>, left: nat, width: nat, i: nat, cut: nat, used: nat, out: seq<char>)
    requires i <= |line|
  {
    var s, b := ShownStart(line, left), Base(line, left);
    if i < s || b < left then
      cut == Col(line, i) && cut < left && used == 0 && out == []
    else
      var e := ShownEnd(line, left, width);
      && cut == left
      && (i <= e ==> used + b == Col(line, i) && out == Fill('<', b - left) + Values(line[s..i]))
      && (i > e ==> used == width && out == Fill('<', b - left) + Values(line[s..e]) + Fill('>', RightFill(line, left, width)))
  }

  /** Adding a glyph to a copied run adds its code point to the run's values. */
  lemma ValuesSnoc(line: seq<Character>, s: nat, i: nat)
    requires s <= i < |line|
    ensures Values(line[s..i + 1]) == Values(line[s..i]) + [line[i].value]
  {
    assert Values(line[s..i + 1]) == Values(line[s..i]) + [line[i].value];
  }

  /** Skipping a glyph that ends at or before the offset. */
  lemma SkipWhole(line: seq<Character>, left: nat, width: nat, i: nat, cut: nat, used: nat, out: seq<char>)
    requires i < |line| && ClipState(line, left, width, i, cut, used, out)
    requires cut < left && cut + line[i].width <= left
    ensures ClipState(line, left, width, i + 1, cut + line[i].width, used, out)
  {
    var s := ShownStart(line, left);
    if i + 1 == s && Base(line, left) >= left {
      assert line[s..s] == [];
    }
  }

  /** Skipping a glyph that straddles the offset: fillers for its columns past it. */
  lemma SkipStraddle(line: seq<Character>, left: nat, width: nat, i: nat, cut: nat, used: nat, out: seq<char>)
    requires i < |line| && ClipState(line, left, width, i, cut, used, out)
    requires cut < left && cut + line[i].width > left
    ensures ClipState(line, left, width, i + 1, left, used, out + Fill('<', cut + line[i].width - left))
  {
    var s := ShownStart(line, left);
    assert Col(line, i + 1) > left;
    assert s == i + 1;
    assert line[s..s] == [];
    assert out + Fill('<', cut + line[i].width - left) == Fill('<', cut + line[i].width - left);
  }

  /** Copying a glyph that fits. */
  lemma CopyGlyph(line: seq<Character>, left: nat, width: nat, i: nat, cut: nat, used: nat, out: seq<char>)
    requires i < |line| && ClipState(line, left, width, i, cut, used, out)
    requires cut >= left && used < width && used + line[i].width <= width
    ensures ClipState(line, left, width, i + 1, cut, used + line[i].width, out + [line[i].value])
  {
    ValuesSnoc(line, ShownStart(line, left), i);
  }

  /** A glyph straddling the right edge: fillers up to the width. */
  lemma CloseRow(line: seq<Character>, left: nat, width: nat, i: nat, cut: nat, used: nat, out: seq<char>)
    requires i < |line| && ClipState(line, left, width, i, cut, used, out)
    requires cut >= left && used < width && used + line[i].width > width
    ensures ClipState(line, left, width, i + 1, cut, width, out + Fill('>', width - used))
  {
    var s, e := ShownStart(line, left), ShownEnd(line, left, width);
    assert !FitsBefore(line, Base(line, left) + width, i);
    assert e == i;
  }

  /** Past the width nothing changes. */
  lemma PastWidth(line: seq<Character>, left: nat, width: nat, i: nat, cut: nat, used: nat, out: seq<char>)
    requires i < |line| && ClipState(line, left, width, i, cut, used, out)
    requires cut >= left && used >= width
    ensures ClipState(line, left, width, i + 1, cut, used, out)
  {
    var s, e := ShownStart(line, left), ShownEnd(line, left, width);
    if i <= e {
      assert !FitsBefore(line, Base(line, left) + width, i);
      assert e == i;
      assert out + Fill('>', 0) == out;
    }
  }

  /** After the whole line, the row built is the clipped row. */
  lemma ClipDone(line: seq<Character>, left: nat, width: nat, cut: nat, used: nat, out: seq<char>)
    requires ClipState(line, left, width, |line|, cut, used, out)
    ensures out == Clip(line, left, width)
  {
    var e := ShownEnd(line, left, width);
    if Base(line, left) >= left && |line| <= e {
      assert out + Fill('>', 0) == out;
    }
  }

  /** The clipping loop over one line, run as the editor runs it. */
  method ClipRow(line: seq<Character>, left: nat, width: nat) returns (row: seq<char>)
    ensures row == Clip(line, left, width)
  {
    row := [];
    var cut: nat := 0;
    var used: nat := 0;
    for i := 0 to |line|
      invariant ClipState(line, left, width, i, cut, used, row)
    {
      var c := line[i];
      if cut < left {
        if cut + c.width <= left {
          SkipWhole(line, left, width, i, cut, used, row);
          cut := cut + c.width;
        } else {
          SkipStraddle(line, left, width, i, cut, used, row);
          row := row + Fill('<', cut + c.width - left);
          cut := left;
        }
      } else if used < width {
        if used + c.width <= width {
          CopyGlyph(line, left, width, i, cut, used, row);
          used := used + c.width;
          row := row + [c.value];
        } else {
          CloseRow(line, left, width, i, cut, used, row);
          row := row + Fill('>', width - used);
          used := width;
        }
      } else {
        PastWidth(line, left, width, i, cut, used, row);
      }
    }
    ClipDone(line, left, width, cut, used, row);
  }
}
