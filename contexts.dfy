/**
 * The editing context: a document shown through a viewport. It holds the
 * viewport size, the cursor's location in the document and two scroll offsets
 * (rows hidden above, columns hidden to the left). Typing and backspace edit
 * the document at the cursor, move the cursor and then re-centre the
 * viewport; the visual area is the document's display lines clipped to it.
 */
module Contexts {
  import opened Wrappers
  import opened Locations
  import opened Positions
  import opened Characters
  import opened Documents
  import opened Clipping

  /** Subtraction stopping at zero, as unsigned saturating subtraction does. */
  function SatSub(a: nat, b: nat): (d: nat) {
    if a >= b then a - b else 0
  }

  datatype ViewportSize = ViewportSize(width: nat, height: nat)

  /**
   * The scroll offsets after re-centring on a cursor drawn at absolute
   * position `abs`: columns move by half the width and rows by one, towards
   * the cursor, on each axis at most once and never both ways in one call.
   */
  function Recentre(abs: Position, left: nat, top: nat, size: ViewportSize): (r: (nat, nat))
    requires size.height >= 1
    ensures abs.x > left + size.width ==> r.0 == left + size.width / 2
    ensures abs.x < left ==> r.0 == SatSub(left, size.width / 2)
    ensures left <= abs.x <= left + size.width ==> r.0 == left
    ensures abs.y >= top + size.height ==> r.1 == top + 1
    ensures abs.y < top ==> r.1 == SatSub(top, 1)
    ensures top <= abs.y < top + size.height ==> r.1 == top
  {
    var cursorX, cursorY := SatSub(abs.x, left), SatSub(abs.y, top);
    var left1 := if cursorX > size.width then left + size.width / 2 else left;
    var top1 := if cursorY > size.height - 1 then top + 1 else top;
    var left2 := if abs.x < left1 then SatSub(left1, size.width / 2) else left1;
    var top2 := if abs.y < top1 then SatSub(top1, 1) else top1;
    (left2, top2)
  }

  /** Row j of the screen shows display line top + j clipped to the viewport. */
  predicate RowShows(rows: seq<seq<char>>, lines: seq<seq<Character>>, top: nat, left: nat, width: nat, j: nat)
    requires j < |rows| && top + j < |lines|
  {
    rows[j] == Clip(lines[top + j], left, width)
  }

  /**
   * Skips `top` lines, keeps at most `height` of the rest, and clips each to
   * the columns from `left` on, `width` wide.
   */
  method ClipLines(lines: seq<seq<Character>>, top: nat, left: nat, width: nat, height: nat) returns (rows: seq<seq<char>>)
    ensures |rows| == Min(height, SatSub(|lines|, top))
    ensures forall j :: 0 <= j < |rows| ==> rows[j] == Clip(lines[top + j], left, width)
  {
    rows := [];
    var k := top;
    while k < |lines| && |rows| < height
      invariant top <= k && |rows| == k - top && |rows| <= height
      invariant k == top || k <= |lines|
      invariant forall j :: 0 <= j < |rows| ==> RowShows(rows, lines, top, left, width, j)
      decreases |lines| - k
    {
      var row := ClipRow(lines[k], left, width);
      ghost var shown := rows;
      rows := rows + [row];
      forall j | 0 <= j < |rows|
        ensures RowShows(rows, lines, top, left, width, j)
      {
        if j < |shown| {
          assert RowShows(shown, lines, top, left, width, j);
        } else {
          assert rows[j] == row && top + j == k;
        }
      }
      k := k + 1;
    }
    forall j | 0 <= j < |rows|
      ensures rows[j] == Clip(lines[top + j], left, width)
    {
      assert RowShows(rows, lines, top, left, width, j);
    }
  }

  class Context {
    var viewportSize: ViewportSize
    var cursorLocation: Location
    var offsetTop: nat
    var offsetLeft: nat
    const document: Document

    /** The document's records are those of its text. */
    ghost predicate Valid()
      reads this, document
    {
      document.Valid()
    }

    /** A context of the given size over an empty document, cursor and offsets at zero. */
    constructor WithSize(width: nat, height: nat)
      ensures Valid() && fresh(document) && document.raw == []
      ensures viewportSize == ViewportSize(width, height)
      ensures cursorLocation == Location(0, 0) && offsetLeft == 0 && offsetTop == 0
    {
      viewportSize := ViewportSize(width, height);
      document := new Document();
      cursorLocation := Location(0, 0);
      offsetLeft := 0;
      offsetTop := 0;
    }

    /**
     * Where the cursor is drawn in the whole document: at the record under it;
     * else just right of the last record; else at the origin.
     */
    function AbsoluteCursorPosition(): (p: Position)
      reads this, document
      ensures document.GetCharacter(cursorLocation).Some? ==> p == document.GetCharacter(cursorLocation).value.position
      ensures document.GetCharacter(cursorLocation).None? && document.parsed == [] ==> p == Position(0, 0)
    {
      match document.GetCharacter(cursorLocation)
      case Some(c) => c.position
      case None =>
        match document.LastCharacter()
        case Some(lc) => Position(lc.position.x + lc.width, lc.position.y)
        case None => Position(0, 0)
    }

    /** Where the cursor is drawn in the viewport: the absolute position less the offsets, stopping at zero. */
    function CursorPosition(): (p: Position)
      reads this, document
      ensures var abs := AbsoluteCursorPosition();
        && p.x <= abs.x && p.y <= abs.y
        && (abs.x >= offsetLeft ==> p.x + offsetLeft == abs.x)
        && (abs.y >= offsetTop ==> p.y + offsetTop == abs.y)
        && (abs.x < offsetLeft ==> p.x == 0)
        && (abs.y < offsetTop ==> p.y == 0)
    {
      var abs := AbsoluteCursorPosition();
      Position(SatSub(abs.x, offsetLeft), SatSub(abs.y, offsetTop))
    }

    /** Moves the offsets towards the cursor, as `Recentre` describes. */
    method AutoCenterCursor()
      requires viewportSize.height >= 1
      modifies this
      ensures viewportSize == old(viewportSize) && cursorLocation == old(cursorLocation)
      ensures AbsoluteCursorPosition() == old(AbsoluteCursorPosition())
      ensures (offsetLeft, offsetTop) == Recentre(AbsoluteCursorPosition(), old(offsetLeft), old(offsetTop), viewportSize)
    {
      var cursorPos := CursorPosition();
      var absPos := AbsoluteCursorPosition();
      if cursorPos.x > viewportSize.width {
        offsetLeft := offsetLeft + viewportSize.width / 2;
      }
      if cursorPos.y > viewportSize.height - 1 {
        offsetTop := offsetTop + 1;
      }
      if absPos.x < offsetLeft {
        offsetLeft := SatSub(offsetLeft, viewportSize.width / 2);
      }
      if absPos.y < offsetTop {
        offsetTop := SatSub(offsetTop, 1);
      }
    }

    /**
     * Types `content` at the cursor. The document always takes the insertion;
     * when something was inserted, the cursor moves one column right of the
     * last inserted record's location and the viewport re-centres.
     */
    method Input(content: seq<char>)
      requires Valid() && viewportSize.height >= 1
      modifies this, document
      ensures Valid() && viewportSize == old(viewportSize)
      ensures var at := old(document.InsertionPoint(cursorLocation));
        document.raw == old(document.raw)[..at] + content + old(document.raw)[at..]
      ensures content == [] ==>
        cursorLocation == old(cursorLocation) && offsetLeft == old(offsetLeft) && offsetTop == old(offsetTop)
      ensures content != [] ==>
        && cursorLocation == NextColumn(document.parsed[old(document.InsertionPoint(cursorLocation)) + |content| - 1].location)
        && (offsetLeft, offsetTop) == Recentre(AbsoluteCursorPosition(), old(offsetLeft), old(offsetTop), viewportSize)
    {
      var chars := document.Insert(cursorLocation, content);
      if |chars| > 0 {
        cursorLocation := NextColumn(chars[|chars| - 1].location);
        AutoCenterCursor();
      }
    }

    /**
     * Deletes before the cursor: when there is a record before it, the range
     * from that record to the cursor is removed, the cursor moves to where that
     * record was, and the viewport re-centres; otherwise nothing changes. On
     * the record at index i > 0 this deletes exactly the code point at i - 1.
     * Past the last record it deletes the last code point, and in the gap past
     * the end of an earlier line it deletes nothing yet the cursor still jumps
     * to the last record (`Document.StepBackPastEnd`, `Document.StepBackInGap`).
     */
    method Backspace()
      requires Valid() && viewportSize.height >= 1
      modifies this, document
      ensures Valid() && viewportSize == old(viewportSize)
      ensures old(document.Before(cursorLocation)).None? ==>
        && document.raw == old(document.raw) && cursorLocation == old(cursorLocation)
        && offsetLeft == old(offsetLeft) && offsetTop == old(offsetTop)
      ensures old(document.Before(cursorLocation)).Some? ==>
        var prev := old(document.Before(cursorLocation)).value;
        && document.raw == RemoveAsWritten(old(document.raw), old(document.parsed), Range(prev.location, old(cursorLocation)))
        && cursorLocation == prev.location
        && (offsetLeft, offsetTop) == Recentre(AbsoluteCursorPosition(), old(offsetLeft), old(offsetTop), viewportSize)
      ensures old(document.GetCharacter(cursorLocation)).Some? && old(document.GetCharacter(cursorLocation)).value.index > 0 ==>
        var i := old(document.GetCharacter(cursorLocation)).value.index;
        document.raw == old(document.raw)[..i - 1] + old(document.raw)[i..]
    {
      var found := document.GetCharacter(cursorLocation);
      if found.Some? && found.value.index > 0 {
        document.FoundAtIndex(cursorLocation);
        document.StepBackOnRecord(found.value.index);
      }
      var before := document.Before(cursorLocation);
      if before.Some? {
        document.Remove(Range(before.value.location, cursorLocation));
        cursorLocation := before.value.location;
        AutoCenterCursor();
      }
    }

    /**
     * The rows on screen: the display lines from `offsetTop` on, at most
     * `height` of them, each clipped to the viewport.
     */
    method VisualArea() returns (rows: seq<seq<char>>)
      requires Valid()
      ensures var lines := LinesOf(document.parsed);
        && |rows| == Min(viewportSize.height, SatSub(|lines|, offsetTop))
        && forall k :: 0 <= k < |rows| ==> rows[k] == Clip(lines[offsetTop + k], offsetLeft, viewportSize.width)
    {
      var lines := document.Lines();
      rows := ClipLines(lines, offsetTop, offsetLeft, viewportSize.width, viewportSize.height);
    }

    /** Increases the rows hidden above by one. */
    method ScrollUp()
      modifies this
      ensures offsetTop == old(offsetTop) + 1
      ensures offsetLeft == old(offsetLeft) && cursorLocation == old(cursorLocation) && viewportSize == old(viewportSize)
    {
      offsetTop := offsetTop + 1;
    }

    /** Decreases the rows hidden above by one, stopping at zero. */
    method ScrollDown()
      modifies this
      ensures offsetTop == SatSub(old(offsetTop), 1)
      ensures offsetLeft == old(offsetLeft) && cursorLocation == old(cursorLocation) && viewportSize == old(viewportSize)
    {
      offsetTop := SatSub(offsetTop, 1);
    }

    /** Increases the columns hidden to the left by one. */
    method ScrollLeft()
      modifies this
      ensures offsetLeft == old(offsetLeft) + 1
      ensures offsetTop == old(offsetTop) && cursorLocation == old(cursorLocation) && viewportSize == old(viewportSize)
    {
      offsetLeft := offsetLeft + 1;
    }

    /** Decreases the columns hidden to the left by one, stopping at zero. */
    method ScrollRight()
      modifies this
      ensures offsetLeft == SatSub(old(offsetLeft), 1)
      ensures offsetTop == old(offsetTop) && cursorLocation == old(cursorLocation) && viewportSize == old(viewportSize)
    {
      offsetLeft := SatSub(offsetLeft, 1);
    }

    /** Resizes the viewport and re-centres. */
    method SetSize(width: nat, height: nat)
      requires height >= 1
      modifies this
      ensures viewportSize == ViewportSize(width, height) && cursorLocation == old(cursorLocation)
      ensures (offsetLeft, offsetTop) == Recentre(AbsoluteCursorPosition(), old(offsetLeft), old(offsetTop), viewportSize)
    {
      viewportSize := ViewportSize(width, height);
      AutoCenterCursor();
    }

    /**
     * With no record under the cursor, the cursor is drawn exactly where the
     * parse would put a code point other than a newline appended to the text.
     */
    lemma CursorPastEndAtNextGlyph(c: char)
      requires Valid() && document.GetCharacter(cursorLocation).None? && c != '\n'
      ensures AbsoluteCursorPosition() == Records(document.raw + [c])[|document.raw|].position
    {
      var raw := document.raw;
      var n := |raw|;
      RecordAt(raw + [c], n);
      RecordsPrefix(raw + [c], n);
      assert (raw + [c])[..n] == raw;
    }

    /** Under a record, the cursor is drawn on its line, at the width of the code points before it on that line. */
    lemma CursorOnRecordAtColumns()
      requires Valid() && document.GetCharacter(cursorLocation).Some?
      ensures var i := document.GetCharacter(cursorLocation).value.index;
        && AbsoluteCursorPosition().y == cursorLocation.ln
        && cursorLocation.col <= i
        && AbsoluteCursorPosition().x == Columns(document.raw[i - cursorLocation.col..i])
    {
      document.FoundAtIndex(cursorLocation);
      PositionOf(document.raw, document.GetCharacter(cursorLocation).value.index);
    }
  }

  /**
   * Unscrolled, every display line that fits the width shows as the visible
   * code points of the matching newline-separated piece of the text.
   */
  lemma UnscrolledRowSpellsText(raw: seq<char>, width: nat, k: nat)
    requires k < |LinesOf(Records(raw))|
    requires Col(LinesOf(Records(raw))[k], |LinesOf(Records(raw))[k]|) <= width
    ensures k < |Pieces(raw)|
    ensures Clip(LinesOf(Records(raw))[k], 0, width) == Visible(Pieces(raw)[k])
  {
    var line := LinesOf(Records(raw))[k];
    LinesSplitText(raw);
    ShortLineShownWhole(line, width);
  }
}
