/**
 * Edit sessions from the editor's own unit tests, replayed on the model.
 */
module Scenarios {
  import opened Wrappers
  import opened Locations
  import opened Characters
  import opened Documents
  import opened Measure
  import opened Positions
  import opened Contexts

  /** With "nihao你好" typed, no record sits at column 99, so insertion there appends. */
  lemma AppendPastLine(doc: Document)
    requires doc.Valid() && doc.raw == "nihao你好"
    ensures doc.InsertionPoint(Location(0, 99)) == 7
  {
    assert SingleLine(doc.raw);
    SingleLineLocations(doc.raw);
  }

  /** With "nihao你好，世界" typed, column 8 holds record 8, the ideograph 世. */
  lemma InsertBeforeRecord(doc: Document)
    requires doc.Valid() && doc.raw == "nihao你好，世界"
    ensures doc.InsertionPoint(Location(0, 8)) == 8
  {
    assert SingleLine(doc.raw);
    SingleLineLocations(doc.raw);
    doc.FindsEveryRecord(8);
  }

  /**
   * In "nihao你好，我的世界" the range [(0,0), (0,5)) holds the five Latin
   * letters, few enough for the removal as written to delete them all.
   */
  lemma RemoveLeadingLetters(doc: Document)
    requires doc.Valid() && doc.raw == "nihao你好，我的世界"
    ensures RemoveAsWritten(doc.raw, doc.parsed, Range(Location(0, 0), Location(0, 5))) == "你好，我的世界"
  {
    assert SingleLine(doc.raw);
    SingleLineLocations(doc.raw);
    var range := Range(Location(0, 0), Location(0, 5));
    assert forall k :: 0 <= k < |doc.parsed| ==> (InRange(doc.parsed[k], range) <==> 0 <= k < 5);
    RemoveBlock(doc.raw, doc.parsed, range, 0, 5);
  }

  /** The three insertions of the session as splices of code point sequences. */
  lemma Splices()
    ensures ""[..0] + "nihao你好" + ""[0..] == "nihao你好"
    ensures "nihao你好"[..7] + "，世界" + "nihao你好"[7..] == "nihao你好，世界"
    ensures "nihao你好，世界"[..8] + "我的" + "nihao你好，世界"[8..] == "nihao你好，我的世界"
  {
  }

  /**
   * Typing "nihao你好" into an empty document, then "，世界" at a column no
   * record sits at (so it lands at the end), then "我的" before the record at
   * column 8, and removing [(0,0), (0,5)): the five Latin letters go.
   */
  method InsertAndRemoveOnOneLine() returns (text: seq<char>)
    ensures text == "你好，我的世界"
  {
    Splices();
    var doc := new Document();
    var added := doc.Insert(Location(0, 0), "nihao你好");
    assert doc.raw == "nihao你好";
    AppendPastLine(doc);
    added := doc.Insert(Location(0, 99), "，世界");
    assert doc.raw == "nihao你好，世界";
    InsertBeforeRecord(doc);
    added := doc.Insert(Location(0, 8), "我的");
    assert doc.raw == "nihao你好，我的世界";
    RemoveLeadingLetters(doc);
    doc.Remove(Range(Location(0, 0), Location(0, 5)));
    text := doc.Text();
  }

  /**
   * Removing [(0,1), (0,3)) from "abc" with both loops: the loop as written
   * leaves "ac", the loop without the index guard leaves "a".
   */
  method RemoveTailBothWays() returns (asWritten: seq<char>, corrected: seq<char>)
    ensures asWritten == "ac" && corrected == "a"
  {
    RemoveTailShortfall();
    var range := Range(Location(0, 1), Location(0, 3));
    var first := new Document.FromText("abc");
    first.Remove(range);
    asWritten := first.Text();
    var second := new Document.FromText("abc");
    second.RemoveRange(range);
    corrected := second.Text();
  }

  /** Where the first records of "Hello你好\nWorld世界" sit: the newline opens line 1 at column 0. */
  lemma TwoLineLocations(raw: seq<char>)
    requires raw == "Hello你好\nWorld世界"
    ensures Records(raw)[6].location == Location(0, 6)
    ensures Records(raw)[7].location == Location(1, 0)
    ensures Records(raw)[9].location == Location(1, 2)
  {
    assert raw[..7] == "Hello你好";
    assert SingleLine(raw[..7]);
    SingleLineLocations(raw[..7]);
    RecordsPrefix(raw, 7);
    RecordStep(raw, 7);
    RecordStep(raw, 8);
    RecordStep(raw, 9);
  }

  /**
   * No record of "Hello你好\nWorld世界" lies in [(0,7), (0,8)): line 0 ends at
   * column 6 and the next record already opens line 1.
   */
  lemma NothingAtEndOfFirstLine(raw: seq<char>)
    requires raw == "Hello你好\nWorld世界"
    ensures forall k :: 0 <= k < |raw| ==> !InRange(Records(raw)[k], Range(Location(0, 7), Location(0, 8)))
  {
    var recs := Records(raw);
    TwoLineLocations(raw);
    RecordsAscend(raw);
    forall k | 0 <= k < |raw|
      ensures !InRange(recs[k], Range(Location(0, 7), Location(0, 8)))
    {
      if k < 6 {
        assert Lt(recs[k].location, recs[6].location);
      } else if k > 7 {
        assert Lt(recs[7].location, recs[k].location);
      }
    }
  }

  /** In "Hello你好\nWorld世界" location (1, 2) holds 'o', the second letter of line 1. */
  lemma SecondLetterOfLineOne(doc: Document)
    requires doc.Valid() && doc.raw == "Hello你好\nWorld世界"
    ensures doc.GetCharacter(Location(1, 2)) == Some(doc.parsed[9]) && doc.parsed[9].value == 'o'
  {
    TwoLineLocations(doc.raw);
    doc.FindsEveryRecord(9);
  }

  /**
   * In "Hello你好\nWorld世界" removing [(0,7), (0,8)) deletes nothing, and no
   * record sits at (0, 7), so insertion there appends.
   */
  lemma EndOfFirstLineIsAGap(doc: Document)
    requires doc.Valid() && doc.raw == "Hello你好\nWorld世界"
    ensures RemoveAsWritten(doc.raw, doc.parsed, Range(Location(0, 7), Location(0, 8))) == doc.raw
    ensures doc.InsertionPoint(Location(0, 7)) == |doc.raw|
  {
    NothingAtEndOfFirstLine(doc.raw);
    RemoveNothing(doc.raw, doc.parsed, Range(Location(0, 7), Location(0, 8)));
    assert forall k :: 0 <= k < |doc.parsed| ==> !InRange(doc.parsed[k], Range(Location(0, 7), Location(0, 8)));
  }

  /** Appending "，" to the two-line text. */
  lemma AppendComma()
    ensures "Hello你好\nWorld世界"[..15] + "，" + "Hello你好\nWorld世界"[15..] == "Hello你好\nWorld世界，"
  {
  }

  /**
   * The editor's first document test as the code behaves: in
   * "Hello你好\nWorld世界" location (1, 2) holds 'o' (the newline is column 0
   * of line 1), removing [(0,7), (0,8)) deletes nothing, and inserting "，" at
   * (0,7), where no record sits, appends it to the end of the text.
   */
  method NewlineOpensItsLine() returns (found: Option<char>, text: seq<char>)
    ensures found == Some('o')
    ensures text == "Hello你好\nWorld世界，"
  {
    var doc := new Document.FromText("Hello你好\nWorld世界");
    SecondLetterOfLineOne(doc);
    EndOfFirstLineIsAGap(doc);
    AppendComma();
    var c := doc.GetCharacter(Location(1, 2));
    found := Some(c.value.value);
    doc.Remove(Range(Location(0, 7), Location(0, 8)));
    var added := doc.Insert(Location(0, 7), "，");
    text := doc.Text();
  }

  /** Where the records of "rust\n铁锈" sit: the newline at (1, 0), the two ideographs after it. */
  lemma RustLocations(raw: seq<char>)
    requires raw == "rust\n铁锈"
    ensures Records(raw)[4].location == Location(1, 0)
    ensures Records(raw)[5].location == Location(1, 1)
  {
    assert raw[..4] == "rust";
    assert SingleLine(raw[..4]);
    SingleLineLocations(raw[..4]);
    RecordsPrefix(raw, 4);
    RecordStep(raw, 4);
    RecordStep(raw, 5);
  }

  /**
   * The editor's fourth document test: in "rust\n铁锈", stepping back from
   * (1, 1) finds the newline at (1, 0), and stepping forward from (1, 0)
   * finds 铁 at (1, 1).
   */
  lemma StepAroundNewline(doc: Document)
    requires doc.Valid() && doc.raw == "rust\n铁锈"
    ensures doc.Before(Location(1, 1)).Some?
    ensures doc.Before(Location(1, 1)).value.value == '\n' && doc.Before(Location(1, 1)).value.location == Location(1, 0)
    ensures doc.After(Location(1, 0)).Some?
    ensures doc.After(Location(1, 0)).value.value == '铁' && doc.After(Location(1, 0)).value.location == Location(1, 1)
  {
    RustLocations(doc.raw);
    doc.FindsEveryRecord(4);
    doc.FindsEveryRecord(5);
  }

  /** "rust\n铁锈" splits into "rust" and "铁锈". */
  lemma RustPieces(raw: seq<char>)
    requires raw == "rust\n铁锈"
    ensures Pieces(raw) == ["rust", "铁锈"]
  {
    assert raw == "rust" + ['\n'] + "铁锈";
    assert SingleLine("rust") && SingleLine("铁锈");
    PieceAfterNewline("rust", "铁锈");
    OnePiece("rust");
  }

  /** Every code point of "rust" takes one column. */
  lemma RustVisible()
    ensures Visible("rust") == "rust"
  {
    WidthOfAscii('r');
    WidthOfAscii('u');
    WidthOfAscii('s');
    WidthOfAscii('t');
    AllVisible("rust");
  }

  /** Both ideographs of "铁锈" take two columns. */
  lemma RustIdeographsVisible()
    ensures Visible("铁锈") == "铁锈"
  {
    WidthOfCjk('铁');
    WidthOfCjk('锈');
    AllVisible("铁锈");
  }

  /**
   * The editor's third document test: the display lines of "rust\n铁锈" spell
   * "rust" and "铁锈".
   */
  lemma RustLines(raw: seq<char>)
    requires raw == "rust\n铁锈"
    ensures |LinesOf(Records(raw))| == 2
    ensures Values(LinesOf(Records(raw))[0]) == "rust"
    ensures Values(LinesOf(Records(raw))[1]) == "铁锈"
  {
    RustPieces(raw);
    RustVisible();
    RustIdeographsVisible();
    LinesSplitText(raw);
  }

  /** In "ab" the records sit at (0, 0) and (0, 1). */
  lemma TwoLetters(doc: Document)
    requires doc.Valid() && doc.raw == "ab"
    ensures doc.parsed[1].location == Location(0, 1)
    ensures Gt(NextColumn(doc.parsed[1].location), doc.parsed[1].location)
  {
    assert SingleLine(doc.raw);
    SingleLineLocations(doc.raw);
  }

  /** Typing "ab" into a fresh context puts the cursor just past the 'b'. */
  method TypeTwoLetters() returns (context: Context)
    ensures fresh(context) && fresh(context.document) && context.Valid() && context.viewportSize.height >= 1
    ensures context.document.raw == "ab" && context.cursorLocation == Location(0, 2)
  {
    context := new Context.WithSize(9, 9);
    context.Input("ab");
    assert context.document.raw == "ab";
    TwoLetters(context.document);
  }

  /**
   * Typing "ab" into a fresh context puts the cursor past the 'b'; backspace
   * there deletes the 'b' and puts the cursor where it was.
   */
  method TypeThenBackspace() returns (text: seq<char>, cursor: Location)
    ensures text == "a" && cursor == Location(0, 1)
  {
    var context := TypeTwoLetters();
    TwoLetters(context.document);
    context.document.StepBackPastEnd(context.cursorLocation);
    context.Backspace();
    text := context.document.Text();
    cursor := context.cursorLocation;
  }

  /**
   * The context unit test types nine lines of nine glyphs, each followed by a
   * newline, into a 9 by 9 viewport. The last glyph of line 8 leaves the cursor
   * at (10, 8) with no offsets, which shifts the view half a width right; the
   * ninth newline leaves it at (0, 9), one row below the viewport, which shifts
   * the view back left and one line down. The three scroll-ups then put line 4,
   * not line 3, on the first row (`Clipping.AlignedExample` shows that row).
   */
  lemma ContextTestOffsets()
    ensures Recentre(Position(10, 8), 0, 0, ViewportSize(9, 9)) == (4, 0)
    ensures Recentre(Position(0, 9), 4, 0, ViewportSize(9, 9)) == (0, 1)
  {
  }
}
