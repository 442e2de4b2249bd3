/**
 * The document: the raw code points and the records parsed from them. Every
 * edit changes the raw text and then re-parses all of it, so between calls the
 * records are always exactly those of the raw text.
 */
module Documents {
  import opened Wrappers
  import opened Measure
  import opened Locations
  import opened Positions
  import opened Characters

  /** The element at `i`, or nothing when `i` is past the end (a bounds-checked read). */
  function Get(recs: seq<Character>, i: nat): (r: Option<Character>)
    ensures r.Some? <==> i < |recs|
    ensures r.Some? ==> r.value == recs[i]
  {
    if i < |recs| then Some(recs[i]) else None
  }

  // ---------------------------------------------------------------------------
  // The removal loop

  /**
   * How many of the records with index below i lie in the block [s, e) of a
   * range: the matches the removal loop has seen after i steps.
   */
  function Matched(i: nat, s: nat, e: nat): nat
    requires s <= e
  {
    if i <= s then 0 else Min(i, e) - s
  }

  /**
   * The count of the removal loop: with `offset` matches deleted so far, record
   * i is deleted exactly when it is in the block [s, e) and its index is below
   * the shrunk length n - offset, and then every earlier match was deleted too.
   */
  lemma MatchedStep(i: nat, s: nat, e: nat, n: nat, offset: nat)
    requires s <= e <= n && i < n
    requires offset == Min(Matched(i, s, e), (n - s + 1) / 2)
    ensures s <= i < e && i < n - offset ==> offset == i - s && offset + 1 == Min(Matched(i + 1, s, e), (n - s + 1) / 2)
    ensures !(s <= i < e && i < n - offset) ==> offset == Min(Matched(i + 1, s, e), (n - s + 1) / 2)
    ensures s + offset <= n
  {
  }

  /**
   * What the removal loop holds after i records: `offset` matches deleted, as
   * many as the closed form allows, and the buffer is the text with that many
   * code points cut from the start of the block.
   */
  ghost predicate Removing(text: seq<char>, s: nat, e: nat, i: nat, offset: nat, buffer: seq<char>)
    requires s <= e <= |text|
  {
    && offset == Min(Matched(i, s, e), (|text| - s + 1) / 2)
    && s + offset <= |text|
    && buffer == text[..s] + text[s + offset..]
  }

  /**
   * One step of the removal loop on the cut text[..s] + text[s + offset..]:
   * deleting a match at i - offset removes the next code point of the block,
   * and in either case the count keeps to its closed form.
   */
  lemma RemoveStep(text: seq<char>, s: nat, e: nat, i: nat, offset: nat, buffer: seq<char>, matches: bool)
    requires s <= e <= |text| && i < |text|
    requires Removing(text, s, e, i, offset, buffer)
    requires matches <==> s <= i < e
    ensures matches && i < |buffer| ==>
      && offset <= i && i - offset < |buffer|
      && Removing(text, s, e, i + 1, offset + 1, buffer[..i - offset] + buffer[i - offset + 1..])
    ensures !(matches && i < |buffer|) ==> Removing(text, s, e, i + 1, offset, buffer)
  {
    MatchedStep(i, s, e, |text|, offset);
    if matches && i < |buffer| {
      assert buffer[..s] == text[..s];
      assert buffer[s + 1..] == text[s + offset + 1..];
    }
  }

  /** The loop starts with the whole text, and after every record it holds the closed form. */
  lemma RemovingBounds(text: seq<char>, s: nat, e: nat, offset: nat, buffer: seq<char>)
    requires s <= e <= |text|
    ensures Removing(text, s, e, 0, 0, text)
    ensures Removing(text, s, e, |text|, offset, buffer) ==> buffer == text[..s] + text[s + RemovedCount(|text|, s, e)..]
  {
    assert text[..s] + text[s..] == text;
  }

  /**
   * The removal loop over the records `recs` of `text`: a record in `range`
   * whose index is still below the buffer's length is deleted at its index
   * minus the number deleted so far.
   */
  method DeleteMatches(text: seq<char>, recs: seq<Character>, range: Range, ghost s: nat, ghost e: nat) returns (buffer: seq<char>)
    requires |recs| == |text| && s <= e <= |recs|
    requires forall k :: 0 <= k < |recs| ==> recs[k].index == k
    requires forall k :: 0 <= k < |recs| ==> (InRange(recs[k], range) <==> s <= k < e)
    ensures buffer == RemoveAsWritten(text, recs, range)
  {
    buffer := text;
    var offset: nat := 0;
    RemovingBounds(text, s, e, offset, buffer);
    for i := 0 to |recs|
      invariant Removing(text, s, e, i, offset, buffer)
    {
      var c := recs[i];
      RemoveStep(text, s, e, i, offset, buffer, InRange(c, range));
      if InRange(c, range) && c.index < |buffer| {
        buffer := buffer[..c.index - offset] + buffer[c.index - offset + 1..];
        offset := offset + 1;
      }
    }
    RemovingBounds(text, s, e, offset, buffer);
    RemovedAsWritten(text, recs, range, s, e);
  }

  /** One more record: the kept code points grow by raw[i] exactly when record i is outside the range. */
  lemma KeptStep(text: seq<char>, recs: seq<Character>, range: Range, i: nat)
    requires |recs| == |text| && i < |text|
    ensures Kept(text[..i + 1], recs[..i + 1], range)
      == Kept(text[..i], recs[..i], range) + (if InRange(recs[i], range) then [] else [text[i]])
  {
    assert text[..i + 1][..i] == text[..i];
    assert recs[..i + 1][..i] == recs[..i];
  }

  /**
   * What the corrected removal loop holds after i records: the buffer is the
   * code points kept so far, `offset` fewer than i, followed by the unscanned rest.
   */
  ghost predicate Deleting(text: seq<char>, recs: seq<Character>, range: Range, i: nat, offset: nat, buffer: seq<char>)
    requires |recs| == |text| && i <= |text|
  {
    && offset <= i
    && |Kept(text[..i], recs[..i], range)| == i - offset
    && buffer == Kept(text[..i], recs[..i], range) + text[i..]
  }

  /** One step of the corrected removal loop: deleting at i - offset removes exactly text[i]. */
  lemma DeleteStep(text: seq<char>, recs: seq<Character>, range: Range, i: nat, offset: nat, buffer: seq<char>)
    requires |recs| == |text| && i < |text|
    requires Deleting(text, recs, range, i, offset, buffer)
    ensures InRange(recs[i], range) ==>
      && i - offset < |buffer|
      && Deleting(text, recs, range, i + 1, offset + 1, buffer[..i - offset] + buffer[i - offset + 1..])
    ensures !InRange(recs[i], range) ==> Deleting(text, recs, range, i + 1, offset, buffer)
  {
    KeptStep(text, recs, range, i);
    var kept := Kept(text[..i], recs[..i], range);
    assert text[i..] == [text[i]] + text[i + 1..];
    if InRange(recs[i], range) {
      assert buffer[..i - offset] == kept;
      assert buffer[i - offset + 1..] == text[i + 1..];
    } else {
      assert buffer == (kept + [text[i]]) + text[i + 1..];
    }
  }

  /** Before the loop nothing is kept and the buffer is the whole text. */
  lemma DeletingStart(text: seq<char>, recs: seq<Character>, range: Range)
    requires |recs| == |text|
    ensures Deleting(text, recs, range, 0, 0, text)
  {
    assert text[..0] == [] && recs[..0] == [];
  }

  /** After the loop the buffer is what is kept. */
  lemma DeletingEnd(text: seq<char>, recs: seq<Character>, range: Range, buffer: seq<char>, offset: nat)
    requires |recs| == |text|
    requires Deleting(text, recs, range, |text|, offset, buffer)
    ensures buffer == Kept(text, recs, range)
  {
    assert text[..|text|] == text && recs[..|text|] == recs;
  }

  /**
   * The removal loop with the index guard dropped: every record in `range` is
   * deleted at its index minus the number deleted so far.
   */
  method DeleteInRange(text: seq<char>, recs: seq<Character>, range: Range) returns (buffer: seq<char>)
    requires |recs| == |text|
    requires forall k :: 0 <= k < |recs| ==> recs[k].index == k
    ensures buffer == Kept(text, recs, range)
  {
    buffer := text;
    var offset: nat := 0;
    DeletingStart(text, recs, range);
    for i := 0 to |recs|
      invariant Deleting(text, recs, range, i, offset, buffer)
    {
      var c := recs[i];
      DeleteStep(text, recs, range, i, offset, buffer);
      if InRange(c, range) {
        buffer := buffer[..c.index - offset] + buffer[c.index - offset + 1..];
        offset := offset + 1;
      }
    }
    DeletingEnd(text, recs, range, buffer, offset);
  }

  // ---------------------------------------------------------------------------
  // The line-grouping loop

  /**
   * What the line-grouping loop holds after i records: the finished lines
   * 0 .. currentLn - 1, and the visible records of line currentLn so far.
   */
  ghost predicate Grouped(recs: seq<Character>, i: nat, lines: seq<seq<Character>>, currentLn: nat, currentLine: seq<Character>)
    requires i <= |recs|
  {
    && currentLn == LineBefore(recs, i)
    && (forall j :: 0 <= j < i ==> recs[j].location.ln <= currentLn)
    && |lines| == currentLn
    && (forall k :: 0 <= k < currentLn ==> lines[k] == OnLine(recs[..i], k))
    && currentLine == OnLine(recs[..i], currentLn)
  }

  /** The runs of lines after one more record: it joins its own line's run, if visible, and no other. */
  lemma OnLineStep(recs: seq<Character>, i: nat)
    requires i < |recs|
    ensures recs[i].width > 0 ==> OnLine(recs[..i + 1], recs[i].location.ln) == OnLine(recs[..i], recs[i].location.ln) + [recs[i]]
    ensures forall k: nat :: k != recs[i].location.ln || recs[i].width == 0 ==> OnLine(recs[..i + 1], k) == OnLine(recs[..i], k)
  {
    assert recs[..i + 1] == recs[..i] + [recs[i]];
    forall k: nat
      ensures OnLine(recs[..i + 1], k) ==
        OnLine(recs[..i], k) + (if recs[i].location.ln == k && recs[i].width > 0 then [recs[i]] else [])
    {
      OnLineSnoc(recs[..i], recs[i], k);
    }
  }

  /** A newline closes the current line and opens the next, empty one. */
  lemma GroupNewline(recs: seq<Character>, i: nat, lines: seq<seq<Character>>, currentLn: nat, currentLine: seq<Character>)
    requires i < |recs| && NumberedAt(recs, i) && recs[i].value == '\n'
    requires Grouped(recs, i, lines, currentLn, currentLine)
    ensures recs[i].width == 0 && recs[i].location.ln == currentLn + 1
    ensures Grouped(recs, i + 1, lines + [currentLine], currentLn + 1, [])
  {
    OnLineStep(recs, i);
    OnLineEmpty(recs[..i], currentLn + 1);
  }

  /** Any other zero-width record is on the current line and changes nothing. */
  lemma GroupHidden(recs: seq<Character>, i: nat, lines: seq<seq<Character>>, currentLn: nat, currentLine: seq<Character>)
    requires i < |recs| && NumberedAt(recs, i) && recs[i].value != '\n' && recs[i].width == 0
    requires Grouped(recs, i, lines, currentLn, currentLine)
    ensures recs[i].location.ln == currentLn
    ensures Grouped(recs, i + 1, lines, currentLn, currentLine)
  {
    OnLineStep(recs, i);
  }

  /** Any other visible record is on the current line and joins it. */
  lemma GroupVisible(recs: seq<Character>, i: nat, lines: seq<seq<Character>>, currentLn: nat, currentLine: seq<Character>)
    requires i < |recs| && NumberedAt(recs, i) && recs[i].value != '\n' && recs[i].width > 0
    requires Grouped(recs, i, lines, currentLn, currentLine)
    ensures recs[i].location.ln == currentLn
    ensures Grouped(recs, i + 1, lines, currentLn, currentLine + [recs[i]])
  {
    OnLineStep(recs, i);
  }

  /**
   * The line-grouping loop: a newline closes the current line; zero-width
   * records are skipped; a record on the current line joins it; the last line
   * is kept only when it is not empty.
   */
  method GroupLines(recs: seq<Character>) returns (lines: seq<seq<Character>>)
    requires LineNumbered(recs)
    ensures lines == LinesOf(recs)
  {
    lines := [];
    var currentLn: nat := 0;
    var currentLine: seq<Character> := [];
    for i := 0 to |recs|
      invariant Grouped(recs, i, lines, currentLn, currentLine)
    {
      var c := recs[i];
      assert NumberedAt(recs, i);
      if c.value == '\n' {
        GroupNewline(recs, i, lines, currentLn, currentLine);
      } else if c.width == 0 {
        GroupHidden(recs, i, lines, currentLn, currentLine);
      } else {
        GroupVisible(recs, i, lines, currentLn, currentLine);
      }
      if c.value == '\n' {
        lines := lines + [currentLine];
        currentLn := currentLn + 1;
        currentLine := [];
      }
      if c.width == 0 {
        continue;
      }
      if c.location.ln == currentLn {
        currentLine := currentLine + [c];
      }
      if c.location.ln > currentLn {
        // Line numbers grow only at a newline, which has already moved
        // currentLn on: this branch never runs.
        assert false;
      }
      if c.location.ln < currentLn {
        assert false;
      }
    }
    assert recs[..|recs|] == recs;
    if currentLine != [] {
      lines := lines + [currentLine];
    }
  }

  // ---------------------------------------------------------------------------
  // The document

  class Document {
    var raw: seq<char>
    var parsed: seq<Character>

    /** The records are those of the raw text. */
    ghost predicate Valid()
      reads this
    {
      parsed == Records(raw)
    }

    /** The empty document. */
    constructor ()
      ensures Valid() && raw == []
    {
      raw := [];
      parsed := [];
    }

    /** A document holding `text`. */
    constructor FromText(text: seq<char>)
      ensures Valid() && raw == text
    {
      raw := text;
      parsed := [];
      new;
      Parse();
    }

    /** The document's text: the code points its records spell, in order. */
    function Text(): (s: seq<char>)
      reads this
      requires Valid()
      ensures |s| == |parsed| && forall i :: 0 <= i < |s| ==> s[i] == parsed[i].value
    {
      raw
    }

    /**
     * Rebuilds the records from the raw text in one left-to-right scan that
     * carries the current location and position.
     */
    method Parse()
      modifies this
      ensures raw == old(raw) && Valid()
    {
      parsed := [];
      var location := Location(0, 0);
      var position := Position(0, 0);
      for index := 0 to |raw|
        invariant raw == old(raw)
        invariant parsed == Records(raw[..index])
        invariant Scan(location, position) == Following(parsed)
      {
        var c := raw[index];
        var width := CharWidth(c);
        if c == '\n' {
          location := Location(location.ln + 1, 0);
          position := Position(0, position.y + 1);
        }
        RecordsExtend(raw, index);
        parsed := parsed + [Character(index, c, width, position, location)];
        location := NextColumn(location);
        position := Position(position.x + width, position.y);
      }
      assert raw[..|raw|] == raw;
    }

    /** The first record at location `l`, or nothing when no record sits there. */
    function GetCharacter(l: Location): (r: Option<Character>)
      reads this
      ensures r.Some? ==> r.value in parsed && r.value.location == l
      ensures r.None? <==> forall k :: 0 <= k < |parsed| ==> parsed[k].location != l
    {
      match IndexOf(parsed, l)
      case Some(i) => Some(parsed[i])
      case None => None
    }

    /** The last record, or nothing in an empty document. */
    function LastCharacter(): (r: Option<Character>)
      reads this
      ensures r.None? <==> parsed == []
      ensures r.Some? ==> r.value in parsed
    {
      if parsed == [] then None else Some(parsed[|parsed| - 1])
    }

    /**
     * The record before the one at `l`; nothing when that one is the first;
     * the last record when nothing sits at `l`.
     */
    function Before(l: Location): (r: Option<Character>)
      reads this
      ensures r.Some? ==> r.value in parsed
    {
      match GetCharacter(l)
      case Some(c) => if c.index > 0 then Get(parsed, c.index - 1) else None
      case None => LastCharacter()
    }

    /** The record after the one at `l`; nothing when that one is the last or nothing sits at `l`. */
    function After(l: Location): (r: Option<Character>)
      reads this
      ensures r.Some? ==> r.value in parsed
      ensures GetCharacter(l).None? ==> r.None?
    {
      match GetCharacter(l)
      case Some(c) => if c.index + 1 < |parsed| then Get(parsed, c.index + 1) else None
      case None => None
    }

    /** `l` lies after the last record, or the document is empty: after every record. */
    function IsOutOfDocument(l: Location): (r: bool)
      reads this
      ensures Valid() ==> (r <==> forall k :: 0 <= k < |parsed| ==> Gt(l, parsed[k].location))
    {
      RecordsAscend(raw);
      PastLast(parsed, l);
      match LastCharacter()
      case Some(c) => Gt(l, c.location)
      case None => true
    }

    /**
     * Where an insertion at `l` splices: at the index of the record at `l`, or
     * at the end of the text when no record sits there.
     */
    function InsertionPoint(l: Location): (at: nat)
      reads this
      requires Valid()
      ensures at <= |raw|
      ensures at < |raw| <==> GetCharacter(l).Some?
      ensures at < |raw| ==> parsed[at].location == l && GetCharacter(l) == Some(parsed[at])
    {
      match GetCharacter(l)
      case Some(c) => c.index
      case None => |raw|
    }

    /**
     * Inserts `s` before the record at `l`, or at the end when no record sits
     * there, re-parses, and returns the records of the inserted code points.
     */
    method Insert(l: Location, s: seq<char>) returns (added: seq<Character>)
      requires Valid()
      modifies this
      ensures Valid()
      ensures raw == old(raw)[..old(InsertionPoint(l))] + s + old(raw)[old(InsertionPoint(l))..]
      ensures added == parsed[old(InsertionPoint(l))..old(InsertionPoint(l)) + |s|]
      ensures s != [] ==> added[|s| - 1] == parsed[old(InsertionPoint(l)) + |s| - 1]
      ensures |added| == |s|
      ensures forall k :: 0 <= k < |s| ==> added[k].value == s[k] && added[k].index == old(InsertionPoint(l)) + k
    {
      var at := InsertionPoint(l);
      raw := raw[..at] + s + raw[at..];
      Parse();
      added := parsed[at..at + |s|];
    }

    /**
     * Deletes the code points whose records lie in `range`, as the loop is
     * written, and re-parses.
     */
    method Remove(range: Range)
      requires Valid()
      modifies this
      ensures Valid()
      ensures raw == RemoveAsWritten(old(raw), old(parsed), range)
    {
      RecordsAscend(raw);
      ghost var s, e := BlockOf(parsed, range);
      raw := DeleteMatches(raw, parsed, range, s, e);
      Parse();
    }

    /**
     * The removal as evidently intended: deletes exactly the code points whose
     * records lie in `range`, however many there are, and re-parses.
     */
    method RemoveRange(range: Range)
      requires Valid()
      modifies this
      ensures Valid()
      ensures raw == Kept(old(raw), old(parsed), range)
    {
      raw := DeleteInRange(raw, parsed, range);
      Parse();
    }

    /** The display lines of the document. */
    method Lines() returns (lines: seq<seq<Character>>)
      requires Valid()
      ensures lines == LinesOf(parsed)
    {
      RecordsLineNumbered(raw);
      lines := GroupLines(parsed);
    }

    /** Lookup finds every record at its own location. */
    lemma FindsEveryRecord(k: nat)
      requires Valid() && k < |parsed|
      ensures GetCharacter(parsed[k].location) == Some(parsed[k])
    {
      RecordsAscend(raw);
      FoundIsUnique(parsed, parsed[k].location, k);
    }

    /** A record found by lookup sits at its own index. */
    lemma FoundAtIndex(l: Location)
      requires Valid() && GetCharacter(l).Some?
      ensures GetCharacter(l).value.index < |parsed| && parsed[GetCharacter(l).value.index] == GetCharacter(l).value
    {
    }

    /** Stepping forward from `l` and then back returns to the record at `l`. */
    lemma BeforeUndoesAfter(l: Location)
      requires Valid() && After(l).Some?
      ensures Before(After(l).value.location) == GetCharacter(l)
    {
      FoundAtIndex(l);
      var i := GetCharacter(l).value.index;
      assert After(l) == Some(parsed[i + 1]);
      FindsEveryRecord(i + 1);
      assert parsed[i + 1].index == i + 1;
    }

    /** Stepping back from a record and then forward returns to it. */
    lemma AfterUndoesBefore(l: Location)
      requires Valid() && GetCharacter(l).Some? && Before(l).Some?
      ensures After(Before(l).value.location) == GetCharacter(l)
    {
      FoundAtIndex(l);
      var i := GetCharacter(l).value.index;
      FindsEveryRecord(i - 1);
    }

    /**
     * Off the records the two steps disagree: stepping back from a location no
     * record sits at gives the last record, and stepping forward from that
     * gives nothing.
     */
    lemma StepsOffTheRecords(l: Location)
      requires Valid() && GetCharacter(l).None? && parsed != []
      ensures Before(l) == Some(parsed[|parsed| - 1])
      ensures After(Before(l).value.location).None?
    {
      FindsEveryRecord(|parsed| - 1);
    }

    /**
     * Stepping forward from record i finds record i + 1, or nothing from the
     * last record; stepping back finds record i - 1, or nothing from the first.
     */
    lemma StepsAlongTheRecords()
      requires Valid()
      ensures forall i :: 0 <= i < |parsed| ==>
        After(parsed[i].location) == (if i + 1 < |parsed| then Some(parsed[i + 1]) else None)
      ensures forall i :: 0 <= i < |parsed| ==>
        Before(parsed[i].location) == (if i > 0 then Some(parsed[i - 1]) else None)
    {
      forall i | 0 <= i < |parsed|
        ensures After(parsed[i].location) == (if i + 1 < |parsed| then Some(parsed[i + 1]) else None)
        ensures Before(parsed[i].location) == (if i > 0 then Some(parsed[i - 1]) else None)
      {
        FindsEveryRecord(i);
      }
    }

    /** The last record is the one of the last code point, at or after the location of every record. */
    lemma LastIsLatest()
      requires Valid() && parsed != []
      ensures LastCharacter().Some? && LastCharacter().value.index == |raw| - 1
      ensures forall k :: 0 <= k < |parsed| ==> Le(parsed[k].location, LastCharacter().value.location)
    {
      RecordsAscend(raw);
    }

    /** Nothing sits at a location after the document. */
    lemma OutOfDocumentIsEmpty(l: Location)
      requires Valid() && IsOutOfDocument(l)
      ensures GetCharacter(l).None?
    {
      if parsed != [] {
        RecordsAscend(raw);
        var last := parsed[|parsed| - 1].location;
        forall k | 0 <= k < |parsed|
          ensures parsed[k].location != l
        {
          if k < |parsed| - 1 {
            LtTransitive(parsed[k].location, last, l);
          }
        }
      }
    }

    /**
     * The converse fails: when the text has a second line, column |raw| of
     * line 0 is inside the document and yet no record sits there, so lookup
     * and insertion there go to the end of the text.
     */
    lemma GapInsideDocument()
      requires Valid() && parsed != [] && parsed[|parsed| - 1].location.ln > 0
      ensures !IsOutOfDocument(Location(0, |raw|))
      ensures GetCharacter(Location(0, |raw|)).None?
      ensures InsertionPoint(Location(0, |raw|)) == |raw|
    {
      forall k | 0 <= k < |parsed|
        ensures parsed[k].location != Location(0, |raw|)
      {
        LocationOf(raw, k);
      }
    }

    /** Nothing comes before the first record, and nothing at all in an empty document. */
    lemma NothingBeforeStart(l: Location)
      requires Valid()
      ensures parsed == [] ==> Before(l).None?
      ensures parsed != [] ==> Before(parsed[0].location).None?
    {
      if parsed != [] {
        FindsEveryRecord(0);
      }
    }

    /**
     * From the record at index i > 0, stepping back finds record i - 1, and
     * removing the range from it to record i deletes exactly raw[i - 1].
     */
    lemma StepBackOnRecord(i: nat)
      requires Valid() && 0 < i < |parsed|
      ensures Before(parsed[i].location) == Some(parsed[i - 1])
      ensures RemoveAsWritten(raw, parsed, Range(parsed[i - 1].location, parsed[i].location)) == raw[..i - 1] + raw[i..]
    {
      FindsEveryRecord(i);
      RecordsAscend(raw);
      RemoveOne(raw, i - 1, parsed[i].location);
    }

    /**
     * The range backspace removes, from the record before `l` to `l`, holds at
     * most one record, so the removal as written and the intended one agree on it.
     */
    lemma BackspaceRemovalsAgree(l: Location)
      requires Valid() && Before(l).Some?
      ensures var rg := Range(Before(l).value.location, l);
        RemoveAsWritten(raw, parsed, rg) == Kept(raw, parsed, rg)
    {
      var n := |parsed| - 1;
      if GetCharacter(l).Some? {
        FoundAtIndex(l);
        var i := GetCharacter(l).value.index;
        RecordsAscend(raw);
        RemoveOne(raw, i - 1, l);
      } else if Gt(l, parsed[n].location) {
        RemoveOne(raw, n, l);
      } else {
        var rg := Range(parsed[n].location, l);
        assert forall k :: 0 <= k < |parsed| ==> !InRange(parsed[k], rg);
        RemoveNothing(raw, parsed, rg);
      }
    }

    /**
     * From a location after the last record, stepping back finds the last
     * record, and removing the range from it to there deletes the last code point.
     */
    lemma StepBackPastEnd(l: Location)
      requires Valid() && parsed != [] && Gt(l, parsed[|parsed| - 1].location)
      ensures Before(l) == Some(parsed[|parsed| - 1])
      ensures RemoveAsWritten(raw, parsed, Range(parsed[|parsed| - 1].location, l)) == raw[..|raw| - 1]
    {
      OutOfDocumentIsEmpty(l);
      RemoveOne(raw, |raw| - 1, l);
      assert raw[|raw|..] == [];
    }

    /**
     * From a location inside the document that no record sits at (past the end
     * of a line that is not the last), stepping back also finds the last
     * record, but the range from it back to there is empty and nothing is deleted.
     */
    lemma StepBackInGap(l: Location)
      requires Valid() && parsed != [] && GetCharacter(l).None? && Lt(l, parsed[|parsed| - 1].location)
      ensures Before(l) == Some(parsed[|parsed| - 1])
      ensures RemoveAsWritten(raw, parsed, Range(parsed[|parsed| - 1].location, l)) == raw
    {
      var rg := Range(parsed[|parsed| - 1].location, l);
      assert forall k :: 0 <= k < |parsed| ==> !InRange(parsed[k], rg);
      RemoveNothing(raw, parsed, rg);
    }
  }

  /** Converting text into a document and back gives the same text. */
  method TextRoundTrip(text: seq<char>) returns (out: seq<char>)
    ensures out == text
  {
    var doc := new Document.FromText(text);
    out := doc.Text();
  }
}
