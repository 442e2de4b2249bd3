/**
 * The per-character records a document derives from its raw text, and the
 * specification of the three ways the document reads them: lookup by
 * location, deletion of a location range, and grouping into display lines.
 *
 * Each record carries its buffer index, the code point, its display width, its
 * rendered position and its logical location. A newline is the first column of
 * the line it starts: it sits at (line + 1, 0) and at x = 0 of the next row.
 */
module Characters {
  import opened Wrappers
  import opened Measure
  import opened Locations
  import opened Positions

  datatype Character = Character(index: nat, value: char, width: nat, position: Position, location: Location)

  /** A half-open interval [start, end) of locations. */
  datatype Range = Range(start: Location, end: Location)

  /** The location and position the parse loop carries from one character to the next. */
  datatype Scan = Scan(location: Location, position: Position)

  function Min(a: nat, b: nat): (m: nat) {
    if a <= b then a else b
  }

  /** The column just right of `l` on the same line. */
  function NextColumn(l: Location): (r: Location) {
    Location(l.ln, l.col + 1)
  }

  // ---------------------------------------------------------------------------
  // Parsing

  /** What the parse loop holds after producing the records `done`. */
  function Following(done: seq<Character>): (r: Scan) {
    if done == [] then Scan(Location(0, 0), Position(0, 0))
    else
      var last := done[|done| - 1];
      Scan(NextColumn(last.location), Position(last.position.x + last.width, last.position.y))
  }

  /** The record for code point `c` at buffer index `index`, given the carried scan state. */
  function MakeRecord(c: char, index: nat, at: Scan): (r: Character) {
    var width := CharWidth(c);
    if c == '\n' then Character(index, c, width, Position(0, at.position.y + 1), Location(at.location.ln + 1, 0))
    else Character(index, c, width, at.position, at.location)
  }

  /**
   * The records of `raw`, one per code point, index-aligned with it: record i
   * holds index i, the code point raw[i] and its width.
   */
  function Records(raw: seq<char>): (r: seq<Character>)
    ensures |r| == |raw|
    ensures forall i :: 0 <= i < |raw| ==> r[i].index == i && r[i].value == raw[i] && r[i].width == CharWidth(raw[i])
  {
    if raw == [] then []
    else
      var done := Records(raw[..|raw| - 1]);
      done + [MakeRecord(raw[|raw| - 1], |raw| - 1, Following(done))]
  }

  /** The records of a prefix of the text are the prefix of its records. */
  lemma {:induction false} RecordsPrefix(raw: seq<char>, k: nat)
    requires k <= |raw|
    ensures Records(raw[..k]) == Records(raw)[..k]
    decreases |raw|
  {
    if k == |raw| {
      assert raw[..k] == raw;
    } else {
      var n := |raw|;
      assert raw[..n - 1][..k] == raw[..k];
      RecordsPrefix(raw[..n - 1], k);
      var done := Records(raw[..n - 1]);
      SplitOff(raw);
      PrefixOfSnoc(done, MakeRecord(raw[n - 1], n - 1, Following(done)), k);
    }
  }

  /** The records of a non-empty text are those of all but its last code point, plus one. */
  lemma SplitOff(raw: seq<char>)
    requires raw != []
    ensures var done := Records(raw[..|raw| - 1]);
      Records(raw) == done + [MakeRecord(raw[|raw| - 1], |raw| - 1, Following(done))]
  {
  }

  /** Appending an element leaves the prefixes up to the old length as they were. */
  lemma PrefixOfSnoc<T>(a: seq<T>, m: T, k: nat)
    requires k <= |a|
    ensures (a + [m])[..k] == a[..k]
  {
  }

  /** The records of raw[..i + 1] extend those of raw[..i] by the record of raw[i]. */
  lemma RecordsExtend(raw: seq<char>, i: nat)
    requires i < |raw|
    ensures Records(raw[..i + 1]) == Records(raw[..i]) + [MakeRecord(raw[i], i, Following(Records(raw[..i])))]
  {
    assert raw[..i + 1][..i] == raw[..i];
  }

  /** Record i is made from raw[i] and the scan state left by the records before it. */
  lemma RecordAt(raw: seq<char>, i: nat)
    requires i < |raw|
    ensures Records(raw)[i] == MakeRecord(raw[i], i, Following(Records(raw)[..i]))
  {
    RecordsPrefix(raw, i + 1);
    RecordsExtend(raw, i);
    var done := Records(raw[..i]);
    SnocParts(Records(raw), done, MakeRecord(raw[i], i, Following(done)), i);
  }

  /** When b's first i + 1 elements are a followed by m, b[i] is m and b's first i are a. */
  lemma SnocParts<T>(b: seq<T>, a: seq<T>, m: T, i: nat)
    requires i < |b| && b[..i + 1] == a + [m]
    ensures b[i] == m && b[..i] == a
  {
    assert b[..i] == b[..i + 1][..i];
  }

  /** The first record: a leading newline opens line 1, anything else sits at the origin. */
  lemma RecordFirst(raw: seq<char>)
    requires |raw| > 0
    ensures raw[0] == '\n' ==> Records(raw)[0].location == Location(1, 0) && Records(raw)[0].position == Position(0, 1)
    ensures raw[0] != '\n' ==> Records(raw)[0].location == Location(0, 0) && Records(raw)[0].position == Position(0, 0)
  {
    RecordAt(raw, 0);
  }

  /**
   * Record i from the one before it: a newline moves to column 0 of the next
   * line and to x = 0 of the next row; any other code point moves one column
   * right and advances x by the previous glyph's width.
   */
  lemma RecordStep(raw: seq<char>, i: nat)
    requires 0 < i < |raw|
    ensures var r := Records(raw);
      raw[i] == '\n' ==>
        r[i].location == Location(r[i - 1].location.ln + 1, 0) && r[i].position == Position(0, r[i - 1].position.y + 1)
    ensures var r := Records(raw);
      raw[i] != '\n' ==>
        r[i].location == NextColumn(r[i - 1].location) && r[i].position == Position(r[i - 1].position.x + r[i - 1].width, r[i - 1].position.y)
  {
    RecordAt(raw, i);
  }

  /** Locations strictly increase with the buffer index. */
  ghost predicate Ascending(recs: seq<Character>) {
    forall i, j :: 0 <= i < j < |recs| ==> Lt(recs[i].location, recs[j].location)
  }

  /** Record j is at a later location than the one before it. */
  predicate StepsUp(recs: seq<Character>, j: nat)
    requires 0 < j < |recs|
  {
    Lt(recs[j - 1].location, recs[j].location)
  }

  /** Each record of a text is at a later location than the one before it. */
  lemma StepIncreases(raw: seq<char>, j: nat)
    requires 0 < j < |raw|
    ensures StepsUp(Records(raw), j)
  {
    RecordStep(raw, j);
  }

  /** When every record steps up from the one before it, locations increase along the whole run. */
  lemma {:induction false} LocationsIncrease(recs: seq<Character>, i: nat, j: nat)
    requires forall k :: 0 < k < |recs| ==> StepsUp(recs, k)
    requires i < j < |recs|
    ensures Lt(recs[i].location, recs[j].location)
    decreases j - i
  {
    assert StepsUp(recs, j);
    if i + 1 < j {
      LocationsIncrease(recs, i, j - 1);
      LtTransitive(recs[i].location, recs[j - 1].location, recs[j].location);
    }
  }

  /** The records of any text are in strictly increasing location order. */
  lemma RecordsAscend(raw: seq<char>)
    ensures Ascending(Records(raw))
  {
    var recs := Records(raw);
    forall k | 0 < k < |recs|
      ensures StepsUp(recs, k)
    {
      StepIncreases(raw, k);
    }
    forall i, j | 0 <= i < j < |recs|
      ensures Lt(recs[i].location, recs[j].location)
    {
      LocationsIncrease(recs, i, j);
    }
  }

  /**
   * In ascending records a location lies after every record exactly when it
   * lies after the last one.
   */
  lemma PastLast(recs: seq<Character>, l: Location)
    ensures Ascending(recs) && recs != [] ==>
      (Gt(l, recs[|recs| - 1].location) <==> forall k :: 0 <= k < |recs| ==> Gt(l, recs[k].location))
  {
    if Ascending(recs) && recs != [] && Gt(l, recs[|recs| - 1].location) {
      forall k | 0 <= k < |recs| - 1
        ensures Gt(l, recs[k].location)
      {
        LtTransitive(recs[k].location, recs[|recs| - 1].location, l);
      }
    }
  }

  /** The number of newlines in `s`. */
  function Newlines(s: seq<char>): (n: nat) {
    if s == [] then 0 else Newlines(s[..|s| - 1]) + (if s[|s| - 1] == '\n' then 1 else 0)
  }

  /** The total display width of `s`. */
  function Columns(s: seq<char>): (w: nat) {
    if s == [] then 0 else Columns(s[..|s| - 1]) + CharWidth(s[|s| - 1])
  }

  /**
   * The location of record i, independently of the parse loop: its line is the
   * number of newlines in raw[0..=i], and its column is the distance from the
   * last newline at or before i (that newline being column 0), or from the
   * start of the text when there is none.
   */
  lemma {:induction false} LocationOf(raw: seq<char>, i: nat)
    requires i < |raw|
    ensures Records(raw)[i].location.ln == Newlines(raw[..i + 1])
    ensures var col := Records(raw)[i].location.col;
      && col <= i
      && (forall k :: i - col < k <= i ==> raw[k] != '\n')
      && (col == i || raw[i - col] == '\n')
  {
    assert raw[..i + 1][..i] == raw[..i];
    if i == 0 {
      RecordFirst(raw);
    } else {
      LocationOf(raw, i - 1);
      RecordStep(raw, i);
      var prev, here := Records(raw)[i - 1].location, Records(raw)[i].location;
      if raw[i] == '\n' {
        assert here.col == 0;
      } else {
        assert here.col == prev.col + 1 <= i;
        assert i - here.col == i - 1 - prev.col;
      }
    }
  }

  /**
   * The position of record i: its row equals its line, and its x is the total
   * width of the code points from the start of its line up to, not including,
   * itself.
   */
  lemma {:induction false} PositionOf(raw: seq<char>, i: nat)
    requires i < |raw|
    ensures var r := Records(raw)[i];
      && r.location.col <= i
      && r.position.y == r.location.ln
      && r.position.x == Columns(raw[i - r.location.col..i])
  {
    if i == 0 {
      RecordFirst(raw);
    } else {
      PositionOf(raw, i - 1);
      RecordStep(raw, i);
      var p := Records(raw)[i - 1];
      if raw[i] != '\n' {
        ColumnsStep(raw, i, p.location.col);
      }
    }
  }

  /** Widening the run of code points before index i - 1 by raw[i - 1] adds its width. */
  lemma ColumnsStep(raw: seq<char>, i: nat, col: nat)
    requires 0 < i <= |raw| && col < i
    ensures Columns(raw[i - 1 - col..i - 1]) + CharWidth(raw[i - 1]) == Columns(raw[i - (col + 1)..i])
  {
    var t := raw[i - 1 - col..i - 1];
    assert raw[i - (col + 1)..i] == t + [raw[i - 1]];
    assert (t + [raw[i - 1]])[..|t|] == t;
  }

  // ---------------------------------------------------------------------------
  // Lookup

  /** The index of the first record at location `l`, if any. */
  function IndexOf(recs: seq<Character>, l: Location): (r: Option<nat>)
    ensures r.Some? ==> r.value < |recs| && recs[r.value].location == l
    ensures r.Some? ==> forall k :: 0 <= k < r.value ==> recs[k].location != l
    ensures r.None? <==> forall k :: 0 <= k < |recs| ==> recs[k].location != l
  {
    if recs == [] then None
    else if recs[0].location == l then Some(0)
    else match IndexOf(recs[1..], l)
      case Some(i) => Some(i + 1)
      case None => None
  }

  /** In ascending records a location is held by at most one record. */
  lemma FoundIsUnique(recs: seq<Character>, l: Location, j: nat)
    requires Ascending(recs)
    requires j < |recs| && recs[j].location == l
    ensures IndexOf(recs, l) == Some(j)
  {
    var i := IndexOf(recs, l).value;
    assert i < j ==> Lt(recs[i].location, recs[j].location);
  }

  // ---------------------------------------------------------------------------
  // Removal of a location range

  /** The record lies in the half-open range. */
  predicate InRange(c: Character, rg: Range) {
    Ge(c.location, rg.start) && Lt(c.location, rg.end)
  }

  /** The first index at or after `from` whose record is in the range, or the length. */
  function FirstInRange(recs: seq<Character>, rg: Range, from: nat): (s: nat)
    requires from <= |recs|
    ensures from <= s <= |recs|
    ensures s < |recs| ==> InRange(recs[s], rg)
    ensures forall k :: from <= k < s ==> !InRange(recs[k], rg)
    decreases |recs| - from
  {
    if from == |recs| || InRange(recs[from], rg) then from else FirstInRange(recs, rg, from + 1)
  }

  /** The first index at or after `from` whose record is not in the range, or the length. */
  function FirstOutside(recs: seq<Character>, rg: Range, from: nat): (e: nat)
    requires from <= |recs|
    ensures from <= e <= |recs|
    ensures e < |recs| ==> !InRange(recs[e], rg)
    ensures forall k :: from <= k < e ==> InRange(recs[k], rg)
    decreases |recs| - from
  {
    if from == |recs| || !InRange(recs[from], rg) then from else FirstOutside(recs, rg, from + 1)
  }

  /** The start of the block of records in the range. */
  function BlockStart(recs: seq<Character>, rg: Range): nat {
    FirstInRange(recs, rg, 0)
  }

  /** The end of the block of records in the range. */
  function BlockEnd(recs: seq<Character>, rg: Range): nat {
    FirstOutside(recs, rg, BlockStart(recs, rg))
  }

  /**
   * In ascending records the records in a range form one contiguous block of
   * indices [BlockStart, BlockEnd).
   */
  lemma RangeIsBlock(recs: seq<Character>, rg: Range)
    requires Ascending(recs)
    ensures BlockStart(recs, rg) <= BlockEnd(recs, rg) <= |recs|
    ensures forall k :: 0 <= k < |recs| ==> (InRange(recs[k], rg) <==> BlockStart(recs, rg) <= k < BlockEnd(recs, rg))
  {
    var s, e := BlockStart(recs, rg), BlockEnd(recs, rg);
    forall k | e < k < |recs|
      ensures !InRange(recs[k], rg)
    {
      if InRange(recs[k], rg) {
        assert Lt(recs[s].location, recs[e].location);
        assert Lt(recs[e].location, recs[k].location);
        assert InRange(recs[e], rg);
        assert false;
      }
    }
  }

  /** The block of an ascending run of records that a range covers, as bounds. */
  lemma BlockOf(recs: seq<Character>, rg: Range) returns (s: nat, e: nat)
    requires Ascending(recs)
    ensures s <= e <= |recs|
    ensures forall k :: 0 <= k < |recs| ==> (InRange(recs[k], rg) <==> s <= k < e)
  {
    RangeIsBlock(recs, rg);
    s, e := BlockStart(recs, rg), BlockEnd(recs, rg);
  }

  /**
   * How many code points the editor's removal loop deletes from a block of
   * e - s matching records in a text of n code points. The loop deletes every
   * match at the shifted position s, but its guard compares the unshifted
   * index s + j against the already shrunk length n - j, so it stops after
   * ceil((n - s) / 2) deletions.
   */
  function RemovedCount(n: nat, s: nat, e: nat): (k: nat)
    requires s <= e <= n
  {
    Min(e - s, (n - s + 1) / 2)
  }

  /** The text the editor's removal leaves, as the loop is written. */
  function RemoveAsWritten(raw: seq<char>, recs: seq<Character>, rg: Range): (r: seq<char>)
    requires |recs| == |raw|
    ensures |r| <= |raw|
  {
    var s := BlockStart(recs, rg);
    var e := BlockEnd(recs, rg);
    raw[..s] + raw[s + RemovedCount(|raw|, s, e)..]
  }

  /** The code points whose records are outside the range: what removing the range intends to leave. */
  function Kept(raw: seq<char>, recs: seq<Character>, rg: Range): (r: seq<char>)
    requires |recs| == |raw|
    ensures |r| <= |raw|
  {
    if raw == [] then []
    else
      var n := |raw| - 1;
      Kept(raw[..n], recs[..n], rg) + (if InRange(recs[n], rg) then [] else [raw[n]])
  }

  /** When the records in the range are the indices [s, e), deleting them cuts that block out. */
  lemma {:induction false} KeptCut(raw: seq<char>, recs: seq<Character>, rg: Range, s: nat, e: nat)
    requires |recs| == |raw| && s <= e <= |raw|
    requires forall k :: 0 <= k < |recs| ==> (InRange(recs[k], rg) <==> s <= k < e)
    ensures Kept(raw, recs, rg) == raw[..s] + raw[e..]
    decreases |raw|
  {
    if raw != [] {
      var n := |raw| - 1;
      var p, q := raw[..n], recs[..n];
      if e <= n {
        KeptCut(p, q, rg, s, e);
        assert raw[e..] == p[e..] + [raw[n]];
      } else if s <= n {
        KeptCut(p, q, rg, s, n);
      } else {
        KeptCut(p, q, rg, n, n);
        assert raw == p + [raw[n]];
      }
    }
  }

  /** Deleting the in-range code points of ascending records cuts out the block. */
  lemma KeptIsBlockCut(raw: seq<char>, recs: seq<Character>, rg: Range)
    requires |recs| == |raw| && Ascending(recs)
    ensures Kept(raw, recs, rg) == raw[..BlockStart(recs, rg)] + raw[BlockEnd(recs, rg)..]
  {
    RangeIsBlock(recs, rg);
    KeptCut(raw, recs, rg, BlockStart(recs, rg), BlockEnd(recs, rg));
  }

  /** The block of a range is pinned by naming which indices are in it. */
  lemma PinBlock(recs: seq<Character>, rg: Range, s: nat, e: nat)
    requires s < e <= |recs|
    requires forall k :: 0 <= k < |recs| ==> (InRange(recs[k], rg) <==> s <= k < e)
    ensures BlockStart(recs, rg) == s && BlockEnd(recs, rg) == e
  {
    var s' := BlockStart(recs, rg);
    assert InRange(recs[s], rg);
    assert s' <= s;
    assert s' < |recs| ==> InRange(recs[s'], rg);
    var e' := BlockEnd(recs, rg);
    assert e < |recs| ==> !InRange(recs[e], rg);
  }

  /**
   * The removal as written deletes everything in the range exactly when the
   * block is no longer than ceil((n - s) / 2); otherwise it keeps the tail of
   * the block.
   */
  lemma RemoveAsWrittenIsKeptExactlyWhen(raw: seq<char>, recs: seq<Character>, rg: Range)
    requires |recs| == |raw| && Ascending(recs)
    ensures var s, e := BlockStart(recs, rg), BlockEnd(recs, rg);
      RemoveAsWritten(raw, recs, rg) == Kept(raw, recs, rg) <==> e - s <= (|raw| - s + 1) / 2
  {
    KeptIsBlockCut(raw, recs, rg);
    RangeIsBlock(recs, rg);
  }

  /** The text has no newline. */
  predicate SingleLine(raw: seq<char>) {
    forall k :: 0 <= k < |raw| ==> raw[k] != '\n'
  }

  lemma {:induction false} NoNewlines(s: seq<char>)
    requires SingleLine(s)
    ensures Newlines(s) == 0
  {
    if s != [] {
      NoNewlines(s[..|s| - 1]);
    }
  }

  /** Without a newline, record i sits at line 0, column i. */
  lemma SingleLineLocations(raw: seq<char>)
    requires SingleLine(raw)
    ensures forall i :: 0 <= i < |raw| ==> Records(raw)[i].location == Location(0, i)
  {
    forall i | 0 <= i < |raw|
      ensures Records(raw)[i].location == Location(0, i)
    {
      LocationOf(raw, i);
      NoNewlines(raw[..i + 1]);
    }
  }

  /**
   * Removing [(0,1), (0,3)) from "abc": the range holds "bc", but the removal
   * as written deletes only "b" and leaves "ac"; deleting the range leaves "a".
   */
  lemma RemoveTailShortfall()
    ensures RemoveAsWritten("abc", Records("abc"), Range(Location(0, 1), Location(0, 3))) == "ac"
    ensures Kept("abc", Records("abc"), Range(Location(0, 1), Location(0, 3))) == "a"
  {
    var raw := "abc";
    var recs, rg := Records(raw), Range(Location(0, 1), Location(0, 3));
    SingleLineLocations(raw);
    RecordsAscend(raw);
    PinBlock(recs, rg, 1, 3);
    KeptIsBlockCut(raw, recs, rg);
  }

  /** What both removals leave once the block of the range is known. */
  lemma RemoveBlock(raw: seq<char>, recs: seq<Character>, rg: Range, s: nat, e: nat)
    requires |recs| == |raw|
    requires s < e <= |recs|
    requires forall k :: 0 <= k < |recs| ==> (InRange(recs[k], rg) <==> s <= k < e)
    ensures Kept(raw, recs, rg) == raw[..s] + raw[e..]
    ensures RemoveAsWritten(raw, recs, rg) == raw[..s] + raw[s + RemovedCount(|raw|, s, e)..]
  {
    PinBlock(recs, rg, s, e);
    KeptCut(raw, recs, rg, s, e);
  }

  /** When no record is in the range, removal leaves the text as it is, as written and as intended. */
  lemma RemoveNothing(raw: seq<char>, recs: seq<Character>, rg: Range)
    requires |recs| == |raw|
    requires forall k :: 0 <= k < |recs| ==> !InRange(recs[k], rg)
    ensures Kept(raw, recs, rg) == raw
    ensures RemoveAsWritten(raw, recs, rg) == raw
  {
    KeptCut(raw, recs, rg, 0, 0);
    assert raw[..BlockStart(recs, rg)] == raw;
  }

  /** When the records in the range are the indices [s, e), the removal as written cuts the first part of that block. */
  lemma RemovedAsWritten(raw: seq<char>, recs: seq<Character>, rg: Range, s: nat, e: nat)
    requires |recs| == |raw| && s <= e <= |recs|
    requires forall k :: 0 <= k < |recs| ==> (InRange(recs[k], rg) <==> s <= k < e)
    ensures RemoveAsWritten(raw, recs, rg) == raw[..s] + raw[s + RemovedCount(|raw|, s, e)..]
  {
    if s < e {
      RemoveBlock(raw, recs, rg, s, e);
    } else {
      RemoveNothing(raw, recs, rg);
      assert raw[..s] + raw[s..] == raw;
    }
  }

  /**
   * In ascending records, the range from record s's location to `end` holds
   * exactly the records s .. e - 1 when `end` is after record e - 1 and not
   * after record e.
   */
  lemma Block(recs: seq<Character>, s: nat, e: nat, end: Location)
    requires Ascending(recs)
    requires s < e <= |recs|
    requires Lt(recs[e - 1].location, end)
    requires e < |recs| ==> Le(end, recs[e].location)
    ensures forall k :: 0 <= k < |recs| ==> (InRange(recs[k], Range(recs[s].location, end)) <==> s <= k < e)
  {
    var rg := Range(recs[s].location, end);
    forall k | 0 <= k < |recs|
      ensures InRange(recs[k], rg) <==> s <= k < e
    {
      if k < s {
        assert Lt(recs[k].location, recs[s].location);
      } else if k < e {
        if s < k {
          assert Lt(recs[s].location, recs[k].location);
        }
        if k < e - 1 {
          assert Lt(recs[k].location, recs[e - 1].location);
        }
      } else {
        var a, b := recs[e].location, recs[k].location;
        assert Le(end, a);
        if e < k {
          assert Lt(a, b);
          if a != end {
            LtTransitive(end, a, b);
          }
        }
      }
    }
  }

  /** The record after record j sits at least one column past it. */
  lemma NextAtLeast(raw: seq<char>, j: nat)
    requires j + 1 < |raw|
    ensures Le(NextColumn(Records(raw)[j].location), Records(raw)[j + 1].location)
  {
    RecordStep(raw, j + 1);
  }

  /** Cutting the block spliced into `t` at `at` out of it, wholly or its first h code points only. */
  lemma SpliceCut(t: seq<char>, raw: seq<char>, at: nat, added: seq<char>, h: nat)
    requires at <= |raw| && h <= |added| && t == raw[..at] + added + raw[at..]
    ensures t[..at] + t[at + |added|..] == raw
    ensures t[..at] + t[at + h..] == raw[..at] + added[h..] + raw[at..]
  {
    assert t[..at] == raw[..at];
    assert t[at + |added|..] == raw[at..];
    assert t[at + h..] == added[h..] + raw[at..];
  }

  /** Cutting out the block inserted into `t` at `at`, wholly and as written. */
  lemma CutInserted(t: seq<char>, raw: seq<char>, at: nat, added: seq<char>, recs: seq<Character>, rg: Range)
    requires at <= |raw| && added != [] && t == raw[..at] + added + raw[at..]
    requires |recs| == |t|
    requires forall k :: 0 <= k < |recs| ==> (InRange(recs[k], rg) <==> at <= k < at + |added|)
    ensures Kept(t, recs, rg) == raw
    ensures RemoveAsWritten(t, recs, rg) == raw[..at] + added[RemovedCount(|t|, at, at + |added|)..] + raw[at..]
  {
    RemoveBlock(t, recs, rg, at, at + |added|);
    SpliceCut(t, raw, at, added, RemovedCount(|t|, at, at + |added|));
  }

  /**
   * Inserting a non-empty text at buffer index `at` and then deleting the range
   * from its first record's location to one column past its last record's
   * location: deleting the whole range restores the text, but the removal as
   * written deletes only the first h inserted code points, h being the lesser
   * of the inserted length and half of what lies from `at` on, rounded up.
   */
  lemma InsertThenRemove(t: seq<char>, raw: seq<char>, at: nat, added: seq<char>)
    requires at <= |raw| && added != [] && t == raw[..at] + added + raw[at..]
    ensures var recs := Records(t);
      var rg := Range(recs[at].location, NextColumn(recs[at + |added| - 1].location));
      && Kept(t, recs, rg) == raw
      && RemoveAsWritten(t, recs, rg) == raw[..at] + added[RemovedCount(|t|, at, at + |added|)..] + raw[at..]
  {
    var e := at + |added|;
    var recs := Records(t);
    assert |recs| == |t| == |raw| + |added|;
    var rg := Range(recs[at].location, NextColumn(recs[e - 1].location));
    RecordsAscend(t);
    if e < |t| {
      NextAtLeast(t, e - 1);
    }
    Block(recs, at, e, rg.end);
    CutInserted(t, raw, at, added, recs, rg);
  }

  /**
   * Removing [location of record i, end), where `end` lies after record i and
   * not after record i + 1, deletes exactly raw[i], as written and as intended.
   */
  lemma RemoveOne(raw: seq<char>, i: nat, end: Location)
    requires i < |raw|
    requires Lt(Records(raw)[i].location, end)
    requires i + 1 == |raw| || Le(end, Records(raw)[i + 1].location)
    ensures RemoveAsWritten(raw, Records(raw), Range(Records(raw)[i].location, end)) == raw[..i] + raw[i + 1..]
    ensures Kept(raw, Records(raw), Range(Records(raw)[i].location, end)) == raw[..i] + raw[i + 1..]
  {
    RecordsAscend(raw);
    RemoveOneOf(raw, Records(raw), i, end);
  }

  /** The same for any ascending records of the text. */
  lemma RemoveOneOf(raw: seq<char>, recs: seq<Character>, i: nat, end: Location)
    requires |recs| == |raw| && Ascending(recs) && i < |raw|
    requires Lt(recs[i].location, end)
    requires i + 1 == |raw| || Le(end, recs[i + 1].location)
    ensures RemoveAsWritten(raw, recs, Range(recs[i].location, end)) == raw[..i] + raw[i + 1..]
    ensures Kept(raw, recs, Range(recs[i].location, end)) == raw[..i] + raw[i + 1..]
  {
    Block(recs, i, i + 1, end);
    RemoveBlock(raw, recs, Range(recs[i].location, end), i, i + 1);
    assert RemovedCount(|raw|, i, i + 1) == 1;
  }

  // ---------------------------------------------------------------------------
  // Display lines

  /** The code points of a run of records. */
  function Values(line: seq<Character>): (s: seq<char>)
    ensures |s| == |line| && forall i :: 0 <= i < |line| ==> s[i] == line[i].value
  {
    seq(|line|, i requires 0 <= i < |line| => line[i].value)
  }

  /** The records of line k that take up display columns, in buffer order. */
  function OnLine(recs: seq<Character>, k: nat): (line: seq<Character>)
    ensures forall j :: 0 <= j < |line| ==> line[j].location.ln == k && line[j].width > 0
  {
    if recs == [] then []
    else
      var n := |recs| - 1;
      OnLine(recs[..n], k) + (if recs[n].location.ln == k && recs[n].width > 0 then [recs[n]] else [])
  }

  /**
   * The number of display lines: every line up to the last record's, except
   * that the last line is not counted when nothing visible is on it.
   */
  function LineCount(recs: seq<Character>): nat {
    if recs == [] then 0
    else
      var ln := recs[|recs| - 1].location.ln;
      if OnLine(recs, ln) == [] then ln else ln + 1
  }

  /** The display lines: line k holds the visible records whose line number is k. */
  function LinesOf(recs: seq<Character>): (lines: seq<seq<Character>>) {
    seq(LineCount(recs), k requires 0 <= k < LineCount(recs) => OnLine(recs, k))
  }

  /** The pieces of `s` between newlines; there is always one more piece than newlines. */
  function Pieces(s: seq<char>): (p: seq<seq<char>>)
    ensures |p| == Newlines(s) + 1
  {
    if s == [] then [[]]
    else
      var init := Pieces(s[..|s| - 1]);
      var c := s[|s| - 1];
      if c == '\n' then init + [[]]
      else init[..|init| - 1] + [init[|init| - 1] + [c]]
  }

  /** The code points of `s` that take up display columns. */
  function Visible(s: seq<char>): seq<char> {
    if s == [] then []
    else Visible(s[..|s| - 1]) + (if CharWidth(s[|s| - 1]) > 0 then [s[|s| - 1]] else [])
  }

  /** A text with no newline is one piece. */
  lemma {:induction false} OnePiece(s: seq<char>)
    requires SingleLine(s)
    ensures Pieces(s) == [s]
    decreases |s|
  {
    if s != [] {
      var init := s[..|s| - 1];
      OnePiece(init);
      assert init + [s[|s| - 1]] == s;
    }
  }

  /** A newline followed by a text with no newline adds that text as one more piece. */
  lemma {:induction false} PieceAfterNewline(a: seq<char>, b: seq<char>)
    requires SingleLine(b)
    ensures Pieces(a + ['\n'] + b) == Pieces(a) + [b]
    decreases |b|
  {
    var t := a + ['\n'] + b;
    if b == [] {
      assert t[..|t| - 1] == a;
    } else {
      var init := b[..|b| - 1];
      PieceAfterNewline(a, init);
      assert t[..|t| - 1] == a + ['\n'] + init;
      assert init + [b[|b| - 1]] == b;
    }
  }

  /** A non-empty text is its front followed by its last code point. */
  lemma SplitLast(s: seq<char>)
    requires s != []
    ensures s[..|s| - 1] + [s[|s| - 1]] == s
  {
  }

  /** Appending a code point that takes up display columns appends it to the visible part. */
  lemma VisibleSnoc(s: seq<char>, c: char)
    ensures Visible(s + [c]) == Visible(s) + (if CharWidth(c) > 0 then [c] else [])
  {
    assert (s + [c])[..|s|] == s;
  }

  /** A record spelling one more code point extends a spelling of the visible part by what it shows. */
  lemma SpellsSnoc(line: seq<Character>, last: seq<char>, r: Character)
    requires Values(line) == Visible(last) && r.width == CharWidth(r.value)
    ensures Values(line + (if r.width > 0 then [r] else [])) == Visible(last + [r.value])
  {
    VisibleSnoc(last, r.value);
    if r.width > 0 {
      assert Values(line + [r]) == Values(line) + [r.value];
    } else {
      assert line + [] == line;
    }
  }

  /** A text whose code points all take up display columns is visible whole. */
  lemma {:induction false} AllVisible(s: seq<char>)
    requires forall k :: 0 <= k < |s| ==> CharWidth(s[k]) > 0
    ensures Visible(s) == s
    decreases |s|
  {
    if s != [] {
      var init, c := s[..|s| - 1], s[|s| - 1];
      AllVisible(init);
      VisibleSnoc(init, c);
      SplitLast(s);
    }
  }

  /** The line number the parse loop holds before record i. */
  function LineBefore(recs: seq<Character>, i: nat): nat
    requires i <= |recs|
  {
    if i == 0 then 0 else recs[i - 1].location.ln
  }

  /**
   * Record i's line number is the one before it, plus one exactly when it is
   * a newline, and a newline takes no display columns.
   */
  predicate NumberedAt(recs: seq<Character>, i: nat)
    requires i < |recs|
  {
    && recs[i].location.ln == LineBefore(recs, i) + (if recs[i].value == '\n' then 1 else 0)
    && (recs[i].value == '\n' ==> recs[i].width == 0)
  }

  /** Line numbers start at 0 and go up by one exactly at each newline. */
  ghost predicate LineNumbered(recs: seq<Character>) {
    forall i :: 0 <= i < |recs| ==> NumberedAt(recs, i)
  }

  /** The records of any text are line-numbered. */
  lemma RecordsLineNumbered(raw: seq<char>)
    ensures LineNumbered(Records(raw))
  {
    var recs := Records(raw);
    forall i | 0 <= i < |recs|
      ensures NumberedAt(recs, i)
    {
      if i == 0 {
        RecordFirst(raw);
      } else {
        RecordStep(raw, i);
      }
    }
  }

  /** Appending one record to a run adds it to its own line's records, when it is visible, and to no other. */
  lemma OnLineSnoc(recs: seq<Character>, c: Character, k: nat)
    ensures c.location.ln == k && c.width > 0 ==> OnLine(recs + [c], k) == OnLine(recs, k) + [c]
    ensures !(c.location.ln == k && c.width > 0) ==> OnLine(recs + [c], k) == OnLine(recs, k)
  {
    assert (recs + [c])[..|recs|] == recs;
  }

  /** A line number past the last record's holds nothing. */
  lemma {:induction false} OnLineEmpty(recs: seq<Character>, k: nat)
    requires forall j :: 0 <= j < |recs| ==> recs[j].location.ln < k
    ensures OnLine(recs, k) == []
  {
    if recs != [] {
      OnLineEmpty(recs[..|recs| - 1], k);
    }
  }

  /** Record i holds code point s[i] and its width, for every i. */
  ghost predicate Spell(recs: seq<Character>, s: seq<char>) {
    |recs| == |s| && forall i :: 0 <= i < |s| ==> recs[i].value == s[i] && recs[i].width == CharWidth(s[i])
  }

  /** The records of any text spell it. */
  lemma RecordsSpell(raw: seq<char>)
    ensures Spell(Records(raw), raw)
  {
  }

  /** A prefix of line-numbered records spelling `s` is line-numbered and spells the same prefix of `s`. */
  lemma NumberedPrefix(recs: seq<Character>, s: seq<char>, n: nat)
    requires Spell(recs, s) && LineNumbered(recs) && n <= |recs|
    ensures Spell(recs[..n], s[..n]) && LineNumbered(recs[..n])
  {
    forall i | 0 <= i < n
      ensures NumberedAt(recs[..n], i)
    {
      assert NumberedAt(recs, i);
    }
  }

  /**
   * In line-numbered records, the last record is on the line the newlines of
   * the text count to, and no record is on a later line.
   */
  lemma {:induction false} LinesAtMost(recs: seq<Character>, s: seq<char>)
    requires Spell(recs, s) && LineNumbered(recs)
    ensures recs != [] ==> recs[|recs| - 1].location.ln == Newlines(s)
    ensures forall j :: 0 <= j < |recs| ==> recs[j].location.ln <= Newlines(s)
    decreases |recs|
  {
    if recs != [] {
      var n := |recs| - 1;
      NumberedPrefix(recs, s, n);
      LinesAtMost(recs[..n], s[..n]);
      assert NumberedAt(recs, n);
    }
  }

  /** The visible records of line k spell the visible part of the k-th newline-separated piece of the text. */
  lemma {:induction false} OnLineSpells(recs: seq<Character>, s: seq<char>, k: nat)
    requires Spell(recs, s) && LineNumbered(recs) && k <= Newlines(s)
    ensures Values(OnLine(recs, k)) == Visible(Pieces(s)[k])
    decreases |recs|
  {
    if recs != [] {
      var n := |recs| - 1;
      var p, c, r := s[..n], s[n], recs[n];
      assert recs == recs[..n] + [r];
      NumberedPrefix(recs, s, n);
      LinesAtMost(recs, s);
      OnLineSnoc(recs[..n], r, k);
      if c == '\n' {
        if k <= Newlines(p) {
          OnLineSpells(recs[..n], p, k);
        } else {
          LinesAtMost(recs[..n], p);
          OnLineEmpty(recs[..n], k);
        }
      } else {
        OnLineSpells(recs[..n], p, k);
        if k == Newlines(p) {
          assert Pieces(s)[k] == Pieces(p)[k] + [c];
          SpellsSnoc(OnLine(recs[..n], k), Pieces(p)[k], r);
        }
      }
    }
  }

  /** The visible records of line k spell the visible part of the k-th newline-separated piece. */
  lemma OnLineSpellsPiece(raw: seq<char>, k: nat)
    requires k <= Newlines(raw)
    ensures Values(OnLine(Records(raw), k)) == Visible(Pieces(raw)[k])
  {
    RecordsSpell(raw);
    RecordsLineNumbered(raw);
    OnLineSpells(Records(raw), raw, k);
  }

  /**
   * The display lines of line-numbered records spelling `s` are `s` split on
   * newlines, each piece stripped of its zero-width code points, with the last
   * piece dropped when nothing visible is left of it.
   */
  lemma LinesSplit(recs: seq<Character>, s: seq<char>)
    requires Spell(recs, s) && LineNumbered(recs)
    ensures var lines, pieces := LinesOf(recs), Pieces(s);
      && |lines| == (if Visible(pieces[|pieces| - 1]) == [] then |pieces| - 1 else |pieces|)
      && forall k :: 0 <= k < |lines| ==> Values(lines[k]) == Visible(pieces[k])
  {
    OnLineSpells(recs, s, Newlines(s));
    LinesAtMost(recs, s);
    forall k | 0 <= k < |LinesOf(recs)|
      ensures Values(LinesOf(recs)[k]) == Visible(Pieces(s)[k])
    {
      OnLineSpells(recs, s, k);
    }
  }

  /**
   * The display lines of a text are the text split on newlines, each piece
   * stripped of its zero-width code points, with the last piece dropped when
   * nothing visible is left of it.
   */
  lemma LinesSplitText(raw: seq<char>)
    ensures var lines, pieces := LinesOf(Records(raw)), Pieces(raw);
      && |lines| == (if Visible(pieces[|pieces| - 1]) == [] then |pieces| - 1 else |pieces|)
      && forall k :: 0 <= k < |lines| ==> Values(lines[k]) == Visible(pieces[k])
  {
    RecordsSpell(raw);
    RecordsLineNumbered(raw);
    LinesSplit(Records(raw), raw);
  }
}
