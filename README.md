# A verified model of the pound editor core

This project models the editing core of the terminal text editor *pound*.
The core is written in Rust under `src/editor/`.

- **Document** (`documents.dfy`): the document holds its text as a sequence of code points.
  - It parses the text into one record per code point. A record holds the code point's buffer index, its value and its display width. It also holds its logical location (line, column) and its rendered position (x, y).
  - Every edit re-parses the whole text.
  - Lookups by location, insertion, range removal, stepping to the previous and next record, and grouping into display lines all work on those records.
- **Context** (`contexts.dfy`): the context shows the document through a viewport.
  - It has a size, a cursor location and two scroll offsets.
  - Typing and backspace edit at the cursor, move it, and re-centre the view.
  - The visual area is the display lines clipped to the viewport (`clipping.dfy`).
- **Width table and comparisons** (`measure.dfy`, `locations.dfy`, `positions.dfy`): the display width comes from a 39-entry width table. Locations are compared lexicographically. Positions move one step with 32-bit saturation.

The model follows the code, not the comments or the tests.

- **The parse puts a newline at column 0 of the line it opens.** A newline sits at location (line + 1, 0) and at x = 0 of the next row.
- **The first document unit test cannot pass as written.** It expects `(1, 2)` to hold `'r'` in `"Hello你好\nWorld世界"`; it holds `'o'`. It then removes `[(0,7), (0,8))`, which holds no record. Last, it inserts at `(0,7)`, where no record sits, so the text is appended at the end. `Scenarios.NewlineOpensItsLine` replays that test as the code behaves.
- **Typing past the end of a line that is not the last appends to the end of the whole text** (`Documents.Document.GapInsideDocument`).
- **Backspace there deletes nothing, but still moves the cursor to the last record** (`Documents.Document.StepBackInGap`).
- **The context unit test cannot pass as written either.** It makes 90 `input` calls: nine lines of nine glyphs, each line followed by a newline, typed into a 9 by 9 viewport. After the ninth newline the cursor is drawn on row 9, one below the viewport, so re-centring moves the view one line down (`Scenarios.ContextTestOffsets`). The three scroll-ups then put line 4, "4444汉4444", on the first row. Scrolled four columns left, that line shows as "汉4444" (`Clipping.AlignedExample`). The expected "<33333" is what line 3 would show (`Clipping.StraddleExample`).

Files:

- `wrappers.dfy`: the Option type.
- `measure.dfy`: the width table.
- `locations.dfy`: locations and their order.
- `positions.dfy`: positions.
- `characters.dfy`: records, and the specifications of parsing, lookup, removal and line grouping.
- `documents.dfy`: the document class and its loops.
- `clipping.dfy`: clipping one line to the viewport.
- `contexts.dfy`: the context class.
- `scenarios.dfy`: the unit tests replayed on the model.

## Model

| member | source | states |
|---|---|---|
| Measure.LookUp | src/editor/measure.rs:10-15 | over an ordered table the width found is at most 2; past the table it is 1 |
| Measure.CharWidth | src/editor/measure.rs:5-16 | a width is at most 2, and the four control code points 10, 13, 14, 15 are 0 wide |
| Measure.WidthsOrdered | src/editor/measure.rs:18-61 | the table's bounds strictly increase and its widths are at most 2, so its entries partition the code points into intervals |
| Measure.BoundsAscend | src/editor/measure.rs:21-61 | in an ordered table every later bound is larger than every earlier one |
| Measure.LookUpFindsInterval | src/editor/measure.rs:10-15 | the first-match scan returns entry k's width exactly for values in (bound k-1, bound k] |
| Measure.WidthOfInterval | src/editor/measure.rs:18-20 | a code point in (bound k-1, bound k] that is not one of the four controls has entry k's width |
| Measure.LookUpPastTable | src/editor/measure.rs:10-15 | above the last bound the scan falls through to width 1 |
| Measure.WidthPastTable | src/editor/measure.rs:15 | code points above 1114109 are one column wide |
| Measure.WidthOfAscii | src/editor/measure.rs:5-22 | code points up to 126 are one column wide, except the four controls, which are zero |
| Measure.WidthOfC1Controls | src/editor/measure.rs:22-23 | code points 127..159 are zero wide |
| Measure.WidthOfCjk | src/editor/measure.rs:46-47 | CJK ideographs 19968..55203 are two columns wide |
| Measure.WidthOfFullWidthForms | src/editor/measure.rs:53-54 | full-width forms 65280..65376 are two columns wide |
| Locations.Gt | src/editor/location.rs:16-20 | a > b exactly when b < a |
| Locations.Le | src/editor/location.rs:22-24 | a <= b exactly when not a > b |
| Locations.Ge | src/editor/location.rs:26-28 | a >= b exactly when not a < b |
| Locations.PartialCmp | src/editor/location.rs:30-38 | always some ordering; Equal exactly for equal locations, Less exactly when a < b, Greater exactly when b < a |
| Locations.Trichotomy | src/editor/location.rs:10-38 | exactly one of a < b, a == b, a > b |
| Locations.LtIrreflexive | src/editor/location.rs:10-14 | no location is before itself |
| Locations.LtTransitive | src/editor/location.rs:10-14 | < is transitive |
| Locations.OrderExamples | src/editor/location.rs:46-55 | the comparisons of the unit test hold |
| Positions.Top | src/editor/position.rs:8-10 | one row up, stopping at row 0, column unchanged |
| Positions.Right | src/editor/position.rs:12-14 | one column right, saturating at the largest 32-bit value |
| Positions.Bottom | src/editor/position.rs:16-18 | one row down, saturating at the largest 32-bit value |
| Positions.Left | src/editor/position.rs:20-22 | one column left, stopping at column 0 |
| Positions.New | src/editor/position.rs:24-26 | the position holds exactly the given coordinates |
| Positions.StepsUndo | src/editor/position.rs:8-22 | away from the edges, up/down and left/right undo each other |
| Characters.Records | src/editor/document.rs:51-76 | one record per code point, record i holding index i, code point raw[i] and its width |
| Characters.RecordsPrefix | src/editor/document.rs:51-76 | the records of a prefix of the text are the prefix of its records |
| Characters.RecordsExtend | src/editor/document.rs:55-75 | one loop step appends the record made from the next code point and the carried state |
| Characters.RecordAt | src/editor/document.rs:55-75 | record i is made from raw[i] and the state after the records before it |
| Characters.RecordFirst | src/editor/document.rs:53-63 | the first record is at the origin, or at (1, 0) and row 1 when it is a newline |
| Characters.RecordStep | src/editor/document.rs:58-74 | a newline moves to column 0 of the next line and x = 0 of the next row; anything else moves one column right and x by the previous width |
| Characters.StepIncreases | src/editor/document.rs:58-73 | each record is at a later location than the one before it |
| Characters.LocationsIncrease | src/editor/document.rs:55-75 | records that each step up are in increasing location order along the whole run |
| Characters.RecordsAscend | src/editor/document.rs:51-76 | the records of any text are in strictly increasing location order |
| Characters.PastLast | src/editor/document.rs:139-144 | in ascending records a location is after the last record exactly when it is after every record |
| Characters.LocationOf | src/editor/document.rs:53-73 | record i's line counts the newlines in raw[0..=i]; its column is its distance from the last newline at or before it, or from the start |
| Characters.PositionOf | src/editor/document.rs:54-74 | a record's row equals its line, and its x is the total width of the code points before it on its line |
| Characters.IndexOf | src/editor/document.rs:47-49 | the first index at location l, or none exactly when no record is at l |
| Characters.FoundIsUnique | src/editor/document.rs:47-49 | in ascending records the record at a location is the only one there |
| Characters.FirstInRange | src/editor/document.rs:38 | the first index from `from` on whose record lies in the range |
| Characters.FirstOutside | src/editor/document.rs:38 | the first index from `from` on whose record lies outside the range |
| Characters.RangeIsBlock | src/editor/document.rs:36-38 | in ascending records the records in a range are exactly one contiguous block of indices |
| Characters.BlockOf | src/editor/document.rs:36-38 | bounds of that block |
| Characters.RemoveAsWritten | src/editor/document.rs:34-45 | what the removal loop leaves: the text cut by the first min(block length, ceil((n - s) / 2)) code points of the block |
| Characters.Kept | src/editor/document.rs:34-42 | what removing a range intends to leave: the code points whose records are outside it |
| Characters.KeptCut | src/editor/document.rs:34-42 | when the range holds the indices [s, e), the intended removal cuts exactly that block |
| Characters.KeptIsBlockCut | src/editor/document.rs:34-42 | in ascending records the intended removal cuts the range's block |
| Characters.PinBlock | src/editor/document.rs:36-38 | the block bounds are determined by which indices are in the range |
| Characters.RemoveAsWrittenIsKeptExactlyWhen | src/editor/document.rs:34-42 | the removal as written deletes the whole range exactly when the block is no longer than ceil((n - s) / 2) |
| Characters.SingleLineLocations | src/editor/document.rs:53-73 | without newlines, record i sits at (0, i) |
| Characters.RemoveTailShortfall | src/editor/document.rs:34-42 | removing [(0,1), (0,3)) from "abc" leaves "ac" as written, but "a" is intended |
| Characters.RemoveBlock | src/editor/document.rs:34-42 | with the range's block known, both the intended and the as-written removal, in closed form |
| Characters.RemoveNothing | src/editor/document.rs:34-42 | a range holding no record leaves the text unchanged, as written and as intended |
| Characters.RemovedAsWritten | src/editor/document.rs:34-42 | with the range's block known, the as-written removal in closed form |
| Characters.Block | src/editor/document.rs:38 | in ascending records the range from record s to an end between records e-1 and e holds exactly records s..e-1 |
| Characters.NextAtLeast | src/editor/document.rs:58-73 | the next record is at least one column past the current one |
| Characters.CutInserted | src/editor/document.rs:16-42 | cutting an inserted block back out restores the text when removed whole, and leaves its tail as written |
| Characters.InsertThenRemove | src/editor/document.rs:16-45 | inserting a text and removing its range restores the old text as intended; as written only the first min(k, ceil((n - at) / 2)) inserted code points go |
| Characters.RemoveOne | src/editor/document.rs:34-42 | removing the range from record i up to at most the next record deletes exactly raw[i], as written and as intended |
| Characters.OnLine | src/editor/document.rs:88-98 | line k's records are all on line k and visible |
| Characters.Pieces | src/editor/document.rs:83-87 | there is one more newline-separated piece than newlines |
| Characters.OnLineSnoc | src/editor/document.rs:88-98 | a further record joins only its own line, and only when it is visible |
| Characters.OnLineEmpty | src/editor/document.rs:88-98 | a line past every record's holds nothing |
| Characters.RecordsLineNumbered | src/editor/document.rs:58-73 | line numbers start at 0 and go up by one exactly at each newline, which is zero wide |
| Characters.RecordsSpell | src/editor/document.rs:55-72 | the records spell the text with their widths |
| Characters.LinesAtMost | src/editor/document.rs:58-63 | the last record is on the line the newlines count to, and no record is beyond it |
| Characters.OnLineSpells | src/editor/document.rs:78-107 | line k's visible records spell the visible code points of the k-th newline-separated piece |
| Characters.OnLineSpellsPiece | src/editor/document.rs:78-107 | the same for the records of a text |
| Characters.LinesSplit | src/editor/document.rs:78-107 | the display lines are the text split on newlines, zero-width code points dropped, and the last piece dropped when nothing visible is left of it |
| Characters.LinesSplitText | src/editor/document.rs:78-107 | the same for the records of a text |
| Characters.OnePiece | src/editor/document.rs:83-87 | a text without newline is one piece |
| Characters.PieceAfterNewline | src/editor/document.rs:83-87 | a newline followed by a newline-free text adds that text as one more piece |
| Characters.AllVisible | src/editor/document.rs:88-90 | a text whose code points all have width is wholly visible |
| Documents.Get | src/editor/document.rs:113 | a bounds-checked read: some element exactly when the index is in range |
| Documents.MatchedStep | src/editor/document.rs:36-41 | the loop's deletion count keeps to min(matches seen, ceil((n - s) / 2)) |
| Documents.RemoveStep | src/editor/document.rs:36-41 | one loop step on the shrinking text keeps it equal to the closed form |
| Documents.DeleteMatches | src/editor/document.rs:35-42 | the removal loop's result equals the as-written removal |
| Documents.KeptStep | src/editor/document.rs:36-41 | scanning one more record adds its code point to what is kept exactly when it is outside the range |
| Documents.DeleteStep | src/editor/document.rs:36-41 | without the index guard, deleting at index - offset removes exactly the scanned code point when its record is in the range |
| Documents.DeletingStart | src/editor/document.rs:35-42 | the loop starts with the whole text and nothing yet kept |
| Documents.DeletingEnd | src/editor/document.rs:35-42 | a full scan leaves exactly what is kept |
| Documents.DeleteInRange | src/editor/document.rs:35-42 | the removal loop without the index guard deletes exactly the code points whose records lie in the range |
| Documents.OnLineStep | src/editor/document.rs:82-98 | a further record adds to its own line's run, when visible, and to no other |
| Documents.GroupNewline | src/editor/document.rs:83-87 | a newline closes the current line and opens the next, empty one |
| Documents.GroupHidden | src/editor/document.rs:88-90 | a zero-width record is skipped |
| Documents.GroupVisible | src/editor/document.rs:91-93 | a visible record joins the current line |
| Documents.GroupLines | src/editor/document.rs:78-107 | the grouping loop's result equals the display lines of the records |
| Documents.Document.constructor | src/editor/document.rs:9-13 | the empty document |
| Documents.Document.FromText | src/editor/document.rs:147-156 | a document holding the text, parsed |
| Documents.Document.Text | src/editor/document.rs:158-162 | the text is the code points of the records, in order |
| Documents.Document.Parse | src/editor/document.rs:51-76 | the parse loop rebuilds exactly the records of the text |
| Documents.Document.GetCharacter | src/editor/document.rs:47-49 | a record at the location, or none exactly when no record is there |
| Documents.Document.LastCharacter | src/editor/document.rs:135-137 | none exactly for an empty document, otherwise a record of the document |
| Documents.Document.LastIsLatest | src/editor/document.rs:135-137 | the last record is the record of the last code point, at or after the location of every record |
| Documents.Document.IsOutOfDocument | src/editor/document.rs:139-144 | a location is out of the document exactly when it lies after every record, so always in an empty document |
| Documents.Document.Before | src/editor/document.rs:109-120 | the result is a record of the document |
| Documents.Document.After | src/editor/document.rs:122-133 | the result is a record of the document, and none when no record is at the location |
| Documents.Document.InsertionPoint | src/editor/document.rs:17-29 | inside the text exactly when a record is at the location, and then the index of that record |
| Documents.Document.Insert | src/editor/document.rs:16-32 | the text becomes the old text with s spliced in at the insertion point; the returned records are those of s |
| Documents.Document.Remove | src/editor/document.rs:34-45 | the text becomes the as-written removal of the range |
| Documents.Document.RemoveRange | src/editor/document.rs:34-45 | the corrected removal: the text becomes exactly the code points outside the range, and the records are rebuilt |
| Documents.Document.Lines | src/editor/document.rs:78-107 | the display lines of the records |
| Documents.Document.FindsEveryRecord | src/editor/document.rs:47-49 | lookup finds every record at its own location |
| Documents.Document.FoundAtIndex | src/editor/document.rs:47-49 | a found record sits at its own index |
| Documents.Document.StepsAlongTheRecords | src/editor/document.rs:109-133 | from record i, stepping forward finds record i + 1 (none from the last), stepping back finds record i - 1 (none from the first) |
| Documents.Document.BeforeUndoesAfter | src/editor/document.rs:109-133 | stepping forward then back returns to the record |
| Documents.Document.AfterUndoesBefore | src/editor/document.rs:109-133 | stepping back then forward returns to the record |
| Documents.Document.StepsOffTheRecords | src/editor/document.rs:109-133 | off the records, stepping back gives the last record and stepping forward from it gives nothing |
| Documents.Document.OutOfDocumentIsEmpty | src/editor/document.rs:139-144 | nothing sits after the document |
| Documents.Document.GapInsideDocument | src/editor/document.rs:139-144 | a location inside the document can still hold no record, and insertion there goes to the end of the text |
| Documents.Document.NothingBeforeStart | src/editor/document.rs:109-120 | nothing comes before the first record |
| Documents.Document.StepBackOnRecord | src/editor/context.rs:37-44 | from record i > 0, backspace's step and range delete exactly raw[i-1] |
| Documents.Document.StepBackPastEnd | src/editor/context.rs:37-44 | after the last record, backspace's step and range delete the last code point |
| Documents.Document.BackspaceRemovalsAgree | src/editor/context.rs:37-44 | backspace's range holds at most one record, so the removal as written and the intended removal leave the same text |
| Documents.Document.StepBackInGap | src/editor/context.rs:37-44 | in a gap inside the document, backspace's step finds the last record but its range deletes nothing |
| Documents.TextRoundTrip | src/editor/document.rs:147-162 | text into a document and back is the same text |
| Clipping.Fill | src/editor/context.rs:61-62 | n copies of the filler |
| Clipping.SkipTo | src/editor/context.rs:57-66 | the first glyph starting at or past the offset; all glyphs before it start before the offset |
| Clipping.FitTo | src/editor/context.rs:68-77 | the glyphs up to the first that does not fit all fit, and they stay within the limit |
| Clipping.LeftFillIsStraddle | src/editor/context.rs:59-64 | the `<` fillers stand for the one glyph straddling the offset, as many as its columns past it, fewer than its width |
| Clipping.ShownFits | src/editor/context.rs:68-80 | the copied glyphs plus the `>` fillers take at most the width, exactly the width when a glyph straddles the right edge |
| Clipping.AllShown | src/editor/context.rs:53-84 | unscrolled, every glyph of a visible line that fits the width is copied, with no fillers |
| Clipping.ShortLineShownWhole | src/editor/context.rs:53-84 | unscrolled, a visible line that fits the width shows whole |
| Clipping.HiddenLineEmpty | src/editor/context.rs:56-65 | a line wholly left of the offset shows as an empty row |
| Clipping.StraddleExample | src/editor/context.rs:171-191 | the row the context test expects: line 3, "333汉33333", scrolled 4 columns in 9 shows as "<33333" |
| Clipping.AlignedExample | src/editor/context.rs:171-191 | the row the context test actually gets: line 4, "4444汉4444", scrolled 4 columns in 9 shows as "汉4444" |
| Clipping.SkipWhole | src/editor/context.rs:59-60 | skipping a whole glyph keeps the loop state |
| Clipping.SkipStraddle | src/editor/context.rs:61-64 | a straddling glyph adds its overhang in `<` fillers and ends skipping |
| Clipping.CopyGlyph | src/editor/context.rs:70-73 | a fitting glyph is copied |
| Clipping.CloseRow | src/editor/context.rs:74-77 | a glyph straddling the right edge fills the row with `>` to the width |
| Clipping.PastWidth | src/editor/context.rs:79-81 | past the width nothing changes |
| Clipping.ClipDone | src/editor/context.rs:53-84 | after the whole line the loop's row is the clipped row |
| Clipping.ClipRow | src/editor/context.rs:53-84 | the per-line loop yields exactly the clipped row |
| Contexts.Recentre | src/editor/context.rs:142-157 | per axis, the offset moves by half the width or one row toward the cursor, or stays when the cursor is in view |
| Contexts.ClipLines | src/editor/context.rs:48-86 | skips top lines, keeps at most height, and clips each |
| Contexts.Context.WithSize | src/editor/context.rs:13-21 | an empty document, cursor at the origin, offsets 0 |
| Contexts.Context.AbsoluteCursorPosition | src/editor/context.rs:126-140 | the position of the record under the cursor, or the origin for an empty document |
| Contexts.Context.CursorPosition | src/editor/context.rs:119-124 | the absolute position less the offsets, stopping at 0 |
| Contexts.Context.AutoCenterCursor | src/editor/context.rs:142-157 | the offsets become the re-centred ones; the cursor position in the document is unchanged |
| Contexts.Context.Input | src/editor/context.rs:23-35 | the text is spliced at the insertion point; for a non-empty input, the cursor goes just past the last inserted record and the view re-centres |
| Contexts.Context.Backspace | src/editor/context.rs:37-44 | with no record before the cursor nothing changes; otherwise the range back to it is removed as written, the cursor moves there and the view re-centres; on record i > 0 exactly raw[i-1] goes |
| Contexts.Context.VisualArea | src/editor/context.rs:46-88 | at most height rows, from offsetTop on, each the clipped display line |
| Contexts.Context.ScrollUp | src/editor/context.rs:98-100 | the top offset grows by one, nothing else changes |
| Contexts.Context.ScrollDown | src/editor/context.rs:102-104 | the top offset shrinks by one, stopping at 0 |
| Contexts.Context.ScrollLeft | src/editor/context.rs:106-108 | the left offset grows by one |
| Contexts.Context.ScrollRight | src/editor/context.rs:110-112 | the left offset shrinks by one, stopping at 0 |
| Contexts.Context.SetSize | src/editor/context.rs:114-117 | the new size is set and the view re-centres |
| Contexts.Context.CursorPastEndAtNextGlyph | src/editor/context.rs:129-137 | off the records, the cursor is drawn where a further code point of the last line would go |
| Contexts.Context.CursorOnRecordAtColumns | src/editor/context.rs:127-128 | on a record, the cursor is drawn on its line at the width of the code points before it |
| Contexts.UnscrolledRowSpellsText | src/editor/context.rs:46-88 | unscrolled, a row that fits shows the visible code points of its newline-separated piece of the text |
| Scenarios.AppendPastLine | src/editor/document.rs:188 | with "nihao你好", column 99 holds no record, so insertion appends |
| Scenarios.InsertBeforeRecord | src/editor/document.rs:189 | with "nihao你好，世界", column 8 holds record 8 |
| Scenarios.RemoveLeadingLetters | src/editor/document.rs:190-192 | removing [(0,0), (0,5)) deletes the five letters |
| Scenarios.InsertAndRemoveOnOneLine | src/editor/document.rs:185-193 | the second document test ends with "你好，我的世界" |
| Scenarios.TwoLineLocations | src/editor/document.rs:170 | in "Hello你好\nWorld世界" the newline is at (1, 0) |
| Scenarios.NothingAtEndOfFirstLine | src/editor/document.rs:173-178 | no record of it lies in [(0,7), (0,8)) |
| Scenarios.SecondLetterOfLineOne | src/editor/document.rs:171-172 | (1, 2) holds 'o' |
| Scenarios.EndOfFirstLineIsAGap | src/editor/document.rs:173-179 | the removal deletes nothing and the insertion appends |
| Scenarios.RemoveTailBothWays | src/editor/document.rs:34-45 | on "abc" with [(0,1), (0,3)) the removal as written leaves "ac", the corrected one "a" |
| Scenarios.NewlineOpensItsLine | src/editor/document.rs:169-181 | the first document test as the code behaves: 'o', then "Hello你好\nWorld世界，" |
| Scenarios.RustPieces | src/editor/document.rs:198 | "rust\n铁锈" splits into "rust" and "铁锈" |
| Scenarios.RustLines | src/editor/document.rs:197-209 | the third document test: its display lines spell "rust" and "铁锈" |
| Scenarios.RustLocations | src/editor/document.rs:214 | in "rust\n铁锈" the newline is at (1, 0) and 铁 at (1, 1) |
| Scenarios.StepAroundNewline | src/editor/document.rs:213-220 | the fourth document test: back from (1, 1) is the newline at (1, 0); forward from (1, 0) is 铁 at (1, 1) |
| Scenarios.TypeTwoLetters | src/editor/context.rs:23-35 | typing "ab" into a fresh context leaves the cursor at (0, 2) |
| Scenarios.TypeThenBackspace | src/editor/context.rs:23-44 | typing "ab" then backspace leaves "a" with the cursor at (0, 1) |
| Scenarios.ContextTestOffsets | src/editor/context.rs:142-157 | in the context test the last glyph of line 8 shifts the view right by 4, and the ninth newline shifts it back and one line down |

## Left out

- The `todo!()` operations of the context are not modelled, because they have no behaviour yet. These are delete, up, down, left, right, set_cursor and select (`src/editor/context.rs:90-96`).
- Integers are unbounded. The editor's `u32` offsets and positions can overflow on `+=`; the model does not wrap. Only the one-step moves of `Position` saturate explicitly.
- `auto_center_cursor` computes `height - 1` in `u32`, which fails for a height of 0. `Contexts.Context.AutoCenterCursor`, `Input`, `Backspace` and `SetSize` therefore require a height of at least 1.
- `Documents.Document.Insert` returns the inserted records as values, not as references into the document.
- `Result` values are dropped. `insert` and `remove` always return `Ok`.
- `lines()` has two branches that line-numbered records never reach: the one that pushes the current line when a record's line is above the current one, and the panic when it is below. Both are proved unreachable (`assert false` in `Documents.GroupLines`), so neither is modelled.
- Text is a sequence of code points. UTF-8 encoding, grapheme clusters and the conversion from `&str` are not modelled.
- The terminal, rendering, key handling and logging (`src/view.rs`, `src/main.rs`, `src/widget/`, `src/handler.rs`, `src/log.rs`) are not part of this model.
- The fifth document test only prints, so it has no property to state.
- The context unit test's 90 `input` calls are not replayed on a context. The two facts that decide its outcome are proved on their own: the re-centring after the last glyph and after the ninth newline (`Scenarios.ContextTestOffsets`), and the row that line 4 shows (`Clipping.AlignedExample`).
- The visual area clips each line with a loop run on a sequence value (`Clipping.ClipRow`). The Rust string buffer it appends to is not modelled.
- Backspace keeps the removal as written, as `context.rs` calls it. Its ranges hold at most one record, and `Documents.Document.BackspaceRemovalsAgree` proves that both removals agree there.
- Contexts.Context.AbsoluteCursorPosition: its contract states only the record case and the empty-document case. The case past the last record is stated by `Contexts.Context.CursorPastEndAtNextGlyph`.
- Documents.Document.Before: its contract states only that the result is a record of the document. Its cases are stated by `NothingBeforeStart`, `StepsOffTheRecords`, `BeforeUndoesAfter` and the `StepBack` lemmas.

## Findings

| source | as written | input that shows it | evidently intended | confidence | as-written member | corrected member |
|---|---|---|---|---|---|---|
| src/editor/document.rs:36-41 | the loop deletes at `index - offset` but tests `index < raw.len()` on the already shrunk text, so it stops after ceil((n - s) / 2) deletions | removing [(0,1), (0,3)) from "abc" leaves "ac" | every code point whose record lies in the range is deleted ("a" here) | not executed | Characters.RemoveTailShortfall | Documents.Document.RemoveRange |
