# nucleo-ui session model in Dafny

nucleo-ui is a terminal fuzzy picker. It takes a list of candidates, lets the
user type a query that the `nucleo` matching engine uses to rank the
candidates, shows a window of ranked matches with the matched characters
highlighted, and ends when the user selects a row or presses Control-C.

This project models the picker's session state and proves properties of it:

- the query line, with its cursor and edits (module `Query`), shared by both
  session variants;
- the selection list that wraps around, and the handle on the engine
  (`Selection.StatefulList`);
- the current session `FuzzyMatchModel` (module `Model`, src/model.rs), with
  its snapshot window of `min(matched, height)` rows, each row's match
  indices sorted and deduplicated;
- the older session `App` (module `App`, src/app.rs), which the key
  dispatcher drives;
- the key dispatcher `handle_key_events` (module `Handler`) and one turn of
  the main loop (module `Session`);
- `split_highlights` (module `Highlight`), the run-length split of a row into
  highlighted and plain spans;
- the places where the source mixes UTF-8 byte offsets with character counts
  (module `Bytes`); see "## Findings".

The matching engine is opaque. After a tick it publishes an `Engine.View`:

- the items pushed so far, in push order;
- the ranking, i.e. the pushed-item ids of the matched items, best first;
- for each ranked row, the raw character indices the pattern reports,
  unsorted and possibly repeated.

Each tick's view is a parameter of the tick operations, and two things are
required of it. The engine's own contract, `Engine.View.WF`, asks for three things:
- there is one index list per ranked row;
- every ranked id names a pushed item;
- every index is a character position of its item's text.

`Model.RowsFitText` and the precondition of `Highlight.SplitHighlights`
rest on that last bound. Separately, each tick operation requires the
pushed items to be a prefix of the candidates.

The operations that change state are methods on classes. Each method of the
session classes and `Handler.HandleKeyEvents` states its whole new state in
its `ensures`. `Session.Step` states, for each kind of event, the new
query line, previous input, selection, reparse requests and result, and
when the session stops; it leaves the candidates and the engine's own
ghost history to the class contracts. Those contracts are written against
value-level functions: `Query.EnterChar`, `Selection.NextIndex`,
`Model.SortDedup`, `Highlight.Runs`, and so on. The lemmas prove what the
program promises about those functions: inverses, circular navigation,
whether an edit refines the query, order independence, and that the split
and its reference definition are the same thing.

Positions are character positions throughout (`string` is `seq<char>`).
`Bytes` models where the source uses byte offsets instead, and shows that on
ASCII text the two agree.

## Model

| member | source | states |
|---|---|---|
| Query.StartsWith | src/model.rs:223 | `str::starts_with`: the prefix fits and the text is the prefix followed by the rest |
| Query.Clamp | src/model.rs:160-162 | `usize::clamp(0, len)`: the result lies in `[0, len]`, is `pos` itself when `pos` is in range, and is `len` when `pos` is past it |
| Query.Take | src/model.rs:148 | `chars().take(n)`: `min(n, len)` characters, a prefix of the text |
| Query.Skip | src/model.rs:150 | `chars().skip(n)`: `len - n` characters (0 when `n` is past the end); `Take(s, n) + Skip(s, n) == s` |
| Query.MoveLeft | src/model.rs:110-113 | the text is unchanged and the cursor stays within it; at 0 nothing moves; otherwise the cursor goes down by one |
| Query.MoveRight | src/model.rs:115-118 | the text is unchanged and the cursor stays within it; before the end the cursor goes up by one; at or past the end it sits at the end |
| Query.EnterChar | src/model.rs:120-124 | the new text is the old text before the cursor, then `c`, then the rest; it is one character longer and the cursor advances by one |
| Query.DeleteChar | src/model.rs:136-156 | at cursor 0 the line is unchanged; otherwise exactly the character before the cursor is removed, everything before and after is kept, and the cursor goes down by one |
| Query.DeleteUndoesEnter | src/model.rs:120-156 | a Backspace right after typing `c` gives back the line exactly as it was |
| Query.EnterUndoesDelete | src/model.rs:120-156 | typing the deleted character back after a Backspace gives back the line exactly as it was |
| Query.MoveRightThenLeft | src/model.rs:110-118 | away from the end, a step right and then a step left returns the cursor |
| Query.MoveLeftThenRight | src/model.rs:110-118 | away from the start, a step left and then a step right returns the cursor |
| Query.EnterRefinesIff | src/model.rs:120-126 | after typing `c`, the refinement flag `input.starts_with(prev_input)` holds exactly when every character from the cursor to the end is `c` |
| Query.RefinesOnlyOverRepeat | src/model.rs:120-126 | if the refinement flag holds after typing `c`, every character from the cursor to the end is `c` |
| Query.RepeatRefines | src/model.rs:120-126 | if every character from the cursor to the end is `c`, the refinement flag holds after typing `c` |
| Query.EnterAtEndRefines | src/model.rs:120-126 | typing at the end of the query always passes the refinement flag as true |
| Query.DeleteRefinesIff | src/model.rs:136-158 | after Backspace the refinement flag holds exactly when the cursor was at 0, i.e. when nothing was deleted |
| Query.TypeStringInserts | src/model.rs:120-126 | typing any string, wide characters included, one character at a time inserts the string at the cursor and leaves the cursor just after it |
| Selection.Pred | src/model.rs:187-204 | `saturating_sub(1)`: 0 exactly for 0 and 1, otherwise one less |
| Selection.NextIndex | src/model.rs:184-196 | from row `i`: `i + 1` while that is a matched row, otherwise 0 (also from a row past the matched count); the result is a matched row when any match exists; with nothing selected: `last_selected` or 0 |
| Selection.PreviousIndex | src/model.rs:198-210 | from row 0: the last matched row (0 when nothing matches); from row `i > 0`: `i - 1`; a matched row stays a matched row; with nothing selected: `last_selected` or 0 |
| Selection.NextPreviousInverse | src/model.rs:184-210 | on matched rows, `previous` undoes `next` and `next` undoes `previous`, wrap-around included |
| Selection.NextCycles | src/model.rs:184-196 | `k` presses of `next` from a matched row `i` land on row `(i + k) mod count` |
| Selection.PreviousCycles | src/model.rs:198-210 | `k` presses of `previous` from a matched row `i` land on row `(i - k) mod count` |
| Selection.StatefulList.constructor | src/model.rs:176-182 | the top row is selected, `last_selected` is empty, and the engine has published nothing yet |
| Selection.StatefulList.Next | src/model.rs:184-196 | the selection becomes `Some(NextIndex(..))` over the engine's matched count; nothing else changes |
| Selection.StatefulList.Previous | src/model.rs:198-210 | the selection becomes `Some(PreviousIndex(..))`; nothing else changes |
| Selection.StatefulList.Tick | src/model.rs:212-214 | the engine publishes the new view; the selection is left as it was (it is not revalidated) |
| Selection.StatefulList.UpdateInput | src/model.rs:216-225 | the top row is selected, and one reparse is recorded with the new query and the flag `StartsWith(input, original_input)` |
| Engine.View.MatchedCount | src/model.rs:61-79 | `matched_item_count`: in a well-formed view, the number of ranked rows, each with its index list |
| Engine.View.ItemCount | src/model.rs:80 | `item_count`: in a well-formed view, every ranked id lies below it |
| Opt.Option.UnwrapOr | src/model.rs:193-207 | `unwrap_or`: the held value when there is one, otherwise the default |
| Model.InsertSorted | src/model.rs:71-72 | inserting into a strictly increasing list keeps it strictly increasing and adds exactly `x` to its values |
| Model.SortDedup | src/model.rs:71-72 | `sort_unstable` then `dedup`: strictly increasing, holds exactly the input's values, and is no longer than the input |
| Model.StrictlyIncreasingUnique | src/model.rs:71-72 | two strictly increasing lists with the same values are equal, so the stored index list is fully determined |
| Model.SortDedupIgnoresOrder | src/model.rs:66-74 | the order and the repetitions of the engine's raw indices do not change a row's stored indices |
| Model.RowsFitText | src/model.rs:59-81 | every index stored in a visible row is a character position of that row's text |
| Model.FuzzyMatchModel.constructor | src/model.rs:29-57 | the session is running with no result, an empty query and previous query, cursor 0, height 0, an empty snapshot and the top row selected; the engine holds the given candidates, with path matching as requested |
| Model.FuzzyMatchModel.UpdateSnapshot | src/model.rs:59-81 | exactly `min(matched, height)` rows; row `k` shows the `k`-th ranked item with its indices sorted and deduplicated; both counts are copied; nothing else changes |
| Model.FuzzyMatchModel.Tick | src/model.rs:83-86 | the engine publishes the new view and the window is rebuilt from it; the selection is left unchanged |
| Model.FuzzyMatchModel.UpdateHeight | src/model.rs:88-90 | only the height changes |
| Model.FuzzyMatchModel.Quit | src/model.rs:96-98 | only `running` changes, to false |
| Model.FuzzyMatchModel.Select | src/model.rs:100-108 | with row `i` selected, the result becomes the text of visible row `i`, or nothing when the window has no row `i`; no selection leaves the result alone; a newly chosen text is always one of the candidates |
| Model.FuzzyMatchModel.ClampCursor | src/model.rs:160-162 | the position nearest `pos` within the input |
| Model.FuzzyMatchModel.MoveCursorLeft | src/model.rs:110-113 | the line becomes `Query.MoveLeft` of the old line; the cursor bound is kept |
| Model.FuzzyMatchModel.MoveCursorRight | src/model.rs:115-118 | the line becomes `Query.MoveRight` of the old line; the cursor bound is kept |
| Model.FuzzyMatchModel.EnterChar | src/model.rs:120-126 | `prev_input` becomes the old input, the line becomes `Query.EnterChar`, the top row is selected, and the reparse is flagged by `starts_with` |
| Model.FuzzyMatchModel.Up | src/model.rs:128-130 | the list is drawn bottom to top, so Up is `next` |
| Model.FuzzyMatchModel.Down | src/model.rs:132-134 | Down is `previous` |
| Model.FuzzyMatchModel.DeleteChar | src/model.rs:136-158 | `prev_input` becomes the old input, the line becomes `Query.DeleteChar` (unchanged at cursor 0), the top row is selected on both paths, and the reparse flag is true exactly when the cursor was at 0 |
| Model.FuzzyMatchModel.ResetCursor | src/model.rs:164-166 | the cursor goes to 0 and nothing else changes |
| App.U32 | src/app.rs:59 | `selected as u32`: below 2^32, and the identity on indices below 2^32 |
| App.GetItem | src/app.rs:53-61 | `Snapshot::get_item`: an item exactly when the index is below the number of pushed items; in that case the item pushed at that index |
| App.App.constructor | src/app.rs:21-41 | running, no result, empty query and previous query, cursor 0, the top row selected, and the engine holding the given candidates |
| App.App.Tick | src/app.rs:44-46 | the engine publishes the new view; the selection is unchanged |
| App.App.Quit | src/app.rs:49-51 | only `running` changes, to false |
| App.App.Select | src/app.rs:53-61 | with index `i` selected, the result is the engine's item at `i` truncated to 32 bits, in push order, or nothing; no window bounds the index; a newly chosen text is always a candidate |
| App.App.ClampCursor | src/app.rs:114-116 | the position nearest `pos` within the input |
| App.App.MoveCursorLeft | src/app.rs:64-67 | the line becomes `Query.MoveLeft` of the old line |
| App.App.MoveCursorRight | src/app.rs:69-72 | the line becomes `Query.MoveRight` of the old line |
| App.App.EnterChar | src/app.rs:74-80 | `prev_input` becomes the old input, the line becomes `Query.EnterChar`, the top row is selected, and the reparse is flagged by `starts_with` |
| App.App.Up | src/app.rs:82-84 | Up is `next` |
| App.App.Down | src/app.rs:86-88 | Down is `previous` |
| App.App.DeleteChar | src/app.rs:90-112 | `prev_input` becomes the old input, the line becomes `Query.DeleteChar`, the top row is selected on both paths, and the reparse flag is true exactly when the cursor was at 0 |
| App.App.ResetCursor | src/app.rs:118-120 | the cursor goes to 0 and nothing else changes |
| Handler.Dispatch | src/handler.rs:6-30 | Enter selects, Up is up, Down is down, Backspace deletes; quit happens exactly for `c`/`C` with modifiers equal to `{Control}`; any other character is typed whatever the modifiers; `c`/`C` with other modifiers, and every other key, do nothing (each an if-and-only-if) |
| Handler.HandleKeyEvents | src/handler.rs:5-32 | always returns `Ok`; performs exactly the operation `Dispatch` names, with that operation's full effect; a key that does nothing leaves the app and its list unchanged |
| Session.Step | src/lib.rs:56-65 | after one event on a running session, a set result means the session has stopped, and the session has stopped exactly when a result is set or the key was Control-C; a tick publishes its view and leaves the query, selection and result alone; a key leaves the view alone and sets a result only through Enter, to the item of the previously selected row, or keeps the old result when nothing is selected; a typed character or Backspace gives the line `Query.EnterChar` or `Query.DeleteChar` gives, records the old input, selects row 0 and requests one reparse flagged as an append; Up and Down move the selection to `Selection.NextIndex` and `Selection.PreviousIndex` over the matched count and leave the line alone; Enter, Control-C and other keys leave line, selection and reparses alone |
| Highlight.Mask | src/ui.rs:80-83 | `is_highlighted`: position `k` is marked exactly when `k` is among the indices |
| Highlight.RunsShape | src/ui.rs:89-105 | the reference runs are non-empty and alternate; the first and last runs carry the first and last flags; there are no runs only for empty text |
| Highlight.RunsFlatten | src/ui.rs:89-105 | the runs joined give back the text |
| Highlight.RunsFlags | src/ui.rs:89-105 | character `k` lies in a run flagged as the mask's `k`-th flag |
| Highlight.RunsCount | src/ui.rs:89-105 | there is one run more than there are flag changes along non-empty text |
| Highlight.RunsUnique | src/ui.rs:89-105 | any list of non-empty, alternating spans that joins to the text and carries the mask's flags is exactly the reference runs |
| Highlight.EmptyIndicesOneRun | src/ui.rs:74-76 | with no indices, non-empty text is a single plain run |
| Highlight.MaskIgnoresOrder | src/ui.rs:80-83 | the order and the duplicates of the indices do not change the mask |
| Highlight.PushFlatten | src/ui.rs:89-98 | adding one character to the runs adds exactly that character to their joined text |
| Highlight.PushFlags | src/ui.rs:89-98 | adding one character with flag `b` adds exactly `b` to the per-character flags |
| Highlight.PushShape | src/ui.rs:89-98 | adding a character keeps the runs non-empty and alternating; the last run then carries its flag, the first run keeps its flag, and the count grows by one exactly when there was no run or the last run had the other flag |
| Highlight.RunsSnoc | src/ui.rs:89-98 | the reference runs of a text extended by one character are the runs of the text with that character added |
| Highlight.ScanFirst | src/ui.rs:85-86 | the scan starts with the first character as the open run, carrying the flag `is_highlighted[0]` |
| Highlight.ScanStay | src/ui.rs:89-98 | a character with the current flag extends the open run, and the closed runs plus the open run stay the reference runs of the prefix |
| Highlight.ScanSwitch | src/ui.rs:92-97 | a character with a new flag closes the open run and opens one at `i`, and the result is still the reference runs of the prefix |
| Highlight.MarkIndices | src/ui.rs:80-83 | the `is_highlighted` vector is a fresh array holding exactly the mask of the indices |
| Highlight.ScanRuns | src/ui.rs:85-103 | the scan loop and the final push produce exactly the reference runs of a non-empty text |
| Highlight.SplitHighlights | src/ui.rs:73-106 | no indices give `[(input, false)]`; otherwise the spans are the reference runs, which join back to the input, are non-empty and alternate, mark exactly the given positions, number one more than the flag changes, and start with a flag telling whether 0 is an index |
| Bytes.Utf8Width | src/model.rs:161 | a character takes 1 to 4 bytes, and exactly 1 when it is ASCII |
| Bytes.ByteLen | src/model.rs:161 | `str::len`: at least the number of characters and at most four times it |
| Bytes.AsciiByteLen | src/model.rs:161 | the byte length equals the character count exactly when every character is ASCII |
| Bytes.ByteLenConcat | src/ui.rs:101 | the byte length of a concatenation is the sum of the parts' byte lengths |
| Bytes.CharAt | src/model.rs:122 | the boundary lookup behind `String::insert`: a found position is within the text; what it means (the prefix before it takes exactly `b` bytes, and every boundary is found) is stated by `Bytes.CharAtIff`, with `Bytes.CharAtSound` and `Bytes.CharAtBoundary` |
| Bytes.CharAtSound | src/model.rs:122 | a character position found for byte offset `b` has a prefix of exactly `b` bytes |
| Bytes.CharAtBoundary | src/model.rs:122 | every character boundary is found: the byte length of any prefix names that prefix's end |
| Bytes.CharAtIff | src/model.rs:122 | the boundary lookup names position `k` exactly when the characters before `k` take `b` bytes |
| Bytes.InsertAtByte | src/model.rs:122 | `String::insert(idx, c)`, where it does not panic, puts `c` at the character position whose prefix takes `idx` bytes, keeps the rest, and grows the text by one character and by `c`'s width in bytes |
| Bytes.InsertAtBoundary | src/model.rs:122 | at every character boundary the insertion succeeds, with `c` at that position |
| Bytes.MoveRightAsWritten | src/model.rs:115-118 | as written, the cursor goes up by one while below the byte length and otherwise sits at the byte length, not the character length |
| Bytes.EnterCharAsWritten | src/model.rs:120-124 | the as-written insertion, where it does not panic, puts `c` at the character position whose prefix takes `cursor` bytes, and the cursor advances by one byte whatever the width of `c` |
| Bytes.EnterAsWrittenAtBoundary | src/model.rs:120-124 | when the cursor is a character boundary, the as-written insertion succeeds with that new text and cursor |
| Bytes.WideCharBreaksNextInsert | src/model.rs:120-124 | when typing `é` into an empty query, the cursor lands on byte 1, inside the character; typing `a` next panics |
| Bytes.DeleteCharAsWritten | src/model.rs:136-150 | as written, Backspace at cursor 0 changes nothing; otherwise it removes the characters the character model removes at position `cursor`, though the cursor holds a byte offset, and the cursor moves to `cursor - 1` clamped to the new byte length |
| Bytes.WideCharThenLetters | src/model.rs:115-124 | typing `é`, moving right and typing `a` and `b` leaves the as-written cursor at byte 4 on a three-character text |
| Bytes.WideCharBreaksDelete | src/model.rs:136-150 | on that line, as written, Backspace removes nothing, and a second Backspace removes `b`, not the `a` before the cursor |
| Bytes.AsWrittenAgreesOnAscii | src/model.rs:115-150 | on ASCII text, the as-written cursor step, insertion and deletion do exactly what `Query.MoveRight`, `Query.EnterChar` and `Query.DeleteChar` do |
| Bytes.SliceBytes | src/ui.rs:94-102 | `&s[from..to]` and `&s[from..]` on byte offsets, `None` where Rust panics; a slice is no longer than the text; what it contains is stated by `Bytes.SliceBytesSound` and `Bytes.SliceAtBoundaries` |
| Bytes.SliceBytesSound | src/ui.rs:94-102 | a byte slice that does not panic is the characters from the position whose prefix takes `from` bytes to the one whose prefix takes `to` bytes, or to the end |
| Bytes.SliceAtBoundaries | src/ui.rs:94-102 | slices between two character boundaries in order succeed and give those characters, in both forms |
| Bytes.AsciiSlices | src/ui.rs:94-102 | on ASCII text both byte slices succeed and return the characters between the two positions |
| Bytes.Pieces | src/ui.rs:89-103 | the as-written pushes give at most one span per run |
| Bytes.SplitAsWritten | src/ui.rs:73-106 | `split_highlights` as written: with no indices, `[(input, false)]`; an index at or past the character count panics |
| Bytes.WideCharShiftsHighlights | src/ui.rs:92-103 | as written, in `éab` with only `b` matched, the unmatched `a` is drawn highlighted |
| Bytes.WideCharBreaksSlice | src/ui.rs:92-95 | as written, `éa` with `a` matched panics on the first slice |
| Bytes.AsciiPieces | src/ui.rs:89-103 | on ASCII text every as-written cut falls where the character-based split puts it |
| Bytes.AsciiSplitAgrees | src/ui.rs:73-106 | on ASCII text with every index a character position, `split_highlights` as written returns exactly the reference runs |

## Left out

- The `nucleo` engine is left out: its scoring, ranking, worker pool,
  `injector().push`, `tick(budget)`, `pattern.reparse` and
  `column_pattern(0).indices`. It is an external library.
  - Each tick's result is an `Engine.View` parameter.
  - Reparses are recorded in the ghost history `StatefulList.Reparses`, as
    pairs of query text and refinement flag.
  - The engine's case and normalisation settings are not modelled.
- The tick budgets (100 ms in src/model.rs, 50 ms in src/app.rs) are not
  modelled: the engine's timing is opaque.
- The two `StatefulList` copies differ in the tick budget and in the item
  type. The one in src/model.rs:171 holds `Nucleo<Utf32String>`; the one in
  src/app.rs:125 holds `Nucleo<String>`. One class models both, with items
  as `string`.
- Model.RowOf and Model.FuzzyMatchModel.Select take the text of a row to be
  the pushed candidate itself. The source pushes `Utf32String::from(str)`
  (src/model.rs:38) and reads each row back with `.to_string()`
  (src/model.rs:75). That conversion is nucleo's and is not part of this
  model, so the model assumes the round trip gives back the pushed text.
  The claim that a selected text "is always one of the candidates" rests
  on that assumption.
- The `highlight_matcher` field and the reused `indices` scratch buffer
  (`drain`) are left out. The model computes each row's indices directly;
  only the sorted, deduplicated result is observable.
- The `snapshot()` getter of `FuzzyMatchModel` (src/model.rs:92-94) is left
  out: it only returns a reference, and the model's `snapshot` field is
  public.
- Event polling (src/event.rs), terminal setup and teardown, drawing
  (`render` in src/ui.rs), writing the result to stdout, reading stdin,
  directory walking and the command-line interface are left out. They are
  I/O, concurrency and layout.
- Mouse and resize events are left out. The main loop ignores them.
- crossterm's key event `kind` and `state` fields are left out: the handler
  reads only `code` and `modifiers`.
- `Session.Step` drives an `App`. In src/lib.rs the loop passes a
  `FuzzyMatchModel` to a handler typed on `App`, which does not type-check
  as written. The model follows the handler's signature.
- `Session.Step` re-checks `result` only after the event, as the loop does.
  The `while model.running` test itself is the caller's.
- Selection revalidation on tick (clamping the selection when the matched
  count shrinks, clearing it when nothing matches) is not modelled. The code
  never does it: `tick` leaves the selection alone, so a selected row can lie
  past the window, and `select` then yields no result.
- Match indices past the end of a row's text are not dropped. The ignore or
  clamp rule for such indices is not what the code does:
  `is_highlighted[index]` panics on them. `Highlight.SplitHighlights`
  therefore requires every index to be a character position, and
  `Engine.View.WF` guarantees this for engine output.
- `last_selected` is never assigned anywhere, so every method keeps it as it
  was. The `unselect` that would set it is commented out in src/app.rs.
- Model.FuzzyMatchModel.ClampCursor, App.App.ClampCursor and the cursor moves
  clamp to the character length, not to `input.len()` in bytes. This is the
  corrected half of the first finding below; the byte form is
  `Bytes.MoveRightAsWritten`.
- The 64-bit `usize` range of the cursor and of row indices is not modelled.
  The counts involved never come near it; the one explicit truncation,
  `selected as u32`, is modelled in `App.U32`.

## Findings

| source | as written | input that shows it | evidently intended | confidence | as-written member | corrected member |
|---|---|---|---|---|---|---|
| src/model.rs:122, src/model.rs:161 (same in src/app.rs:76, src/app.rs:115) | the cursor counts characters, but it is clamped to the byte length `input.len()` and used as the byte index of `String::insert` | type `é`, then `a`: the cursor is at byte 1, inside `é`, and `insert` panics | the cursor is a character position, clamped to the character count, and insertion happens at that character | not executed | Bytes.EnterCharAsWritten (Bytes.WideCharBreaksNextInsert) | Query.EnterChar (Query.TypeStringInserts) |
| src/model.rs:144-150, src/model.rs:161 (same in src/app.rs:98-109) | `delete_char` counts characters for `take(cursor - 1)` and `skip(cursor)`, but moving right past a wide character leaves a byte offset in the cursor | type `é`, move right, type `a` and `b`: the cursor is at byte 4 of `éab`; Backspace removes nothing, and a second Backspace removes `b` instead of `a` | Backspace removes the character just before a character-position cursor | not executed | Bytes.DeleteCharAsWritten (Bytes.WideCharThenLetters, Bytes.WideCharBreaksDelete) | Query.DeleteChar (Query.DeleteUndoesEnter) |
| src/ui.rs:94, src/ui.rs:101-102 | runs are found by character position, but each is cut out with `&input[current_string..i]`, using the character counters as byte offsets | `éab` with index 2 gives `[("é", false), ("ab", true)]` instead of `[("éa", false), ("b", true)]`; `éa` with index 1 panics | each span is the characters of one run | not executed | Bytes.SplitAsWritten (Bytes.WideCharShiftsHighlights, Bytes.WideCharBreaksSlice) | Highlight.SplitHighlights (Highlight.RunsUnique) |
