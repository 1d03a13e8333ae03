# gifjifmaker frame engine in Dafny

This project models the frame-sequence engine of gifjifmaker, a small
browser/Electron tool that turns a list of images into an animated GIF. The
engine exists in two versions:

- `src/script.js`, the multi-select editor. Frames can be selected with
  click and shift-click and dragged as a block. A dashed placeholder in the
  frame list shows where they will land, and dropping rebuilds `frames` from
  the list's order.
- `script.js`, the older single-drag editor. One frame is dropped onto
  another and `reorderFrames` splices it out and back in.

Both versions keep a module-level list `frames` of records
`{id, file, name, duration, imgBitmap}`, plus the flags `playing` and
`playIndex`. They add image files and remove frames. They clamp durations
typed into each frame's field. They play the frames in a loop on a
600 × 1100 preview canvas, fitting and centring each image. They export a GIF
by submitting every frame, in order, with its duration as the delay.

## Modules

| file | module | models |
|---|---|---|
| `common.dfy` | `Common` | `Option`, `Math.max`, "no repetitions" |
| `jsparse.dfy` | `JsParse` | `parseInt(text)` without a radix, and `x \|\| fallback` |
| `durations.dfy` | `Durations` | the duration constants and the two clamp rules |
| `html.dfy` | `Html` | `escapeHtml` and its inverse |
| `geometry.dfy` | `Geometry` | fit-and-centre placement over exact reals |
| `frames.dfy` | `Frames` | frame records, the image filter, the `addFiles` push loop, removal by id, `findIndex`/`find`, the bitmap cache |
| `preview.dfy` | `Preview` | `drawFrameOnCanvas` / `clearCanvas` as a view value |
| `playback.dfy` | `Playback` | the playback index arithmetic |
| `export.dfy` | `Export` | the `exportGIF` loop as a list of submissions |
| `selection.dfy` | `Selection` | `selectedItems` as an insertion-ordered set |
| `listorder.dfy` | `ListOrder` | `#frames-list` as a sequence of `Item(id)` / `Placeholder` entries; the placeholder rules, the drop order and `syncFramesFromDOM` |
| `multiselect.dfy` | `MultiSelect` | class `Editor`: the state and handlers of `src/script.js` |
| `legacy.dfy` | `Legacy` | `reorderFrames`, and class `LegacyEditor`: the state and handlers of `script.js` |

The page's mutable state becomes the fields of a class, and each event
handler becomes a method.
- `Editor.Valid()` is the invariant every handler keeps (`Consistent`):
  - ids are unique;
  - the list shows exactly the frames, in order, plus at most one placeholder;
  - the placeholder is present exactly while a payload is being dragged;
  - the selection and the payload are sets of present ids.
- Loops that build a value and then assign it are value-level methods, proved
  against a specification function:
  - the `addFiles` push (`Frames.PushNewFrames`);
  - apply-all (`MultiSelect.Retimed`);
  - `syncFramesFromDOM` (`MultiSelect.ResyncedFrames`);
  - the drop's `insertBefore` loop (`MultiSelect.MovePayload`);
  - the export loop (`Export.ExportFrames`).

Where the code and its comments disagree, the model follows the code:
- The comment above `reorderFrames` (script.js:113) says the source frame
  moves "before target". When the source is above the target, the code puts
  it just after the target instead (`Legacy.ReorderSide`).
- `parseInt(...) || 100` turns a typed `0` into 100, not into the minimum
  (`Durations.EditedDurationOfZero`).

## Model

| member | source | states |
|---|---|---|
| JsParse.ParseInt | src/script.js:102 | `parseInt` of a blank field is `NaN`, and a negative result needs a leading `-` after the white space |
| JsParse.TrimStart | src/script.js:102 | `parseInt` first skips leading white space: the result is a suffix of the input, starts with no white space, and everything cut off was white space |
| JsParse.OrElse | src/script.js:102 | `x \|\| fallback` on a parsed number is the parsed value exactly when that is a nonzero number, and the fallback otherwise (`NaN`, `0`) |
| JsParse.ParseIntOfIntToString | src/script.js:102 | `parseInt` reads back any integer written in decimal, whatever text follows it that does not start with a digit, except that `0` followed by `x` or `X` starts a hexadecimal number |
| JsParse.ParseIntSkipsSpace | src/script.js:102 | leading white space does not change what `parseInt` reads |
| JsParse.ParseIntOfNonNumeric | src/script.js:102 | text with no decimal digit, the empty field included, parses to `NaN` |
| Durations.EditedDuration | src/script.js:102 | a per-frame edit stores at least the minimum: the minimum itself, 100, or the nonzero integer that was typed |
| Durations.EditedDurationOfInteger | src/script.js:102 | a typed nonzero integer `n` is stored as `max(minimum, n)` |
| Durations.EditedDurationOfZero | src/script.js:102 | a typed `0` is stored as `max(minimum, 100)`, not as the minimum |
| Durations.EditedDurationOfNonNumeric | script.js:88 | non-numeric text is stored as `max(minimum, 100)` |
| Durations.EditedDurationExampleNegative | src/script.js:102 | `-5` is stored as 10 in the multi-select editor |
| Durations.EditedDurationExampleZero | src/script.js:102 | `0` is stored as 100 in the multi-select editor |
| Durations.EditedDurationExamplesLarge | script.js:88 | `37` and `37.5` are stored as 37 with the floor of 10; `37` is stored as 50 with the single-drag floor of 50 |
| Durations.AppliedDuration | src/script.js:321 | the apply-all value is at least 10: either 10 or the nonzero integer typed |
| Durations.AppliedDurationOfInteger | src/script.js:321 | a typed integer `n`, zero included, gives `max(10, n)` |
| Durations.AppliedDurationOfNonNumeric | src/script.js:321 | non-numeric text gives 10 |
| Html.ReplaceAll | src/script.js:43 | `replaceAll` introduces no character that is neither in the input nor in the replacement |
| Html.EscapeHtml | src/script.js:42-44 | the three `replaceAll` passes leave no `<` and no `>` in the text |
| Html.Unescape | script.js:111 | mapping the three entities back never lengthens the text; `UnescapeEscapeHtml` shows it inverts the escape |
| Html.EscapeHtmlAppend | src/script.js:42-44 | the three passes distribute over concatenation |
| Html.EscapeHtmlOne | src/script.js:42-44 | on one character the three passes give that character's entity (`&amp;`, `&lt;`, `&gt;`) or the character itself |
| Html.EscapeHtmlIsPerCharacter | src/script.js:42-44 | because `&` is replaced first, the three passes equal translating each character once |
| Html.UnescapeEscapeEach | src/script.js:42-44 | mapping the entities back recovers the text from its per-character translation |
| Html.UnescapeEscapeHtml | script.js:111 | mapping `&lt;`, `&gt;` and `&amp;` back recovers the original text |
| Geometry.FitRatio | src/script.js:212 | `min(W / w, H / h)` scales the image to fit the surface and to fill it along one axis |
| Geometry.Fit | src/script.js:212-217 | the drawn image fits the surface, fills one axis, keeps its aspect ratio, and has non-negative offsets that centre it |
| Geometry.FitIsLargest | script.js:143-145 | no larger undistorted copy of the image fits the surface |
| Frames.ImageFiles | src/script.js:312 | the filter keeps only image files, and keeps every image file as many times as it occurs |
| Frames.ImageFilesAppend | src/script.js:312 | the filter keeps input order (it distributes over concatenation) |
| Frames.ImageFilesOne | script.js:266 | a single file is kept exactly when its type starts with `image/` |
| Frames.NewFrames | src/script.js:314 | one record per image, in order: the caller's id, the file, the file's name, duration 300, no bitmap |
| Frames.PushNewFrames | src/script.js:314 | the push loop leaves the old frames followed by the new records |
| Frames.RemoveId | src/script.js:47 | after the filter the id is gone, and nothing is added |
| Frames.RemoveIdMembers | src/script.js:47 | the filter keeps exactly the records with another id |
| Frames.RemoveIdIds | script.js:124 | the filter keeps exactly the other ids |
| Frames.RemoveIdAppend | script.js:124 | the filter distributes over concatenation, so the kept records keep their order |
| Frames.RemoveAbsentId | src/script.js:47 | removing an unknown id changes nothing |
| Frames.RemoveIdAt | src/script.js:47 | with unique ids, removal cuts out the one record and keeps the rest in order |
| Frames.RemoveIdKeepsDistinct | src/script.js:47 | removal keeps ids unique |
| Frames.FindIndex | script.js:115-116 | `findIndex` is -1 exactly when the id is absent, and otherwise the first position holding it |
| Frames.Find | src/script.js:138 | `find` yields a record exactly when one has the id, and then the first such record (the one at `findIndex`) |
| Frames.Cache | src/script.js:206-207 | a cached bitmap is kept; otherwise the decoded one is stored |
| Frames.CacheIdempotent | script.js:135-136 | caching twice is caching once and does not change what is drawn |
| Frames.AllDurations | src/script.js:322 | every record gets the new duration, and nothing else changes, order included |
| Preview.DrawFrame | src/script.js:203-219 | drawing frame `k` fits and centres its bitmap on the 600 × 1100 canvas, and reports position `k + 1` of the total, with the name and duration |
| Preview.CacheAt | src/script.js:206-207 | drawing caches that frame's bitmap and changes no other record or field |
| Playback.NextIndex | src/script.js:240 | `(i + 1) % n` steps to the next frame and wraps from the last to the first |
| Playback.IndexAfterIsModulo | src/script.js:236-241 | on an unchanged list, the `k`-th iteration after `play` shows frame `k mod n` |
| Playback.IndexAfterInRange | script.js:167-171 | on an unchanged list, the index stays in `[0, n)` |
| Playback.Advanced | src/script.js:240 | the advance is modulo the length the list has after the wait: on a non-empty list the next index is a frame's, and an emptied list gives `NaN`, which stays `NaN` |
| Playback.AdvancedCycles | script.js:171 | on a list of unchanged length `n`, the advance after `k` steps from 0 reaches `(k + 1) mod n` |
| Playback.AdvancedAfterRemoval | src/script.js:240 | removing the first of three frames while the last or the second is shown gives an index that shows that same frame again, with no fault; emptying the list gives `NaN` |
| Export.ExportFrames | src/script.js:250-288 | no frames: nothing is encoded. Otherwise the encoder gets 2 workers, quality 10, repeat 0 and the output size, and one submission per frame, in order. Each submission carries the frame's duration as its delay and its bitmap fitted and centred; every bitmap ends up cached |
| Selection.Delete | src/script.js:48 | `delete` removes the id and keeps every other member |
| Selection.DeleteAppend | src/script.js:48 | `delete` works piece by piece, so the remaining members keep their insertion order |
| Selection.DeleteOne | src/script.js:48 | on a single member, `delete` drops it exactly when it is the deleted id |
| Selection.DeleteDistinct | src/script.js:48 | `delete` keeps the set free of repetitions and does nothing for a non-member |
| Selection.Add | src/script.js:129 | `add` appends a new id at the end of the insertion order, leaves the set unchanged for a member, and adds no repetition |
| Selection.Clicked | src/script.js:123-137 | a plain click makes the selection exactly the clicked id; a shift-click toggles the clicked id's membership and keeps every other member |
| Selection.ClickedDistinct | src/script.js:123-137 | a click keeps the selection free of repetitions |
| Selection.ShiftClickTwice | src/script.js:124-131 | two shift-clicks on the same frame restore the selection's members |
| Selection.DragSelection | src/script.js:145-152 | dragging a selected frame keeps the selection as the payload; dragging an unselected one resets the selection to that frame alone |
| ListOrder.Render | src/script.js:67-73 | rendering creates one item per frame, in frame order, and no placeholder |
| ListOrder.ItemsOfRender | src/script.js:68-73 | a freshly rendered list shows exactly the frames' ids in order |
| ListOrder.RemovePlaceholder | src/script.js:178 | removing the placeholder leaves no placeholder and the items unchanged |
| ListOrder.PlaceholderBefore | src/script.js:154-156 | drag start inserts the one placeholder immediately before the dragged item, items unchanged |
| ListOrder.InLowerHalfIsBelowMidpoint | src/script.js:168-169 | for an item of positive height, the test `(y - top) / height > 0.5` says the pointer is below its midpoint |
| ListOrder.PlacePlaceholder | src/script.js:165-170 | dragover leaves exactly one placeholder: just after the target item in its lower half, else just before it, items unchanged |
| ListOrder.MoveBefore | src/script.js:177 | `insertBefore(item, placeholder)` moves the item's single entry to immediately before the placeholder, keeps the placeholder, and leaves every other entry where it was |
| ListOrder.MoveBeforeStep | src/script.js:177 | each `insertBefore(item, placeholder)` appends that item to the moved block in front of the placeholder |
| ListOrder.DropOrder | src/script.js:173-183 | the ids after a drop are exactly the payload together with the ids the list held |
| ListOrder.DropListOrder | src/script.js:177-178 | after the loop, and with the placeholder removed, the list's items are the drop order |
| ListOrder.BlockMovePermutation | src/script.js:177 | moving the payload as a block permutes the ids and keeps them unique |
| ListOrder.BlockMoveKeepsOthers | src/script.js:177 | ids outside the payload keep their relative order |
| ListOrder.DropOrderIsBlockMove | src/script.js:173-183 | a drop is a permutation of the ids, without repetitions; the payload sits contiguously, in payload order, where the placeholder was; the other ids keep their relative order |
| ListOrder.Resync | src/script.js:193-200 | re-reading yields at most one record per list entry |
| ListOrder.ResyncMembers | src/script.js:196-197 | re-reading only yields records that are in `frames` |
| ListOrder.ResyncAppend | src/script.js:195-198 | re-reading the list is done entry by entry |
| ListOrder.ResyncIsPermutation | src/script.js:193-200 | when the list's items are the frames' ids, re-reading gives a permutation of the records whose ids follow the list |
| MultiSelect.Editor.constructor | src/script.js:352-357 | the page starts with no frames, an empty selection, no drag, a cleared preview and playback stopped |
| MultiSelect.Editor.RenderList | src/script.js:68-120 | rendering shows one item per frame and no placeholder |
| MultiSelect.Editor.AddFiles | src/script.js:311-317 | with no image files nothing changes. Otherwise the new records are appended and the first frame of the whole list is drawn |
| MultiSelect.Editor.RemoveFrame | src/script.js:46-51 | the frame and its selection go; the other frames keep their order; an emptied list clears the preview |
| MultiSelect.Editor.RemoveAll | src/script.js:55-64 | with frames present and confirmed, frames, selection and list are emptied and the preview cleared; otherwise nothing changes |
| MultiSelect.Editor.ApplyAll | src/script.js:320-324 | every frame gets the apply-all duration and nothing else changes |
| MultiSelect.Editor.SetDuration | src/script.js:102 | only that frame's duration changes, to the edited value with the floor of 10 |
| MultiSelect.Editor.Click | src/script.js:123-139 | the selection changes as a click or shift-click says, and the clicked frame is drawn |
| MultiSelect.Editor.DragStart | src/script.js:141-160 | with shift nothing changes. Otherwise the payload is the (possibly reset) selection, in insertion order, and the placeholder sits right before the dragged item |
| MultiSelect.Editor.DragOver | src/script.js:163-171 | over a non-payload item during a drag, the placeholder moves as the midpoint rule says; otherwise nothing changes |
| MultiSelect.Editor.Drop | src/script.js:173-183 | with a placeholder, the frames become a permutation in drop order and the drag state is reset; without one nothing changes |
| MultiSelect.Editor.DragEnd | src/script.js:185-190 | the placeholder is removed and the payload cleared; frames and items are unchanged |
| MultiSelect.Editor.Play | src/script.js:228-235 | with frames present, playback starts at index 0; otherwise nothing changes |
| MultiSelect.Editor.Stop | src/script.js:246 | only `playing` is cleared |
| MultiSelect.Editor.TogglePlayback | src/script.js:344-349 | Space stops a running playback, else starts one |
| MultiSelect.Editor.Tick | src/script.js:236-238 | the head of one loop iteration: it exits when stopped, faults when `frames[playIndex]` is `undefined` (index `NaN` or past the end), and otherwise draws and caches that frame; the index is unchanged |
| MultiSelect.Editor.Advance | src/script.js:239-240 | after the wait, the index advances modulo the current length; nothing else changes |
| MultiSelect.Editor.Export | src/script.js:250-288 | exports the frames as `ExportFrames` says, and caches every bitmap |
| MultiSelect.DragStarted | src/script.js:145-156 | starting a drag keeps the page consistent: the payload is a set of present frames and the one placeholder is in the list |
| MultiSelect.Rendered | src/script.js:68-75 | a freshly rendered list agrees with the frames and a valid selection |
| MultiSelect.Retimed | src/script.js:322 | the apply-all loop sets every record's duration and nothing else |
| MultiSelect.ResyncedFrames | src/script.js:193-200 | the `syncFramesFromDOM` loop computes the re-read order |
| MultiSelect.MovePayload | src/script.js:177 | the drop loop moves the whole payload, in order, in front of the placeholder |
| MultiSelect.RemovalKeepsSelection | src/script.js:46-48 | after removing a frame and deselecting it, the selection is still a set of present frames |
| MultiSelect.Dropped | src/script.js:173-183 | a complete drop yields records in drop order: a permutation with the same, unique ids, shown by a list without placeholder |
| Legacy.Reorder | script.js:114-121 | if either id is absent, nothing changes. Otherwise the result is a permutation, of the records and of their ids, with the moved frame at the target's old index |
| Legacy.MoveTo | script.js:118-119 | splicing out at `i` and in at `j` permutes the records and puts the moved one at `j` |
| Legacy.ReorderKeepsOthers | script.js:114-121 | with unique ids, all frames other than the moved one keep their relative order |
| Legacy.ReorderOntoItself | script.js:114-121 | dropping a frame onto itself changes nothing |
| Legacy.ReorderSide | script.js:113-119 | dragged upwards, the frame lands just before the target; dragged downwards, just after it |
| Legacy.ReorderKeepsDistinct | script.js:114-121 | reordering keeps ids unique |
| Legacy.LegacyEditor.constructor | script.js:281-286 | the page starts with no frames, a cleared preview and playback stopped |
| Legacy.LegacyEditor.AddFiles | script.js:265-278 | with no image files nothing changes. Otherwise the new records are appended and the first frame is drawn |
| Legacy.LegacyEditor.RemoveFrame | script.js:123-127 | the frame goes, the others keep their order, and an emptied list clears the preview |
| Legacy.LegacyEditor.SetDuration | script.js:87-89 | only that frame's duration changes, to the edited value with the floor of 50 |
| Legacy.LegacyEditor.Click | script.js:52-56 | the clicked frame is drawn |
| Legacy.LegacyEditor.ReorderFrames | script.js:114-121 | the two splices leave the frames as `Reorder` says |
| Legacy.LegacyEditor.Play | script.js:159-166 | with frames present, playback starts at index 0; otherwise nothing changes |
| Legacy.LegacyEditor.Stop | script.js:177-179 | only `playing` is cleared |
| Legacy.LegacyEditor.TogglePlayback | script.js:297-306 | Space stops a running playback, else starts one |
| Legacy.LegacyEditor.Tick | script.js:167-169 | the head of one loop iteration, as in the multi-select editor |
| Legacy.LegacyEditor.Advance | script.js:170-171 | after the wait, the index advances modulo the current length |
| Legacy.LegacyEditor.Export | script.js:184-221 | exports the frames as `ExportFrames` says, and caches every bitmap |

## Left out

- `uid()` uses `Math.random`. The callers of `AddFiles` supply the new ids and must keep them unique.
- `bytesToSize` (logarithms and `toFixed` formatting) is left out. The thumbnails, class lists and `innerHTML` of `renderFramesList` are left out too. Only the list's order of items and its placeholder are modelled.
- `Math.round` of the output size, and the scale selector parsed with `parseFloat`, are left out. The export size is a parameter.
- Canvas drawing, the background colour and `createImageBitmap` are browser APIs. A file's decoded bitmap is part of the `File` value, and decoding is assumed to succeed. The bitmap is cached "set once if empty".
- The gif.js encoder (workers, `progress`/`finished` events, the download) is left out. Only the options and the submissions are modelled.
- The `await`s inside `drawFrameOnCanvas` and `exportGIF` are not modelled. Drawing one frame and one export are atomic steps. The wait between draws is the gap between `Tick` and `Advance`, where any other handler may run.
- MultiSelect.Editor.Tick and Legacy.LegacyEditor.Tick: in the source, `Advance` is always followed at once by the next `Tick`. The model does not enforce that order. So a `Faulted` tick on an index past the end, which the source cannot reach, can only come from a call sequence the source does not allow.
- After a `Faulted` tick the source's loop has ended (its promise is rejected) while `playing` stays set. The model does not record that the loop is gone, so a later `Tick` on a refilled list would draw again.
- `confirm` is a boolean parameter of `RemoveAll`. `alert` is the `NothingToExport` result.
- Floating-point numbers are exact reals in the fit geometry. `parseInt` results beyond 2^53 are not rounded.
- Strings are sequences of Unicode scalar values, not of UTF-16 code units. They differ only for characters outside the Basic Multilingual Plane and for lone surrogates. None of those is a digit or JavaScript white space, and none of them is escaped, so `parseInt` and `escapeHtml` treat them alike.
- DOM elements are identified by the frame id they carry. Hiding the payload (`style.display`) is folded into the `dragged` field.
- Handlers that re-render the list (`AddFiles`, `RemoveFrame`, `RemoveAll`, `ApplyAll`) require that no in-list drag is under way (`Idle`). `DragStart` requires the same, because `dragend` always clears the drag state before the next drag starts.
- MultiSelect.MovePayload, MultiSelect.ResyncedFrames, MultiSelect.Retimed, Frames.PushNewFrames: these work on a local copy, and the handler assigns the result to the field once. Nothing else runs between the iterations of these loops, so the final state is the same.
- The length of the wait, `f.duration` milliseconds, is not modelled; only its place between `Tick` and `Advance` is.
- Legacy.Reorder: with repeated ids, `findIndex` picks the first record with the id. `ReorderKeepsOthers` is stated only for unique ids, which every handler keeps.
