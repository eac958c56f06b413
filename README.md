# Notes: a Dafny model of the note store and the rich-text editor

The application keeps a list of notes ("tasks") and a list of completed notes. Both lists are
held by one process-wide store (`DataManager`), written to an Android preferences file
(`SharedPrefManager`) as JSON after every change, and shown by a list adapter (`TaskAdapter`)
that tracks which rows are selected. A note's description is HTML. In the editor
(`ImageEditText`) the text holds one "[IMG]" marker per picture and the pictures are kept beside
it as base64 JPEG payloads. `getHtmlContent` turns the two into HTML with `<img>` tags;
`setHtmlContent` turns HTML back into text and payloads.

This project models that core and proves what it does:

- **What each operation computes.** Every method is proved against a function of its inputs or
  of the old state. Its `ensures` gives the whole new state.
- **Store and preferences.** The lists the store keeps and the contents of the preferences
  file. Deleting and completing tasks remove exactly the selected positions. Completed tasks
  land, marked completed, at the top of the completed list. Saving a list and reading it back
  gives the list with normalised image URIs.
- **Selection.** The adapter's selection is a toggle set that never holds a position twice.
- **HTML round trip.** Going from text to HTML and back gives the text again, line by line,
  when the marker is replaced literally and the text holds no '<', '&' or '"'. The encoder
  escapes nothing, so such characters are read back as markup: "a<b>c" comes back as "ac\n".
  The code as written replaces the marker through the regular expression `[IMG]`, a character
  class, and then one marker comes back as "[[IMG]MG]", and with two markers on a line the
  second tag can land inside the first payload (see "## Findings").

Modules, one file each:

| file | module | models |
|---|---|---|
| `Nullable.dfy` | `Nullable` | Java `null` as `Option` |
| `Strings.dfy` | `Strings` | `indexOf`, `contains`, `replace`, `split("\n")` |
| `Lists.dfy` | `Lists` | `List.remove(int)`, removal by index sets, the descending sort |
| `Tasks.dfy` | `Tasks` | `Task.java` |
| `Prefs.dfy` | `Prefs` | `SharedPrefManager.java` and the preferences file |
| `Store.dfy` | `Store` | `DataManager.java` |
| `RichText.dfy` | `RichText` | `ImageEditText.java`: HTML encoding and decoding, marker pairing, insertion |
| `RichTextLaws.dfy` | `RichTextLaws` | round trips and the counterexample for the editor |
| `Adapter.dfy` | `Adapter` | `TaskAdapter.java`: selection, preview, thumbnail payload |

Things outside the model enter it as parameters:

- `clock: nat -> int` gives the successive `System.currentTimeMillis()` readings.
- `decodes: string -> bool` says which payloads `BitmapFactory` turns into a bitmap.
- `fromHtml: string -> string` stands for `Html.fromHtml(..).toString()`.
- `InsertImage` takes the picked picture's payload, or `None` when it is not a bitmap.

## Model

Paths are under `Notes/app/src/main/java/com/example/notes/`.

| member | source | states |
|---|---|---|
| Strings.IndexOf | Notes/app/src/main/java/com/example/notes/ImageEditText.java:117 | `indexOf(p, from)`: -1, or an index at or after `from` where `p` occurs |
| Strings.IndexOfIsFirst | Notes/app/src/main/java/com/example/notes/ImageEditText.java:149 | no occurrence of `p` starts between `from` and the index returned, and -1 means none at all |
| Strings.IndexOfUnique | Notes/app/src/main/java/com/example/notes/ImageEditText.java:149 | any index with the first-occurrence property is the one `indexOf` returns |
| Strings.ContainsAt | Notes/app/src/main/java/com/example/notes/ImageEditText.java:172-174 | `contains(p)` holds exactly when `p` occurs somewhere in the text |
| Strings.ReplaceLiteralHead | Notes/app/src/main/java/com/example/notes/ImageEditText.java:207 | `replace` turns an occurrence at the front into the replacement and goes on behind it |
| Strings.ReplaceLiteralAbsent | Notes/app/src/main/java/com/example/notes/ImageEditText.java:207-214 | `replace` leaves a string without the pattern's first character unchanged |
| Strings.ReplaceLiteralNone | Notes/app/src/main/java/com/example/notes/ImageEditText.java:207-214 | `replace` leaves a string in which the pattern does not occur unchanged |
| Strings.SplitAllJoin | Notes/app/src/main/java/com/example/notes/ImageEditText.java:168 | the pieces between line breaks, joined with '\n', are the text again |
| Strings.SplitLines | Notes/app/src/main/java/com/example/notes/ImageEditText.java:168 | `split("\n")` yields lines without '\n' |
| Strings.SplitLinesEmpty | Notes/app/src/main/java/com/example/notes/ImageEditText.java:168 | the empty text splits into one empty line |
| Strings.SplitLinesOnlyNewlines | Notes/app/src/main/java/com/example/notes/ImageEditText.java:168 | a non-empty text of line breaks only splits into no lines (trailing empty strings are dropped) |
| Strings.SplitLinesJoin | Notes/app/src/main/java/com/example/notes/ImageEditText.java:168 | the lines, joined with '\n', are the text without its trailing line breaks |
| Strings.DropTrailingEmpty | Notes/app/src/main/java/com/example/notes/ImageEditText.java:168 | the result is a prefix of the pieces that ends in a non-empty piece, and only empty pieces were dropped |
| Lists.RemoveAt | Notes/app/src/main/java/com/example/notes/DataManager.java:53 | `remove(int)`: one element fewer, those before the index kept, those after shifted left |
| Lists.RemoveAtCons | Notes/app/src/main/java/com/example/notes/DataManager.java:53 | removing at a later index keeps the first element and removes from the rest |
| Lists.SortDescending | Notes/app/src/main/java/com/example/notes/DataManager.java:47-50 | `sort((a, b) -> b - a)` gives the same positions, largest first, strictly so when they are distinct |
| Lists.InsertKeepsStrictOrder | Notes/app/src/main/java/com/example/notes/DataManager.java:49 | inserting a new value into a strictly descending list keeps it strictly descending |
| Lists.WithoutPickedSplit | Notes/app/src/main/java/com/example/notes/DataManager.java:64-69 | the tasks kept and the tasks taken together are the original tasks, as a multiset |
| Lists.WithoutSize | Notes/app/src/main/java/com/example/notes/DataManager.java:52-54 | removing a set of valid positions removes exactly that many tasks |
| Lists.PickedSize | Notes/app/src/main/java/com/example/notes/DataManager.java:64-69 | taking a set of valid positions takes exactly that many tasks |
| Lists.RemoveBelow | Notes/app/src/main/java/com/example/notes/DataManager.java:52-54 | after the higher positions are gone, removing a lower one still removes the task first found there |
| Lists.PickBelow | Notes/app/src/main/java/com/example/notes/DataManager.java:64-68 | the task taken at a lower position goes in front of those taken at higher ones |
| Lists.DistinctElements | Notes/app/src/main/java/com/example/notes/DataManager.java:46-47 | a position list without repeats has as many distinct positions as entries |
| Tasks.NormalizedUri | Notes/app/src/main/java/com/example/notes/Task.java:39-45 | the stored URI is in normal form; a normal one is kept and "" or "null" becomes null |
| Tasks.HasImageUri | Notes/app/src/main/java/com/example/notes/Task.java:47-49 | `hasImage` holds exactly when `setImageUri` would keep the URI: neither null, nor "", nor "null" |
| Tasks.HasImageAfterNormalize | Notes/app/src/main/java/com/example/notes/Task.java:47-49 | after normalisation `hasImage` holds exactly when the URI is not null, and exactly when it held for the raw value |
| Tasks.Normalize | Notes/app/src/main/java/com/example/notes/Task.java:39-45 | only `imageUri` changes, to its normal form |
| Tasks.DigitsRoundTrip | Notes/app/src/main/java/com/example/notes/Task.java:12 | the decimal digits of a number read back as that number |
| Tasks.DecimalStringInjective | Notes/app/src/main/java/com/example/notes/Task.java:12 | `String.valueOf` gives different numbers different texts |
| Tasks.NewRecord | Notes/app/src/main/java/com/example/notes/Task.java:11-15 | a new task has an id, the creation time, is open, and has no title, description or image |
| Tasks.NewRecordIds | Notes/app/src/main/java/com/example/notes/Task.java:12 | tasks created at different milliseconds have different ids |
| Tasks.Task.Empty | Notes/app/src/main/java/com/example/notes/Task.java:11-15 | `new Task()` has the fields of a new record |
| Tasks.Task.constructor | Notes/app/src/main/java/com/example/notes/Task.java:17-21 | `new Task(title, description)` is a new record with the two texts |
| Tasks.Task.SetId | Notes/app/src/main/java/com/example/notes/Task.java:24 | only the id changes |
| Tasks.Task.SetTitle | Notes/app/src/main/java/com/example/notes/Task.java:27 | only the title changes |
| Tasks.Task.SetDescription | Notes/app/src/main/java/com/example/notes/Task.java:30 | only the description changes |
| Tasks.Task.SetCompleted | Notes/app/src/main/java/com/example/notes/Task.java:33 | only the completed flag changes |
| Tasks.Task.SetCreatedAt | Notes/app/src/main/java/com/example/notes/Task.java:36 | only the creation time changes |
| Tasks.Task.SetImageUri | Notes/app/src/main/java/com/example/notes/Task.java:39-45 | only `imageUri` changes, to the normal form of the argument, and then `hasImage` holds exactly when it is not null |
| Tasks.Task.HasImage | Notes/app/src/main/java/com/example/notes/Task.java:47-49 | the object's `hasImage` holds exactly when its `imageUri` is one `setImageUri` keeps |
| Prefs.Preferences.PutList | Notes/app/src/main/java/com/example/notes/SharedPrefManager.java:26 | `putString(key, json)` replaces that key's entry and no other |
| Prefs.Preferences.ClearValues | Notes/app/src/main/java/com/example/notes/SharedPrefManager.java:80 | `clear()` empties the file |
| Prefs.NormalizeAll | Notes/app/src/main/java/com/example/notes/SharedPrefManager.java:42-49 | the list keeps its length and order, every URI is normal afterwards, and only URIs change |
| Prefs.NormalizeAllFixed | Notes/app/src/main/java/com/example/notes/SharedPrefManager.java:42-49 | a list already normal comes back unchanged |
| Prefs.NormalizeAllIdempotent | Notes/app/src/main/java/com/example/notes/SharedPrefManager.java:42-49 | normalising twice is normalising once |
| Prefs.NormalizeUris | Notes/app/src/main/java/com/example/notes/SharedPrefManager.java:42-49 | the loop that calls `setImageUri(null)` computes the normalised list |
| Prefs.DefaultTask | Notes/app/src/main/java/com/example/notes/SharedPrefManager.java:33-35 | a sample task has its title and description, is open, and has no image |
| Prefs.DefaultTasks | Notes/app/src/main/java/com/example/notes/SharedPrefManager.java:31-37 | three sample tasks, all open, none with an image |
| Prefs.LoadStored | Notes/app/src/main/java/com/example/notes/SharedPrefManager.java:40-51 | a JSON text that reads back as null gives the empty list; any other list comes back normalised, with its length |
| Prefs.LoadTasks | Notes/app/src/main/java/com/example/notes/SharedPrefManager.java:29-52 | the result is normal; with no saved entry it is exactly the three sample tasks, otherwise the saved entry as read back |
| Prefs.LoadCompleted | Notes/app/src/main/java/com/example/notes/SharedPrefManager.java:59-77 | the result is normal; with no saved entry it is empty, otherwise the saved entry as read back, so a saved value that reads as null gives the empty list |
| Prefs.SaveTasksThenLoad | Notes/app/src/main/java/com/example/notes/SharedPrefManager.java:24-52 | after `saveTasks(ts)`, `getTasks` reads `ts` normalised and the completed list is read as before |
| Prefs.SaveCompletedThenLoad | Notes/app/src/main/java/com/example/notes/SharedPrefManager.java:54-77 | after `saveCompletedTasks(ts)`, the completed list reads `ts` normalised and the active list is read as before |
| Prefs.ReloadIsStable | Notes/app/src/main/java/com/example/notes/SharedPrefManager.java:24-52 | saving what was loaded and loading again gives the same list |
| Prefs.ClearedLoad | Notes/app/src/main/java/com/example/notes/SharedPrefManager.java:79-81 | after `clearAll` the sample tasks come back and the completed list is empty |
| Prefs.SharedPrefManager.constructor | Notes/app/src/main/java/com/example/notes/SharedPrefManager.java:19-22 | the manager works on the given preferences file |
| Prefs.SharedPrefManager.SaveTasks | Notes/app/src/main/java/com/example/notes/SharedPrefManager.java:24-27 | the "tasks" entry becomes the list, nothing else changes |
| Prefs.SharedPrefManager.SaveCompletedTasks | Notes/app/src/main/java/com/example/notes/SharedPrefManager.java:54-57 | the "completed_tasks" entry becomes the list, nothing else changes |
| Prefs.SharedPrefManager.GetTasks | Notes/app/src/main/java/com/example/notes/SharedPrefManager.java:29-52 | returns `LoadTasks` of the file: the sample tasks, the empty list, or the stored list normalised |
| Prefs.SharedPrefManager.GetCompletedTasks | Notes/app/src/main/java/com/example/notes/SharedPrefManager.java:59-77 | returns `LoadCompleted` of the file |
| Prefs.SharedPrefManager.ClearAll | Notes/app/src/main/java/com/example/notes/SharedPrefManager.java:79-81 | the file is empty |
| Store.MarkAll | Notes/app/src/main/java/com/example/notes/DataManager.java:66 | every task is completed and nothing else about it changes |
| Store.RemovalStep | Notes/app/src/main/java/com/example/notes/DataManager.java:52-54 | one pass of the removal loop removes the task originally at that position |
| Store.CompleteMovesTasks | Notes/app/src/main/java/com/example/notes/DataManager.java:58-72 | completing k positions removes k tasks and adds k completed ones; no task is lost or made up |
| Store.CompleteExample | Notes/app/src/main/java/com/example/notes/DataManager.java:58-72 | completing positions 0 and 2 of [a, b, c, d] leaves [b, d] and moves [a, c], in that order |
| Store.RemoveAll | Notes/app/src/main/java/com/example/notes/DataManager.java:47-54 | removing the positions largest first removes exactly the tasks at those positions and keeps the rest in order |
| Store.MoveAll | Notes/app/src/main/java/com/example/notes/DataManager.java:59-69 | the loop keeps the other tasks in order and puts the chosen ones, completed and in list order, in front of the completed list |
| Store.MoveStep | Notes/app/src/main/java/com/example/notes/DataManager.java:65-68 | one pass of that loop in terms of the final lists |
| Store.DataManager.constructor | Notes/app/src/main/java/com/example/notes/DataManager.java:15-19 | both lists are what the preferences file reads as |
| Store.DataManager.AddTask | Notes/app/src/main/java/com/example/notes/DataManager.java:36-39 | the task goes first in the active list, which is saved |
| Store.DataManager.UpdateTask | Notes/app/src/main/java/com/example/notes/DataManager.java:41-44 | the task at the position is replaced and the list saved |
| Store.DataManager.DeleteTasks | Notes/app/src/main/java/com/example/notes/DataManager.java:46-56 | the active list loses exactly the selected positions and is saved; the completed list is untouched |
| Store.DataManager.CompleteTasks | Notes/app/src/main/java/com/example/notes/DataManager.java:58-72 | the selected tasks leave the active list and go, completed, to the top of the completed list; both are saved |
| Store.DataManager.DeleteCompletedTasks | Notes/app/src/main/java/com/example/notes/DataManager.java:74-84 | the completed list loses exactly the selected positions and is saved; the active list is untouched |
| Store.Process.constructor | Notes/app/src/main/java/com/example/notes/DataManager.java:10 | no store exists yet |
| Store.Process.GetInstance | Notes/app/src/main/java/com/example/notes/DataManager.java:21-26 | the first call builds the store from the file; later calls return the same store |
| RichText.Find | Notes/app/src/main/java/com/example/notes/ImageEditText.java:197 | the first index of a character at or after `from`, or -1 |
| RichText.FindIsFirst | Notes/app/src/main/java/com/example/notes/ImageEditText.java:197 | no occurrence is skipped |
| RichText.ClassIndex | Notes/app/src/main/java/com/example/notes/ImageEditText.java:177 | -1, or an index at or after `from` holding an 'I', 'M' or 'G' |
| RichText.ClassIndexIsFirst | Notes/app/src/main/java/com/example/notes/ImageEditText.java:177 | no class character stands between `from` and the index returned, and -1 means there is none at all |
| RichText.ClassIndexUnique | Notes/app/src/main/java/com/example/notes/ImageEditText.java:177 | any index with the first-class-character property is the one returned |
| RichText.MarkerHasClass | Notes/app/src/main/java/com/example/notes/ImageEditText.java:174-177 | a line that `contains` the marker holds a class character, so the loop always replaces something |
| RichText.ReplaceFirstMatch | Notes/app/src/main/java/com/example/notes/ImageEditText.java:177 | `replaceFirst("[IMG]", tag)`: without a class character the text is kept; otherwise exactly one character gives way to the tag |
| RichText.ReplaceFirstMatchSplices | Notes/app/src/main/java/com/example/notes/ImageEditText.java:177 | the result is the text in front of the first class character, the tag, and the text behind that character |
| RichText.ReplaceFirstLiteral | Notes/app/src/main/java/com/example/notes/ImageEditText.java:177 | the literal replacement evidently meant: without a marker the text is kept; otherwise exactly one marker gives way to the tag |
| RichText.ReplaceFirstLiteralSplices | Notes/app/src/main/java/com/example/notes/ImageEditText.java:177 | the result is the text in front of the first marker, the tag, and the text behind that marker |
| RichText.ExpandLine | Notes/app/src/main/java/com/example/notes/ImageEditText.java:172-180 | the payloads used are those from index `k` to the index returned; the loop stops early only when no marker is left; a line without a marker, or with no payload left, is copied |
| RichText.ExpandLineLength | Notes/app/src/main/java/com/example/notes/ImageEditText.java:174-179 | each payload used puts its tag in place of one match: one class character with the regular expression, the five-character marker with the literal |
| RichText.EncodeFrom | Notes/app/src/main/java/com/example/notes/ImageEditText.java:171-185 | one converted line per line; lines without a marker are copied |
| RichText.Terminated | Notes/app/src/main/java/com/example/notes/ImageEditText.java:171-185 | the lines, each followed by `<br/>`, are empty exactly when there are no lines |
| RichText.Encode | Notes/app/src/main/java/com/example/notes/ImageEditText.java:164-188 | `getHtmlContent` as written is empty exactly when the text splits into no lines |
| RichText.EncodeFixed | Notes/app/src/main/java/com/example/notes/ImageEditText.java:164-188 | the same with the marker replaced literally |
| RichText.ExpandMarkers | Notes/app/src/main/java/com/example/notes/ImageEditText.java:174-179 | the `while` loop computes `ExpandLine` |
| RichText.EncodeLineLoop | Notes/app/src/main/java/com/example/notes/ImageEditText.java:171-185 | the `for` loop computes the lines converted and each followed by `<br/>` |
| RichText.EncodeText | Notes/app/src/main/java/com/example/notes/ImageEditText.java:164-188 | the whole of `getHtmlContent` computes `Encode` |
| RichText.CaptureEnd | Notes/app/src/main/java/com/example/notes/ImageEditText.java:197 | a match of the `src` pattern at the start ends at a quote, after a non-empty group |
| RichText.Captures | Notes/app/src/main/java/com/example/notes/ImageEditText.java:200-203 | every group found is non-empty |
| RichText.CollectCaptures | Notes/app/src/main/java/com/example/notes/ImageEditText.java:197-203 | the `while (matcher.find())` loop collects exactly the groups, in order |
| RichText.TagsSkip | Notes/app/src/main/java/com/example/notes/ImageEditText.java:206-209 | text without the tag's first character passes the tag replacement unchanged, whatever follows |
| RichText.TagsAbsent | Notes/app/src/main/java/com/example/notes/ImageEditText.java:206-209 | the tag replacement keeps a text without the tag's first character |
| RichText.DecodeText | Notes/app/src/main/java/com/example/notes/ImageEditText.java:205-214 | HTML without '<' only has its entities replaced |
| RichText.Unescape | Notes/app/src/main/java/com/example/notes/ImageEditText.java:207-214 | text without '<' holds no break and no tag, so only its entities are replaced |
| RichText.Entities | Notes/app/src/main/java/com/example/notes/ImageEditText.java:210-214 | text without '&' holds no entity and is kept |
| RichText.MarkersFrom | Notes/app/src/main/java/com/example/notes/ImageEditText.java:117-149 | every position the walk finds is at or after `from` and holds a marker |
| RichText.MarkersSound | Notes/app/src/main/java/com/example/notes/ImageEditText.java:117-149 | the positions the marker walk visits come in strictly increasing order |
| RichText.DecodablePrefix | Notes/app/src/main/java/com/example/notes/ImageEditText.java:120-147 | the pairing stops at the first payload that does not decode (it is retried at each later marker) |
| RichText.Pairing | Notes/app/src/main/java/com/example/notes/ImageEditText.java:113-153 | the k-th marker gets the k-th payload, as long as markers last and payloads decode; the spans stand at increasing positions |
| RichText.PairMarkers | Notes/app/src/main/java/com/example/notes/ImageEditText.java:117-150 | the marker loop sets exactly those spans |
| RichText.PairRestStep | Notes/app/src/main/java/com/example/notes/ImageEditText.java:121-149 | one pass of the loop: a span when the payload decodes, and the search goes on one past the marker |
| RichText.PairRestClosed | Notes/app/src/main/java/com/example/notes/ImageEditText.java:120-150 | the walk pairs the markers left with consecutive payloads until either runs out |
| RichText.PairRestIsPairing | Notes/app/src/main/java/com/example/notes/ImageEditText.java:117-150 | the walk from the start gives `Pairing` |
| RichText.Inserted | Notes/app/src/main/java/com/example/notes/ImageEditText.java:80-89 | the text before and after the cursor is kept, with the marker, a break after it, and one before it unless the cursor is at the start |
| RichText.InsertedMarker | Notes/app/src/main/java/com/example/notes/ImageEditText.java:83-89 | the inserted marker starts a line and is followed by a line break |
| RichText.ImageEditText.constructor | Notes/app/src/main/java/com/example/notes/ImageEditText.java:26 | empty text, no payloads, no spans |
| RichText.ImageEditText.GetHtmlContent | Notes/app/src/main/java/com/example/notes/ImageEditText.java:164-188 | returns `Encode` of the text and the payloads, as the code writes it |
| RichText.ImageEditText.SetHtmlContent | Notes/app/src/main/java/com/example/notes/ImageEditText.java:190-216 | null or empty HTML clears everything; otherwise the payloads are the groups found and the text is the decoded HTML |
| RichText.ImageEditText.ReplaceMarkersWithImages | Notes/app/src/main/java/com/example/notes/ImageEditText.java:113-153 | text and payloads unchanged; the spans are `Pairing` |
| RichText.ImageEditText.InsertImage | Notes/app/src/main/java/com/example/notes/ImageEditText.java:52-104 | no bitmap: nothing changes. Otherwise the payload is appended; with the cursor in range the text gains the marker and the spans are redone; out of range the insertion throws and the text stays |
| RichTextLaws.TagsOfImage | Notes/app/src/main/java/com/example/notes/ImageEditText.java:206 | `replaceAll("<img[^>]*>", rep)` turns a whole image tag into `rep` |
| RichTextLaws.TagsOfLineEnd | Notes/app/src/main/java/com/example/notes/ImageEditText.java:206 | a `<br/>` is not taken for an image tag |
| RichTextLaws.CapturesOfImage | Notes/app/src/main/java/com/example/notes/ImageEditText.java:197-203 | an image tag yields exactly its payload to the `src` pattern |
| RichTextLaws.CapturesNoQuote | Notes/app/src/main/java/com/example/notes/ImageEditText.java:197-203 | text without a quote in front of a tag yields no group |
| RichTextLaws.ExpandTags | Notes/app/src/main/java/com/example/notes/ImageEditText.java:172-180 | a line converted with the literal marker has its markers back once its tags are replaced |
| RichTextLaws.ExpandCaptures | Notes/app/src/main/java/com/example/notes/ImageEditText.java:172-180 | a line converted with the literal marker yields the payloads it used, in order |
| RichTextLaws.TerminatedTags | Notes/app/src/main/java/com/example/notes/ImageEditText.java:171-185 | the converted lines, their tags replaced, are the lines each followed by `<br/>` |
| RichTextLaws.TerminatedCaptures | Notes/app/src/main/java/com/example/notes/ImageEditText.java:171-185 | the converted lines yield exactly the payloads used, in order |
| RichTextLaws.UnescapeTerminated | Notes/app/src/main/java/com/example/notes/ImageEditText.java:207-214 | lines without '<' or '&', each followed by `<br/>`, become the lines each followed by '\n' |
| RichTextLaws.EncodeCopies | Notes/app/src/main/java/com/example/notes/ImageEditText.java:171-185 | lines without '[' are copied unchanged and use no payload |
| RichTextLaws.FixedRoundTrip | Notes/app/src/main/java/com/example/notes/ImageEditText.java:164-214 | with the literal marker, the payloads found again are those used, in order, and the text comes back line by line |
| RichTextLaws.PlainRoundTrip | Notes/app/src/main/java/com/example/notes/ImageEditText.java:164-214 | a text without '[', '<', '&' or '"' becomes its lines with `<br/>`, yields no payload, and comes back line by line |
| RichTextLaws.DecodedLines | Notes/app/src/main/java/com/example/notes/ImageEditText.java:168 | what the text decodes to is the text without its trailing breaks, plus one |
| RichTextLaws.EachLineJoin | Notes/app/src/main/java/com/example/notes/ImageEditText.java:184 | the lines each followed by '\n' are the lines joined with '\n', plus a final '\n' |
| RichTextLaws.EncodeEmpty | Notes/app/src/main/java/com/example/notes/ImageEditText.java:168-187 | the empty text becomes a single `<br/>` |
| RichTextLaws.EncodeOnlyNewlines | Notes/app/src/main/java/com/example/notes/ImageEditText.java:168-187 | a text of line breaks only becomes the empty HTML |
| RichTextLaws.EntitiesInOrder | Notes/app/src/main/java/com/example/notes/ImageEditText.java:210-211 | "&amp;lt;" decodes to "<", because `&amp;` is replaced before `&lt;` |
| RichTextLaws.MarkerEncoded | Notes/app/src/main/java/com/example/notes/ImageEditText.java:177 | the lone marker's HTML is "[", the tag, "MG]" and `<br/>` |
| RichTextLaws.MarkerCaptured | Notes/app/src/main/java/com/example/notes/ImageEditText.java:197-203 | that HTML still yields the one payload |
| RichTextLaws.MarkerDecoded | Notes/app/src/main/java/com/example/notes/ImageEditText.java:205-214 | that HTML decodes to "[[IMG]MG]" and a line break |
| RichTextLaws.ClassSplit | Notes/app/src/main/java/com/example/notes/ImageEditText.java:177 | after a prefix without 'I', 'M' or 'G', `replaceFirst("[IMG]", tag)` replaces the class character that follows |
| RichTextLaws.RegexStep | Notes/app/src/main/java/com/example/notes/ImageEditText.java:174-177 | one pass of the inner loop as written replaces the first class character of a line holding a marker by the next tag |
| RichTextLaws.RegexLoneMarker | Notes/app/src/main/java/com/example/notes/ImageEditText.java:172-180 | a line with one marker, no 'I', 'M' or 'G' before it and no marker after it becomes the text before, "[", the tag, "MG]" and the text after, using one payload |
| RichTextLaws.RegexNestedTag | Notes/app/src/main/java/com/example/notes/ImageEditText.java:172-180 | with two markers, the second tag replaces the first 'I', 'M' or 'G' of the first payload and the second marker stays |
| RichTextLaws.RegexNestedCaptured | Notes/app/src/main/java/com/example/notes/ImageEditText.java:197-203 | the scan then finds, as the first payload, that payload's front followed by `<img src=`, not the payload |
| RichTextLaws.MarkerFixed | Notes/app/src/main/java/com/example/notes/ImageEditText.java:177 | with the literal marker the lone marker comes back as "[IMG]" and a line break |
| Adapter.RemoveFirst | Notes/app/src/main/java/com/example/notes/TaskAdapter.java:172 | `remove((Integer) p)`: unchanged without `p`, one element shorter with it |
| Adapter.Toggled | Notes/app/src/main/java/com/example/notes/TaskAdapter.java:170-175 | the selection grows by one when the position was not in it and shrinks by one when it was |
| Adapter.RemoveFirstAt | Notes/app/src/main/java/com/example/notes/TaskAdapter.java:172 | removing the value is removing at the index of its first occurrence |
| Adapter.RemoveFirstMembers | Notes/app/src/main/java/com/example/notes/TaskAdapter.java:172 | in a list without repeats, the value removed is gone and every other value stays |
| Adapter.RemoveFirstDistinct | Notes/app/src/main/java/com/example/notes/TaskAdapter.java:172 | removing keeps a list without repeats |
| Adapter.ToggleKeepsDistinct | Notes/app/src/main/java/com/example/notes/TaskAdapter.java:170-177 | toggling never puts a position in the selection twice |
| Adapter.ToggleMembers | Notes/app/src/main/java/com/example/notes/TaskAdapter.java:170-177 | after a toggle a position is selected exactly when it was selected before or is the one toggled, but not both |
| Adapter.ToggleTwiceAbsent | Notes/app/src/main/java/com/example/notes/TaskAdapter.java:170-177 | toggling an unselected position twice gives the selection back |
| Adapter.ToggleTwicePresent | Notes/app/src/main/java/com/example/notes/TaskAdapter.java:170-177 | toggling a selected position twice moves it to the end |
| Adapter.Truncate | Notes/app/src/main/java/com/example/notes/TaskAdapter.java:87-89 | at most 103 characters; short text is kept; long text becomes its first 100 characters and "..." |
| Adapter.TruncateIdempotent | Notes/app/src/main/java/com/example/notes/TaskAdapter.java:87-89 | cutting twice is cutting once |
| Adapter.Preview | Notes/app/src/main/java/com/example/notes/TaskAdapter.java:82-101 | empty for a null or empty description; never longer than 103 characters |
| Adapter.PreviewHidesImage | Notes/app/src/main/java/com/example/notes/TaskAdapter.java:84 | an image tag reaches `fromHtml` as the word "[Изображение]", never as its payload |
| Adapter.ThumbnailOfImage | Notes/app/src/main/java/com/example/notes/TaskAdapter.java:92 | a description with an image tag shows the thumbnail |
| Adapter.ShowsThumbnail | Notes/app/src/main/java/com/example/notes/TaskAdapter.java:82-97 | a row shows a thumbnail exactly when its description is present and "<img" occurs somewhere in it |
| Adapter.FirstImage | Notes/app/src/main/java/com/example/notes/TaskAdapter.java:112-116 | `matcher.find()` finds a group exactly when the editor's scan finds payloads, and it is the first of them, non-empty |
| Adapter.ExtractFirstImageBase64 | Notes/app/src/main/java/com/example/notes/TaskAdapter.java:132-142 | null exactly when "base64," or a quote after it is missing; otherwise the quote-free text between them |
| Adapter.ExtractOfImage | Notes/app/src/main/java/com/example/notes/TaskAdapter.java:132-142 | on a first image tag the helper returns that tag's payload |
| Adapter.FirstImageOfImage | Notes/app/src/main/java/com/example/notes/TaskAdapter.java:112-116 | on a first image tag the thumbnail is that tag's payload |
| Adapter.ExtractAgreesWithThumbnail | Notes/app/src/main/java/com/example/notes/TaskAdapter.java:112-142 | the helper and the thumbnail agree on the first tag's payload when the text in front of that tag holds no '"' and no "base64,"; the encoder escapes neither, so editor HTML can break this condition |
| Adapter.TaskAdapter.constructor | Notes/app/src/main/java/com/example/notes/TaskAdapter.java:21-22 | nothing selected, not in selection mode |
| Adapter.TaskAdapter.ToggleSelection | Notes/app/src/main/java/com/example/notes/TaskAdapter.java:170-177 | the selection is toggled, stays without repeats, and the position's selected state flips |
| Adapter.TaskAdapter.IsSelected | Notes/app/src/main/java/com/example/notes/TaskAdapter.java:103 | `selectedPositions.contains(position)`: the position stands at some index of the selection |
| Adapter.TaskAdapter.ClearSelection | Notes/app/src/main/java/com/example/notes/TaskAdapter.java:179-183 | empty selection, not in selection mode |
| Adapter.TaskAdapter.GetSelectedPositions | Notes/app/src/main/java/com/example/notes/TaskAdapter.java:185-187 | a copy equal to the selection |
| Adapter.TaskAdapter.SetSelectionMode | Notes/app/src/main/java/com/example/notes/TaskAdapter.java:189-194 | the mode is set; leaving it empties the selection, entering it keeps the selection |
| Adapter.TaskAdapter.IsSelectionMode | Notes/app/src/main/java/com/example/notes/TaskAdapter.java:196-198 | the current mode |
| Adapter.SelectionThenToggle | Notes/app/src/main/java/com/example/notes/TaskAdapter.java:185-187 | a selection obtained before a toggle is not changed by it |

## Left out

- Bitmap decoding, scaling and recycling, the JPEG/Base64 codec, and reading the picked picture
  from its URI: `insertImage` takes the payload or `None`, and `replaceMarkersWithImages` takes
  `decodes`.
- The image span's drawable and its bounds: a span is the marker's position and the payload's
  index.
- `setHtmlContent` runs the pairing delayed, with `postDelayed`; the model leaves the text
  without spans. Its `catch` branch is not modelled: the model's chain cannot throw.
- `Html.fromHtml` is the parameter `fromHtml`. Glide, view visibility, backgrounds and the
  `notify*` calls of the adapter are not modelled.
- Gson: a stored list is modelled as the list its JSON reads back as (`Option` for a JSON
  `null`). `apply()` writes asynchronously; the model writes at once.
- The `SDK_INT < N` branch of the removal loops, which leaves the positions unsorted, is not
  modelled. The sort is the one `List.sort` does.
- Store.DataManager.DeleteTasks: requires distinct positions within the list. Java throws for a
  position out of range and removes a different task for a repeated one. The adapter's selection
  never repeats a position (Adapter.ToggleKeepsDistinct).
- Store.DataManager.CompleteTasks: the same requirement as DeleteTasks.
- Store.DataManager.DeleteCompletedTasks: the same requirement as DeleteTasks.
- Store.DataManager.UpdateTask: requires a position within the list; `List.set` throws for
  any other.
- The tasks are values: the aliasing between the adapter's `taskList`, the store's lists and the
  objects that `completeTasks` changes in place is not modelled.
- `getItemCount`, `updateTasks` and the view-holder code of the adapter are not modelled.
- Strings are sequences of characters: UTF-16 surrogates and `long` overflow of the clock are not
  modelled.
- RichText.ReplaceFirstMatch: the replacement text is inserted as it is. Java's `replaceFirst`
  would interpret '$' and '\' in it; tags built from base64 payloads hold neither.
- RichText.ReplaceTags: the replacement text is inserted as it is. Java's `replaceAll` would
  interpret '$' and '\' in it; the marker and the empty string hold neither.

## Findings

| source | as written | input that shows it | evidently intended | confidence | as-written member | corrected member |
|---|---|---|---|---|---|---|
| Notes/app/src/main/java/com/example/notes/ImageEditText.java:177 | `replaceFirst(IMAGE_MARKER, imgTag)` takes "[IMG]" as a regular expression, the character class of 'I', 'M' and 'G', so the tag replaces the 'I' of the marker | the text "[IMG]" with one payload: the HTML is "[" + tag + "MG]<br/>", which `setHtmlContent` turns into "[[IMG]MG]\n" | replace the literal marker (`Pattern.quote`, or `replace`), so that the text comes back | high (proved; not executed) | RichTextLaws.MarkerDecoded | RichTextLaws.FixedRoundTrip |
| Notes/app/src/main/java/com/example/notes/ImageEditText.java:174-177 | on a line with two markers the second pass of `replaceFirst("[IMG]", imgTag)` replaces the first 'I', 'M' or 'G' of the line again, and that lies inside the first payload whenever the payload holds one | the text "[IMG][IMG]" with the payloads "AIB" and "c": the second tag replaces the 'I' of "AIB", and `setHtmlContent` then finds "A<img src=" as the first payload | replace the literal marker, so that each tag takes the place of its own marker | high (proved; not executed) | RichTextLaws.NestedExample | RichTextLaws.FixedRoundTrip |

`MarkerEncoded`, `MarkerCaptured` and `MarkerDecoded` follow the lone marker through the code as
written. `RegexNestedTag` and `RegexNestedCaptured` follow two markers on one line, and
`NestedExample` is the case in the second row. `EncodeFixed` applies the literal replacement.
`FixedRoundTrip` and `MarkerFixed` prove that with it the payloads and the text come back. The
editor class's `GetHtmlContent` keeps the behaviour as written.
