# qualtrics-logger interaction recorders in Dafny

This project models the two interaction recorders a Qualtrics survey page runs in the
browser. The recorders log how a participant uses the answer controls and export the log
as a CSV download.

- `index.js`, the **slider recorder**, keeps per-slider logs. Each slider has a log of
  value changes and a log of mouseenter/mouseleave events. A value change is recorded
  only after the slider has seen a mouse event, and only when it differs from the last
  recorded value. When the Next button is clicked, every log is flattened into one event
  list. The list is sorted by timestamp with a stable sort, a fixed header row goes in
  front, and each cell is written in double quotes. The file name is built from the
  participant id and the question ids.
- `index_mc.js`, the **multiple-choice recorder**, keeps one log of mouseenter,
  mouseleave and click events on answer labels. Hover events are logged only when
  `registerHoverEvents` is set. A click is logged and then triggers an export of the
  whole log, in recording order. The file is named after the first event's question.

Files:

- `text.dfy` (module `Text`): JavaScript `split`/`join` on a one-character separator, a
  missing destructured piece reading as "undefined", `null` reading as "null", and the
  decimal text of an integral number with a reader for it.
- `csv.dfy` (module `Csv`): the quoting and joining both recorders use, a reader for
  that text, and its round trip, line and prefix properties.
- `timestamp_sort.dfy` (module `TimestampSort`): stable sorting by key. The reference
  definition is a functional insertion sort. It is proved sorted, a permutation and
  stable, and it is the only such arrangement. An in-place array insertion sort is proved
  to produce exactly that arrangement.
- `slider_recorder.dfy` (module `SliderRecorder`): the slider state, its recording rules,
  the `Recorder` class whose methods are the page's handlers, and the export.
- `choice_recorder.dfy` (module `ChoiceRecorder`): the `InteractionLog` class and the
  multiple-choice export.

Timestamps, slider values and the participant id are method parameters. `Date.now()`,
`aria-valuenow` and `localStorage` are not modelled. The ISO time string of a timestamp is
a function parameter `timeString`.

## Model

| member | source | states |
|---|---|---|
| SliderRecorder.RecordValue | index.js:27-37 | A value change leaves the mouse log untouched. With an empty mouse log it changes nothing. It changes the slider exactly when a mouse event has been seen and the value differs from the last recorded one, and then it appends exactly that entry. It preserves the no-adjacent-repeats invariant. |
| SliderRecorder.RecordMouse | index.js:68-86 | A mouseenter/mouseleave appends exactly one entry of that kind carrying the slider's value. The value log is unchanged and the invariant is preserved. |
| SliderRecorder.ReplayValues | index.js:29-37 | After any sequence of notifications, the value log is exactly the value changes that arrived after the first hover, with each value equal to its predecessor dropped. |
| SliderRecorder.ReplayMouseEvents | index.js:68-86 | After any sequence of notifications, the mouse log is every hover notification, in arrival order. |
| SliderRecorder.ReplayHasHover | index.js:29-30 | The mouse log is non-empty exactly when some hover notification has arrived. |
| SliderRecorder.GatedValuesNeedHover | index.js:29-30 | No value is recorded unless a hover notification has arrived. |
| SliderRecorder.ReplayInvariant | index.js:29-37 | Every reachable slider state has no two adjacent equal values, and has a non-empty mouse log whenever it has values. |
| SliderRecorder.CollapseNoRepeats | index.js:31-31 | The collapsed value sequence never holds two neighbouring entries with equal values. |
| SliderRecorder.RepeatedValueScenario | index.js:29-37 | After a mouseenter, the changes 10, 10, 20 are recorded as (2, 10) and (4, 20). |
| SliderRecorder.SliderKeyOfId | index.js:22-23 | An element id `q~i` or `q~i~rest` is read as question `q` and slider index `i`. |
| SliderRecorder.IndexOrder | index.js:55-62 | The registered slider indices are listed without duplicates. |
| SliderRecorder.IndexOrderMembers | index.js:55-62 | An index is registered exactly when some slider element id of the question carries it. |
| SliderRecorder.Registered | index.js:45-62 | A registered question has the container's id, a state for exactly the listed indices, and two empty logs per slider. |
| SliderRecorder.RegisteredWellFormed | index.js:45-62 | A freshly registered question satisfies the recorder's invariant. |
| SliderRecorder.RegisterQuestion | index.js:53-62 | The registration loop builds exactly the registered question state. |
| SliderRecorder.WithSlider | index.js:27-37 | Updating one slider sets that slider's state. Every other slider and every question's id, slider order and slider set stay unchanged. |
| SliderRecorder.WithSliderWellFormed | index.js:27-37 | Replacing a slider's state with one that keeps the slider invariant keeps every question well formed. |
| SliderRecorder.Recorder.constructor | index.js:41-62 | The recorder lists the questions in container order and registers each one. Its invariant holds. |
| SliderRecorder.Recorder.OnSliderMutation | index.js:19-37 | The observer reads question and slider from the element id. Only that slider's state changes, and it changes exactly as RecordValue says. The invariant is kept. |
| SliderRecorder.Recorder.OnHover | index.js:68-86 | A hover changes only the hovered slider, exactly as RecordMouse says. The invariant is kept. |
| SliderRecorder.Recorder.OnNextClick | index.js:94-186 | With no slider questions nothing is exported. Otherwise the download has the participant/question file name and the export text of the sorted events. |
| SliderRecorder.CollectEvents | index.js:128-154 | The flattening loop produces the flattened event list: question order, then slider order, then values before mouse events. |
| SliderRecorder.CollectQuestion | index.js:129-153 | Flattening one question appends its sliders' events in slider order. |
| SliderRecorder.AppendSliderEvents | index.js:131-151 | A slider contributes its value events, then its mouse events, each in log order. |
| SliderRecorder.CsvRows | index.js:105-167 | The row-building loop yields the header followed by one row per sorted event. |
| SliderRecorder.AllEventsCount | index.js:128-154 | There is exactly one flattened event per recorded value or mouse event. |
| SliderRecorder.ExportOrder | index.js:156-156 | The exported events are sorted by timestamp and are a permutation of the flattened events. Equal timestamps keep their flattened order. |
| SliderRecorder.FilterAllEvents | index.js:128-154 | When the question ids are distinct and every question is well formed, the value rows of slider i of question q among the flattened rows are exactly that slider's value log, in log order. There are none when the slider is not registered. |
| SliderRecorder.ExportValueRows | index.js:128-156 | When the question ids are distinct, every question is well formed and slider i of question q recorded its values with timestamps that never decrease, its value rows in the export are exactly its value log, in log order. So no two neighbouring value rows of one slider hold the same value. |
| SliderRecorder.ClockStepBackScenario | index.js:25-36 | If the clock steps back, the values 10, 20, 10 are recorded with timestamps 5, 3, 7. The value log has no repeats, but the export lists that slider's values as 20, 10, 10. |
| SliderRecorder.ExportLines | index.js:107-171 | When the time string, question id and slider id of every event hold no line break, the text has one line per recorded value or mouse event plus one. Line 0 is the formatted header, and line k+1 is the formatted row of the k-th event in timestamp order. |
| SliderRecorder.ExportLinesOf | index.js:157-170 | For any events whose text cells hold no line break, the header row followed by one row per event serialises to exactly those lines, in that order. |
| SliderRecorder.SliderFileNameNull | index.js:186-186 | Without a stored participant id the file name is "null_", the question ids joined by '_', then "_interactions.csv". |
| SliderRecorder.ExportRoundTrip | index.js:158-171 | Reading the export back gives the header and then exactly the sorted events with every field, provided the text cells hold no ',' or line break. |
| SliderRecorder.SliderFileNameParts | index.js:177-186 | When there is at least one question and neither the participant id nor any question id holds '_', the file name splits at '_' into the participant id, each question id and "interactions.csv". |
| TimestampSort.StableSortSorted | index.js:156-156 | The reference sort orders by timestamp. |
| TimestampSort.StableSortTies | index.js:156-156 | The reference sort is stable: for every timestamp, the events with it keep their order. |
| TimestampSort.StableSortPermutation | index.js:156-156 | The reference sort only rearranges its input. |
| TimestampSort.StableSortUnique | index.js:156-156 | Any sorted, stable arrangement equals the reference sort, so the result does not depend on which stable algorithm the engine uses. |
| TimestampSort.FilterStableSortCommute | index.js:156-156 | Keeping only the elements that pass a test, after the stable sort, gives the stable sort of just those elements. |
| TimestampSort.FilterStableSort | index.js:156-156 | Elements that pass a test and are already in timestamp order keep exactly that order through the sort. |
| TimestampSort.InsertInPlace | index.js:156-156 | One in-place insertion step produces the reference insertion of the element and leaves the rest of the array untouched. |
| TimestampSort.SortInPlace | index.js:156-156 | Sorting the array in place leaves exactly the reference stable sort of its old contents. |
| Csv.UnquoteQuote | index.js:170-170 | Dropping the quotes a cell was wrapped in gives the cell back. |
| Csv.SerializeLines | index.js:169-171 | For at least one row, none of whose cells holds a line break, splitting the text at '\n' gives exactly one formatted line per row, with no trailing newline. |
| Csv.HeaderRowsLines | index.js:157-170 | When no cell of the header or of any item's row holds a line break, the text has one line per item plus one. The first line is the formatted header, and line k+1 is the formatted row of item k. |
| Csv.ParseSerialize | index.js:169-171 | Reading the text recovers every row and every cell when no cell holds ',' or a line break. |
| Csv.SerializePrefix | index_mc.js:71-73 | The text of any list of rows, the empty one included, is a prefix of the text of any extension of that list. |
| Csv.SerializeSnoc | index_mc.js:71-73 | When there is at least one row already, one more row appends a line break and that row's line. |
| Csv.RowsOfAt | index_mc.js:67-69 | Data row k holds the cells of event k: the log is written in recording order. |
| Csv.RowsOfAppend | index_mc.js:67-69 | The rows of a longer log extend the rows of the shorter one. |
| Csv.DecodeRowsOf | index.js:158-167 | Rows that each decode to an event decode together to those events, in order. |
| Csv.QuotingIsAmbiguous | index.js:170-170 | Because quotes are not escaped, the one cell `a","b` and the two cells `a`, `b` format identically. |
| Text.Split | index.js:23-23 | A split has at least one piece, and no piece contains the separator. |
| Text.SplitJoin | index.js:177-177 | Splitting a join of separator-free parts recovers the parts. |
| Text.JoinSplit | index.js:23-23 | Joining the pieces of a split restores the string. |
| Text.IntToStringChars | index.js:160-165 | The text of a number is digits, with a single leading '-' exactly for a negative number. |
| Text.ParseIntToString | index.js:160-165 | Reading back the text of a timestamp or value gives the number. |
| ChoiceRecorder.LabelOfFor | index_mc.js:32-34 | A `for` attribute `p~q~c` (with optional `~rest`) names question `q` and choice `c`. |
| ChoiceRecorder.LabelOfNoSeparator | index_mc.js:32-34 | An attribute without '~' gives "undefined" for both the question and the choice. |
| ChoiceRecorder.ExportPrefix | index_mc.js:62-73 | The log is never cleared, so an earlier export's text is a prefix of every later export's text. |
| ChoiceRecorder.ExportAfterEvent | index_mc.js:56-59 | Exporting after a click gives the previous export, a line break and the click's row: the click is the last line. |
| ChoiceRecorder.ExportLines | index_mc.js:63-73 | When no QID or choice index holds a line break, the text has one line per event plus one. Line 0 is the formatted header, and line k+1 is the formatted row of event k, in recording order. |
| ChoiceRecorder.ExportLinesRead | index_mc.js:63-73 | When no QID or choice index holds ',' or a line break, line 0 reads back as the header and line k+1 as the cells of event k. |
| ChoiceRecorder.ExportRoundTrip | index_mc.js:62-73 | Reading the export back gives the header and the logged events in recording order, when QIDs and choice indices hold no ',' or line break. |
| ChoiceRecorder.ChoiceFileNameParts | index_mc.js:83-83 | When neither the participant id nor the QID holds '_', the file name splits at '_' into the participant id, the QID and "interactions.csv". |
| ChoiceRecorder.ChoiceFileNameNull | index_mc.js:83-83 | Without a stored participant id the file name is "null_", the QID, then "_interactions.csv". |
| ChoiceRecorder.LogOfAll | index_mc.js:45-59 | With hover events registered, every notification is logged, in order. |
| ChoiceRecorder.LogOfClicksOnly | index_mc.js:45-59 | Without hover events the log is exactly the events of the click notifications, in order, and holds only clicks. |
| ChoiceRecorder.LogOfClicks | index_mc.js:45-59 | Whatever the flag, the click events of the log are the events of the click notifications, in order. |
| ChoiceRecorder.InteractionLog.constructor | index_mc.js:27-27 | The log starts empty, with the given hover flag. |
| ChoiceRecorder.InteractionLog.PushEvent | index_mc.js:36-43 | Exactly one event is appended, with the label's QID and choice index and the given type. Earlier events are unchanged. |
| ChoiceRecorder.InteractionLog.OnHover | index_mc.js:45-53 | A mouseenter/mouseleave appends its event when hover events are registered, and changes nothing otherwise. |
| ChoiceRecorder.InteractionLog.OnClick | index_mc.js:56-59 | A click appends a click event, then exports the whole log under the first event's QID. |
| ChoiceRecorder.InteractionLog.PrintInteractionEvents | index_mc.js:62-83 | The export is the header plus one row per event in recording order, named after the participant and the first event's QID. |

## Left out

- SliderRecorder.ExportValueRows: requires that the slider's value timestamps never decrease. `Date.now()` (index.js:25) is wall-clock time and can step back. SliderRecorder.ClockStepBackScenario shows that the export can then list two equal values of one slider next to each other, although the value log has no repeats.
- DOM wiring is not modelled: `querySelectorAll`, `MutationObserver` registration and
  `addEventListener`. Each handler body is a method, and registration is the `Recorder`
  constructor's input: each question's container id and its sliders' element ids.
- `Date.now()` and `aria-valuenow` are not modelled. Timestamps and slider values are
  `int` parameters. `Number(...)` parsing, NaN and floating-point formatting are left
  out, and a cell holds the plain decimal text of the integer.
- `formatTimestamp`/`toISOString` is not modelled. The time-string column comes from a
  function parameter `timeString`.
- Browser I/O is not modelled: `localStorage` reads and writes, `Blob`, object URLs, the
  hidden download link and `console.log`. An export is a `Download(fileName, content)`
  value. The branch that stores the participant id when there are no slider questions is
  modelled only as "nothing is exported".
- `Object.entries` lists integer-like keys in ascending numeric order. The model visits
  sliders in registration order instead.
- SliderRecorder.Recorder.OnSliderMutation and SliderRecorder.Recorder.OnHover require a
  registered question and slider. The source dereferences the state without a check.
- SliderRecorder.Recorder.constructor requires distinct container ids. Duplicate element
  ids would make the source's `Map` hold fewer entries than there are containers.
- ChoiceRecorder.InteractionLog.PrintInteractionEvents requires a non-empty log. The
  source reads `interactionEvents[0]` and is only called after a click has been logged.
- `registerHoverEvents` is a constant (`true`) in the source. Here it is the constructor's
  parameter, so both settings are covered.
- A participant id that was never stored makes `localStorage.getItem` return `null`. The
  file name then starts with "null" (index.js:103, 186; index_mc.js:75, 83).
