/** The multiple-choice interaction recorder of index_mc.js: one log of
    mouseenter, mouseleave and click events on the answer labels of a
    question, exported as CSV when an answer is clicked. */
module ChoiceRecorder {
  import opened Text
  import opened Csv

  datatype InteractionType = MouseEnter | MouseLeave | Click

  /** One logged interaction. `choiceIndex` is text: it is a piece of the
      label's `for` attribute. */
  datatype InteractionEvent = InteractionEvent(qid: string, timestamp: int, choiceIndex: string, kind: InteractionType)

  /** What a label's listeners know about it: the question and the choice. */
  datatype ChoiceLabel = ChoiceLabel(questionId: string, choiceIndex: string)

  /** `const [_, questionId, choiceIndex] = forAttr.split("~")` */
  function LabelOf(forAttr: string): ChoiceLabel
  {
    var pieces := Split(forAttr, '~');
    ChoiceLabel(Field(pieces, 1), Field(pieces, 2))
  }

  /** A `for` attribute made of a prefix, the question id and the choice
      index, separated by `~` and optionally followed by more `~`-separated
      text, names that question and choice. */
  lemma LabelOfFor(prefix: string, questionId: string, choiceIndex: string, rest: string)
    requires '~' !in prefix && '~' !in questionId && '~' !in choiceIndex
    requires rest == [] || rest[0] == '~'
    ensures LabelOf(prefix + "~" + questionId + "~" + choiceIndex + rest) == ChoiceLabel(questionId, choiceIndex)
  {
    var tail := choiceIndex + rest;
    assert prefix + "~" + questionId + "~" + choiceIndex + rest == prefix + ['~'] + (questionId + ['~'] + tail);
    SplitAfterPiece(prefix, questionId + ['~'] + tail, '~');
    SplitAfterPiece(questionId, tail, '~');
    if rest == [] {
      assert tail == choiceIndex;
      SplitNoSep(choiceIndex, '~');
    } else {
      assert tail == choiceIndex + ['~'] + rest[1..];
      SplitAfterPiece(choiceIndex, rest[1..], '~');
    }
  }

  /** An attribute without `~` yields neither a question id nor a choice
      index: both read as "undefined". */
  lemma LabelOfNoSeparator(forAttr: string)
    requires '~' !in forAttr
    ensures LabelOf(forAttr) == ChoiceLabel("undefined", "undefined")
  {
    SplitNoSep(forAttr, '~');
  }

  // ---------------------------------------------------------------------
  // The export

  const ChoiceHeader: seq<string> := ["timestamp", "QID", "choiceIndex", "type"]

  function TypeName(t: InteractionType): string
  {
    match t
    case MouseEnter => "mouseenter"
    case MouseLeave => "mouseleave"
    case Click => "click"
  }

  function EventCells(e: InteractionEvent): seq<string>
  {
    [IntToString(e.timestamp), e.qid, e.choiceIndex, TypeName(e.kind)]
  }

  /** The CSV text `printInteractionEvents` writes: the header, then one
      row per event in recording order, with no sorting. */
  function InteractionsCsv(events: seq<InteractionEvent>): string
  {
    Serialize([ChoiceHeader] + RowsOf(events, EventCells))
  }

  /** `participantId + "_" + QID + "_" + "interactions.csv"` */
  function ChoiceFileName(participantId: Option<string>, qid: string): string
  {
    StringOrNull(participantId) + "_" + qid + "_" + "interactions.csv"
  }

  /** Without a stored participant id the file name starts with "null". */
  lemma ChoiceFileNameNull(qid: string)
    ensures ChoiceFileName(None, qid) == "null_" + qid + "_interactions.csv"
  {
  }

  /** The file name splits at '_' into the participant id, the question id
      and "interactions.csv" when neither id holds a '_'. */
  lemma ChoiceFileNameParts(participantId: Option<string>, qid: string)
    requires '_' !in StringOrNull(participantId) && '_' !in qid
    ensures Split(ChoiceFileName(participantId, qid), '_') == [StringOrNull(participantId), qid, "interactions.csv"]
  {
    var p := StringOrNull(participantId);
    var parts := [p, qid, "interactions.csv"];
    JoinWithCons(qid, ["interactions.csv"], '_');
    JoinWithCons(p, [qid, "interactions.csv"], '_');
    assert JoinWith(parts, '_') == ChoiceFileName(participantId, qid);
    SplitJoin(parts, '_');
  }

  /** The log is only ever appended to, so an earlier export's text is a
      prefix of every later export's text. */
  lemma ExportPrefix(events: seq<InteractionEvent>, more: seq<InteractionEvent>)
    ensures InteractionsCsv(events) <= InteractionsCsv(events + more)
  {
    RowsOfAppend(events, more, EventCells);
    assert [ChoiceHeader] + RowsOf(events + more, EventCells) == ([ChoiceHeader] + RowsOf(events, EventCells)) + RowsOf(more, EventCells);
    SerializePrefix([ChoiceHeader] + RowsOf(events, EventCells), RowsOf(more, EventCells));
  }

  /** Exporting after one more event writes the earlier export, a line
      break, and that event's row: the click that triggers an export is
      its last line. */
  lemma ExportAfterEvent(events: seq<InteractionEvent>, e: InteractionEvent)
    ensures InteractionsCsv(events + [e]) == InteractionsCsv(events) + "\n" + FormatRow(EventCells(e))
  {
    assert RowsOf(events + [e], EventCells) == RowsOf(events, EventCells) + [EventCells(e)] by {
      assert (events + [e])[..|events|] == events;
    }
    assert [ChoiceHeader] + RowsOf(events + [e], EventCells) == ([ChoiceHeader] + RowsOf(events, EventCells)) + [EventCells(e)];
    SerializeSnoc([ChoiceHeader] + RowsOf(events, EventCells), EventCells(e));
  }

  // ---------------------------------------------------------------------
  // Reading an export back

  /** The cells of an event that are neither numbers nor type names can be
      read back from the CSV text. */
  predicate PlainEvent(e: InteractionEvent)
  {
    PlainCell(e.qid) && PlainCell(e.choiceIndex)
  }

  function DecodeType(s: string): Option<InteractionType>
  {
    if s == "mouseenter" then Some(MouseEnter)
    else if s == "mouseleave" then Some(MouseLeave)
    else if s == "click" then Some(Click)
    else None
  }

  function DecodeEvent(cells: seq<string>): Option<InteractionEvent>
  {
    if |cells| != 4 then None
    else match DecodeType(cells[3])
      case None => None
      case Some(t) => Some(InteractionEvent(cells[1], ParseInt(cells[0]), cells[2], t))
  }

  /** Reads an export back: the header, then one event per row. */
  function DecodeLog(rows: seq<seq<string>>): Option<seq<InteractionEvent>>
  {
    if |rows| == 0 || rows[0] != ChoiceHeader then None else DecodeRows(rows[1..], DecodeEvent)
  }

  lemma DecodeEventCells(e: InteractionEvent)
    ensures DecodeEvent(EventCells(e)) == Some(e)
  {
    ParseIntToString(e.timestamp);
  }

  lemma EventCellsPlain(e: InteractionEvent)
    requires PlainEvent(e)
    ensures PlainRow(EventCells(e))
  {
    IntToStringChars(e.timestamp);
    assert PlainCell(IntToString(e.timestamp));
    assert PlainCell(TypeName(e.kind)) by {
      match e.kind
      case MouseEnter =>
      case MouseLeave =>
      case Click =>
    }
  }

  lemma ExportRowsPlain(events: seq<InteractionEvent>)
    requires forall e :: e in events ==> PlainEvent(e)
    ensures forall r :: 0 <= r < |[ChoiceHeader] + RowsOf(events, EventCells)| ==> PlainRow(([ChoiceHeader] + RowsOf(events, EventCells))[r])
  {
    var rows := [ChoiceHeader] + RowsOf(events, EventCells);
    forall r | 0 <= r < |rows| ensures PlainRow(rows[r]) {
      if r > 0 {
        RowsOfAt(events, EventCells, r - 1);
        assert events[r - 1] in events;
        EventCellsPlain(events[r - 1]);
      }
    }
  }

  /** Reading the exported text back gives the header and then the logged
      events in recording order, every field intact. */
  lemma ExportRoundTrip(events: seq<InteractionEvent>)
    requires forall e :: e in events ==> PlainEvent(e)
    ensures DecodeLog(ParseCsv(InteractionsCsv(events))) == Some(events)
  {
    var rows := [ChoiceHeader] + RowsOf(events, EventCells);
    ExportRowsPlain(events);
    ParseSerialize(rows);
    var data := RowsOf(events, EventCells);
    assert rows[1..] == data;
    forall k | 0 <= k < |data| ensures DecodeEvent(data[k]) == Some(events[k]) {
      RowsOfAt(events, EventCells, k);
      DecodeEventCells(events[k]);
    }
    DecodeRowsOf(data, events, DecodeEvent);
  }

  /** The text cells of an event hold no line break. */
  predicate OneLineEvent(e: InteractionEvent)
  {
    '\n' !in e.qid && '\n' !in e.choiceIndex
  }

  lemma EventCellsOneLine(e: InteractionEvent)
    requires OneLineEvent(e)
    ensures OneLineRow(EventCells(e))
  {
    IntToStringChars(e.timestamp);
    assert '\n' !in TypeName(e.kind) by {
      match e.kind
      case MouseEnter =>
      case MouseLeave =>
      case Click =>
    }
  }

  /** The export has one line for the header and one per logged event: the
      first line is the formatted header and line `k + 1` the formatted row
      of event `k`, in recording order. */
  lemma ExportLines(events: seq<InteractionEvent>)
    requires forall e :: e in events ==> OneLineEvent(e)
    ensures |Split(InteractionsCsv(events), '\n')| == |events| + 1
    ensures Split(InteractionsCsv(events), '\n')[0] == FormatRow(ChoiceHeader)
    ensures forall k :: 0 <= k < |events| ==> Split(InteractionsCsv(events), '\n')[k + 1] == FormatRow(EventCells(events[k]))
  {
    forall k | 0 <= k < |events| ensures OneLineRow(EventCells(events[k])) {
      assert events[k] in events;
      EventCellsOneLine(events[k]);
    }
    HeaderRowsLines(ChoiceHeader, events, EventCells);
  }

  /** When no QID or choice index holds ',' or a line break, the first line
      reads back as the header and line `k + 1` as event `k`. */
  lemma ExportLinesRead(events: seq<InteractionEvent>)
    requires forall e :: e in events ==> PlainEvent(e)
    ensures |Split(InteractionsCsv(events), '\n')| == |events| + 1
    ensures ParseRow(Split(InteractionsCsv(events), '\n')[0]) == ChoiceHeader
    ensures forall k :: 0 <= k < |events| ==> ParseRow(Split(InteractionsCsv(events), '\n')[k + 1]) == EventCells(events[k])
  {
    var rows := [ChoiceHeader] + RowsOf(events, EventCells);
    ExportRowsPlain(events);
    SerializeLines(rows);
    ParseFormatRow(ChoiceHeader);
    forall k | 0 <= k < |events| ensures ParseRow(Split(InteractionsCsv(events), '\n')[k + 1]) == EventCells(events[k]) {
      RowsOfAt(events, EventCells, k);
      ParseFormatRow(rows[k + 1]);
    }
  }

  // ---------------------------------------------------------------------
  // The log as a function of the events the labels receive

  datatype LabelNotification = LabelNotification(choice: ChoiceLabel, timestamp: int, kind: InteractionType)

  function EventOf(n: LabelNotification): InteractionEvent
  {
    InteractionEvent(n.choice.questionId, n.timestamp, n.choice.choiceIndex, n.kind)
  }

  /** Whether the listeners log a notification: clicks always, mouseenter
      and mouseleave only when hover events are registered. */
  predicate Logged(registerHoverEvents: bool, kind: InteractionType)
  {
    registerHoverEvents || kind == Click
  }

  /** The log after the notifications of `trace`, starting from empty. */
  function LogOf(registerHoverEvents: bool, trace: seq<LabelNotification>): seq<InteractionEvent>
  {
    if |trace| == 0 then []
    else
      var n := trace[|trace| - 1];
      LogOf(registerHoverEvents, trace[..|trace| - 1]) + (if Logged(registerHoverEvents, n.kind) then [EventOf(n)] else [])
  }

  /** The click notifications of `trace`, in order. */
  function Clicks(trace: seq<LabelNotification>): seq<LabelNotification>
  {
    if |trace| == 0 then []
    else
      var n := trace[|trace| - 1];
      Clicks(trace[..|trace| - 1]) + (if n.kind == Click then [n] else [])
  }

  /** The click events of `events`, in order. */
  function ClickEvents(events: seq<InteractionEvent>): seq<InteractionEvent>
  {
    if |events| == 0 then []
    else
      var e := events[|events| - 1];
      ClickEvents(events[..|events| - 1]) + (if e.kind == Click then [e] else [])
  }

  /** With hover events registered every notification is logged, in order. */
  lemma {:induction false} LogOfAll(trace: seq<LabelNotification>)
    ensures |LogOf(true, trace)| == |trace|
    ensures forall k :: 0 <= k < |trace| ==> LogOf(true, trace)[k] == EventOf(trace[k])
  {
    if |trace| > 0 {
      LogOfAll(trace[..|trace| - 1]);
    }
  }

  /** Without hover events the log is exactly the logged click
      notifications, in order, and holds nothing but clicks. */
  lemma {:induction false} LogOfClicksOnly(trace: seq<LabelNotification>)
    ensures LogOf(false, trace) == LogOf(true, Clicks(trace))
    ensures forall k :: 0 <= k < |LogOf(false, trace)| ==> LogOf(false, trace)[k].kind == Click
  {
    if |trace| > 0 {
      var init, n := trace[..|trace| - 1], trace[|trace| - 1];
      LogOfClicksOnly(init);
      var c := Clicks(init);
      if n.kind == Click {
        assert (c + [n])[..|c|] == c;
      } else {
        assert c + [] == c;
      }
    }
  }

  /** Whatever the flag, the click events of the log are the click
      notifications, in order. */
  lemma {:induction false} LogOfClicks(registerHoverEvents: bool, trace: seq<LabelNotification>)
    ensures ClickEvents(LogOf(registerHoverEvents, trace)) == LogOf(true, Clicks(trace))
  {
    if |trace| > 0 {
      var init, n := trace[..|trace| - 1], trace[|trace| - 1];
      LogOfClicks(registerHoverEvents, init);
      var l := LogOf(registerHoverEvents, init);
      var c := Clicks(init);
      if Logged(registerHoverEvents, n.kind) {
        assert (l + [EventOf(n)])[..|l|] == l;
      } else {
        assert l + [] == l;
      }
      if n.kind == Click {
        assert (c + [n])[..|c|] == c;
      } else {
        assert c + [] == c;
      }
    }
  }

  // ---------------------------------------------------------------------
  // The recorder

  /** The page's log of interactions, written by the label listeners. */
  class InteractionLog {
    const registerHoverEvents: bool
    var interactionEvents: seq<InteractionEvent>

    constructor (registerHoverEvents: bool)
      ensures this.registerHoverEvents == registerHoverEvents
      ensures interactionEvents == []
    {
      this.registerHoverEvents := registerHoverEvents;
      interactionEvents := [];
    }

    /** `pushEvent(type)`: appends one event for the label. */
    method PushEvent(choice: ChoiceLabel, kind: InteractionType, timestamp: int)
      modifies this
      ensures interactionEvents == old(interactionEvents) + [InteractionEvent(choice.questionId, timestamp, choice.choiceIndex, kind)]
    {
      interactionEvents := interactionEvents + [InteractionEvent(choice.questionId, timestamp, choice.choiceIndex, kind)];
    }

    /** The mouseenter and mouseleave listeners, which exist only when
      hover events are registered. */
    method OnHover(choice: ChoiceLabel, kind: InteractionType, timestamp: int)
      requires kind != Click
      modifies this
      ensures interactionEvents == old(interactionEvents) + (if registerHoverEvents then [EventOf(LabelNotification(choice, timestamp, kind))] else [])
    {
      if registerHoverEvents {
        PushEvent(choice, kind, timestamp);
      }
    }

    /** The click listener: logs the click, then exports the whole log. */
    method OnClick(choice: ChoiceLabel, timestamp: int, participantId: Option<string>) returns (d: Download)
      modifies this
      ensures interactionEvents == old(interactionEvents) + [EventOf(LabelNotification(choice, timestamp, Click))]
      ensures d == Download(ChoiceFileName(participantId, interactionEvents[0].qid), InteractionsCsv(interactionEvents))
    {
      PushEvent(choice, Click, timestamp);
      d := PrintInteractionEvents(participantId);
    }

    /** `printInteractionEvents`: the CSV of the log, named after the first
      event's question. It is only called after a click has been logged. */
    method PrintInteractionEvents(participantId: Option<string>) returns (d: Download)
      requires interactionEvents != []
      ensures d == Download(ChoiceFileName(participantId, interactionEvents[0].qid), InteractionsCsv(interactionEvents))
    {
      var rows := [ChoiceHeader];
      var qid := interactionEvents[0].qid;
      for k := 0 to |interactionEvents|
        invariant rows == [ChoiceHeader] + RowsOf(interactionEvents[..k], EventCells)
      {
        assert interactionEvents[..k + 1][..k] == interactionEvents[..k];
        rows := rows + [EventCells(interactionEvents[k])];
      }
      assert interactionEvents[..|interactionEvents|] == interactionEvents;
      d := Download(ChoiceFileName(participantId, qid), Serialize(rows));
    }
  }
}
