/** The slider interaction recorder of index.js: per-slider logs of value
    changes and hover events, filled by the page's event handlers, and the
    CSV export the Next button triggers. */
module SliderRecorder {
  import opened Text
  import opened Csv
  import opened TimestampSort

  datatype HoverKind = MouseEnter | MouseLeave

  datatype ValueEntry = ValueEntry(timestamp: int, value: int)

  /** A hover event carries the slider's value at the time of the event. */
  datatype MouseEntry = MouseEntry(timestamp: int, kind: HoverKind, value: int)

  /** The two append-only logs of one slider. */
  datatype SliderState = SliderState(values: seq<ValueEntry>, mouseEvents: seq<MouseEntry>)

  /** One question block: its id, its sliders by index, and the order in
      which the export visits those indices. */
  datatype QuestionState = QuestionState(questionId: string, sliderOrder: seq<string>, sliders: map<string, SliderState>)

  const EmptySlider := SliderState([], [])

  predicate Distinct<T(==)>(s: seq<T>)
  {
    forall j, k :: 0 <= j < k < |s| ==> s[j] != s[k]
  }

  predicate NoAdjacentRepeats(vs: seq<ValueEntry>)
  {
    forall k :: 0 < k < |vs| ==> vs[k - 1].value != vs[k].value
  }

  /** What the recording rules keep true of every slider: no two neighbouring
      value entries are equal, and no value is recorded before a hover. */
  predicate SliderInvariant(s: SliderState)
  {
    NoAdjacentRepeats(s.values) && (s.values != [] ==> s.mouseEvents != [])
  }

  /** The value-change rule: record only after a mouse event has been seen,
      and only a value that differs from the last one recorded. */
  predicate AcceptsValue(s: SliderState, value: int)
  {
    |s.mouseEvents| > 0 && (s.values == [] || s.values[|s.values| - 1].value != value)
  }

  /** A value change observed on the slider. */
  function RecordValue(s: SliderState, timestamp: int, value: int): (r: SliderState)
    ensures r.mouseEvents == s.mouseEvents
    ensures s.mouseEvents == [] ==> r == s
    ensures r != s <==> AcceptsValue(s, value)
    ensures r.values == s.values || r.values == s.values + [ValueEntry(timestamp, value)]
    ensures SliderInvariant(s) ==> SliderInvariant(r)
  {
    if AcceptsValue(s, value) then s.(values := s.values + [ValueEntry(timestamp, value)]) else s
  }

  /** A mouseenter or mouseleave on the slider's container. */
  function RecordMouse(s: SliderState, timestamp: int, kind: HoverKind, value: int): (r: SliderState)
    ensures r.values == s.values
    ensures r.mouseEvents == s.mouseEvents + [MouseEntry(timestamp, kind, value)]
    ensures SliderInvariant(s) ==> SliderInvariant(r)
  {
    s.(mouseEvents := s.mouseEvents + [MouseEntry(timestamp, kind, value)])
  }

  // ---------------------------------------------------------------------
  // A slider's log as a function of the notifications it receives

  datatype SliderNotification =
    | ValueChanged(timestamp: int, value: int)
    | Hovered(timestamp: int, kind: HoverKind, value: int)

  function Apply(s: SliderState, n: SliderNotification): SliderState
  {
    match n
    case ValueChanged(t, v) => RecordValue(s, t, v)
    case Hovered(t, k, v) => RecordMouse(s, t, k, v)
  }

  /** The state of a freshly registered slider after the notifications of `trace`. */
  function Replay(trace: seq<SliderNotification>): SliderState
  {
    if |trace| == 0 then EmptySlider else Apply(Replay(trace[..|trace| - 1]), trace[|trace| - 1])
  }

  predicate HasHover(trace: seq<SliderNotification>)
  {
    exists k :: 0 <= k < |trace| && trace[k].Hovered?
  }

  /** Every hover notification, in order. */
  function HoverEntries(trace: seq<SliderNotification>): seq<MouseEntry>
  {
    if |trace| == 0 then []
    else
      var n := trace[|trace| - 1];
      HoverEntries(trace[..|trace| - 1]) + (if n.Hovered? then [MouseEntry(n.timestamp, n.kind, n.value)] else [])
  }

  /** The value notifications that arrive after the first hover notification. */
  function GatedValues(trace: seq<SliderNotification>): seq<ValueEntry>
  {
    if |trace| == 0 then []
    else
      var init, n := trace[..|trace| - 1], trace[|trace| - 1];
      GatedValues(init) + (if n.ValueChanged? && HasHover(init) then [ValueEntry(n.timestamp, n.value)] else [])
  }

  /** Drops every entry whose value equals that of the entry just before it. */
  function Collapse(vs: seq<ValueEntry>): seq<ValueEntry>
  {
    if |vs| <= 1 then vs
    else Collapse(vs[..|vs| - 1]) + (if vs[|vs| - 1].value != vs[|vs| - 2].value then [vs[|vs| - 1]] else [])
  }

  lemma {:induction false} CollapseLast(vs: seq<ValueEntry>)
    requires |vs| > 0
    ensures |Collapse(vs)| > 0 && Collapse(vs)[|Collapse(vs)| - 1].value == vs[|vs| - 1].value
  {
    if |vs| > 1 {
      CollapseLast(vs[..|vs| - 1]);
    }
  }

  /** Collapsing leaves no two neighbouring entries with equal values. */
  lemma {:induction false} CollapseNoRepeats(vs: seq<ValueEntry>)
    ensures NoAdjacentRepeats(Collapse(vs))
  {
    if |vs| > 1 {
      var init := vs[..|vs| - 1];
      CollapseNoRepeats(init);
      CollapseLast(init);
    }
  }

  /** Collapsing one more entry keeps it exactly when its value differs
      from the last value already kept. */
  lemma CollapseSnoc(vs: seq<ValueEntry>, e: ValueEntry)
    ensures vs == [] ==> Collapse(vs + [e]) == [e]
    ensures vs != [] ==> Collapse(vs + [e]) == Collapse(vs) + (if vs[|vs| - 1].value != e.value then [e] else [])
  {
    var ve := vs + [e];
    if |vs| > 0 {
      assert ve[..|ve| - 1] == vs && ve[|ve| - 1] == e && ve[|ve| - 2] == vs[|vs| - 1];
    } else {
      assert ve == [e];
    }
  }

  lemma {:induction false} ReplayHasHover(trace: seq<SliderNotification>)
    ensures Replay(trace).mouseEvents != [] <==> HasHover(trace)
  {
    if |trace| > 0 {
      var init := trace[..|trace| - 1];
      ReplayHasHover(init);
      if HasHover(init) {
        var k :| 0 <= k < |init| && init[k].Hovered?;
        assert trace[k] == init[k];
      }
      if HasHover(trace) && !trace[|trace| - 1].Hovered? {
        var k :| 0 <= k < |trace| && trace[k].Hovered?;
        assert init[k] == trace[k];
      }
    }
  }

  /** Hover notifications are all recorded, in order. */
  lemma {:induction false} ReplayMouseEvents(trace: seq<SliderNotification>)
    ensures Replay(trace).mouseEvents == HoverEntries(trace)
  {
    if |trace| > 0 {
      ReplayMouseEvents(trace[..|trace| - 1]);
    }
  }

  /** The recorded values are exactly the value notifications that follow
      the first hover, with each repeat of the value just before it dropped. */
  lemma {:induction false} ReplayValues(trace: seq<SliderNotification>)
    ensures Replay(trace).values == Collapse(GatedValues(trace))
  {
    if |trace| > 0 {
      var init, n := trace[..|trace| - 1], trace[|trace| - 1];
      ReplayValues(init);
      ReplayHasHover(init);
      var g := GatedValues(init);
      if n.ValueChanged? && HasHover(init) {
        var e := ValueEntry(n.timestamp, n.value);
        assert GatedValues(trace) == g + [e];
        CollapseSnoc(g, e);
        if g != [] {
          CollapseLast(g);
        }
      } else {
        assert GatedValues(trace) == g;
        assert Replay(trace).values == Replay(init).values;
      }
    }
  }

  /** Whatever the notifications, the slider invariant holds. */
  lemma {:induction false} ReplayInvariant(trace: seq<SliderNotification>)
    ensures SliderInvariant(Replay(trace))
  {
    ReplayValues(trace);
    CollapseNoRepeats(GatedValues(trace));
    if Replay(trace).values != [] {
      ReplayHasHover(trace);
      GatedValuesNeedHover(trace);
    }
  }

  lemma {:induction false} GatedValuesNeedHover(trace: seq<SliderNotification>)
    ensures GatedValues(trace) != [] ==> HasHover(trace)
  {
    if |trace| > 0 {
      var init := trace[..|trace| - 1];
      GatedValuesNeedHover(init);
      if HasHover(init) {
        var k :| 0 <= k < |init| && init[k].Hovered?;
        assert trace[k] == init[k];
      }
    }
  }

  /** With the hover gate, value changes 10, 10, 20 after a mouseenter are
      recorded as 10 and 20 only, at their own timestamps. */
  lemma RepeatedValueScenario()
    ensures Replay([Hovered(1, MouseEnter, 0), ValueChanged(2, 10), ValueChanged(3, 10), ValueChanged(4, 20)]).values
            == [ValueEntry(2, 10), ValueEntry(4, 20)]
  {
    var t1 := [Hovered(1, MouseEnter, 0)];
    var t2 := t1 + [ValueChanged(2, 10)];
    var t3 := t2 + [ValueChanged(3, 10)];
    var t4 := t3 + [ValueChanged(4, 20)];
    assert t1[..0] == [];
    assert Replay(t1) == SliderState([], [MouseEntry(1, MouseEnter, 0)]);
    assert t2[..1] == t1;
    assert Replay(t2).values == [ValueEntry(2, 10)];
    assert t3[..2] == t2;
    assert Replay(t3).values == [ValueEntry(2, 10)];
    assert t4[..3] == t3;
    assert t4 == [Hovered(1, MouseEnter, 0), ValueChanged(2, 10), ValueChanged(3, 10), ValueChanged(4, 20)];
  }

  // ---------------------------------------------------------------------
  // Element ids

  /** `const [questionId, sliderIndex] = id.split("~")` */
  function SliderKey(elementId: string): (string, string)
  {
    var pieces := Split(elementId, '~');
    (pieces[0], Field(pieces, 1))
  }

  /** An id made of a question id, `~`, a slider index and optionally more
      `~`-separated text is read back as that question id and index. */
  lemma SliderKeyOfId(questionId: string, sliderIndex: string, rest: string)
    requires '~' !in questionId && '~' !in sliderIndex
    requires rest == [] || rest[0] == '~'
    ensures SliderKey(questionId + "~" + sliderIndex + rest) == (questionId, sliderIndex)
  {
    assert questionId + "~" + sliderIndex + rest == questionId + ['~'] + (sliderIndex + rest);
    SplitAfterPiece(questionId, sliderIndex + rest, '~');
    if rest == [] {
      assert sliderIndex + rest == sliderIndex;
      SplitNoSep(sliderIndex, '~');
    } else {
      assert sliderIndex + rest == sliderIndex + ['~'] + rest[1..];
      SplitAfterPiece(sliderIndex, rest[1..], '~');
    }
  }

  /** The distinct slider indices of the given slider element ids, in the
      order in which they first occur. */
  function IndexOrder(elementIds: seq<string>): (r: seq<string>)
    ensures Distinct(r)
  {
    if |elementIds| == 0 then []
    else
      var rest := IndexOrder(elementIds[..|elementIds| - 1]);
      var i := SliderKey(elementIds[|elementIds| - 1]).1;
      if i in rest then rest else rest + [i]
  }

  /** Every slider index of the ids is listed, and nothing else is. */
  lemma {:induction false} IndexOrderMembers(elementIds: seq<string>, i: string)
    ensures i in IndexOrder(elementIds) <==> exists k :: 0 <= k < |elementIds| && SliderKey(elementIds[k]).1 == i
  {
    if |elementIds| > 0 {
      var init := elementIds[..|elementIds| - 1];
      IndexOrderMembers(init, i);
      if exists k :: 0 <= k < |init| && SliderKey(init[k]).1 == i {
        var k :| 0 <= k < |init| && SliderKey(init[k]).1 == i;
        assert elementIds[k] == init[k];
      }
      if exists k :: 0 <= k < |elementIds| && SliderKey(elementIds[k]).1 == i {
        var k :| 0 <= k < |elementIds| && SliderKey(elementIds[k]).1 == i;
        if k < |init| {
          assert init[k] == elementIds[k];
        }
      }
    }
  }

  /** How one question block is registered: every slider found in it starts
      with two empty logs. */
  datatype QuestionSetup = QuestionSetup(containerId: string, sliderElementIds: seq<string>)

  function Registered(setup: QuestionSetup): (r: QuestionState)
    ensures r.questionId == setup.containerId
    ensures forall i :: i in r.sliders <==> i in r.sliderOrder
    ensures forall i :: i in r.sliders ==> r.sliders[i] == EmptySlider
  {
    var order := IndexOrder(setup.sliderElementIds);
    QuestionState(setup.containerId, order, map i | i in order :: EmptySlider)
  }

  ghost predicate WellFormedQuestion(q: string, qs: QuestionState)
  {
    && qs.questionId == q
    && Distinct(qs.sliderOrder)
    && (forall i :: i in qs.sliders <==> i in qs.sliderOrder)
    && (forall i :: i in qs.sliders ==> SliderInvariant(qs.sliders[i]))
  }

  lemma RegisteredWellFormed(setup: QuestionSetup)
    ensures WellFormedQuestion(setup.containerId, Registered(setup))
  {
  }

  /** Replaces one slider's state, leaving every other slider as it was. */
  function WithSlider(states: map<string, QuestionState>, q: string, i: string, s: SliderState): (r: map<string, QuestionState>)
    requires q in states && i in states[q].sliders
    ensures r.Keys == states.Keys
    ensures q in r && i in r[q].sliders && r[q].sliders[i] == s
    ensures forall q' :: q' in states ==>
              && r[q'].questionId == states[q'].questionId
              && r[q'].sliderOrder == states[q'].sliderOrder
              && r[q'].sliders.Keys == states[q'].sliders.Keys
    ensures forall q', i' :: q' in states && i' in states[q'].sliders && (q' != q || i' != i) ==>
              r[q'].sliders[i'] == states[q'].sliders[i']
  {
    states[q := states[q].(sliders := states[q].sliders[i := s])]
  }

  ghost predicate AllWellFormed(states: map<string, QuestionState>)
  {
    forall q :: q in states ==> WellFormedQuestion(q, states[q])
  }

  /** Replacing one slider's state by a state that keeps the slider
      invariant keeps every question well formed. */
  lemma WithSliderWellFormed(states: map<string, QuestionState>, q: string, i: string, s: SliderState)
    requires AllWellFormed(states) && q in states && i in states[q].sliders
    requires SliderInvariant(s)
    ensures AllWellFormed(WithSlider(states, q, i, s))
  {
    var r := WithSlider(states, q, i, s);
    forall q' | q' in r ensures WellFormedQuestion(q', r[q']) {
      assert WellFormedQuestion(q', states[q']);
    }
  }

  // ---------------------------------------------------------------------
  // The export

  datatype EventType = ValueChange | Hover(kind: HoverKind)

  /** One row of the export before it is written out. */
  datatype Event = Event(timestamp: int, timeString: string, questionId: string, sliderId: string, eventType: EventType, value: int)

  function Timestamp(e: Event): int
  {
    e.timestamp
  }

  function FromValue(qid: string, sid: string, v: ValueEntry, timeString: int -> string): Event
  {
    Event(v.timestamp, timeString(v.timestamp), qid, sid, ValueChange, v.value)
  }

  function FromMouse(qid: string, sid: string, m: MouseEntry, timeString: int -> string): Event
  {
    Event(m.timestamp, timeString(m.timestamp), qid, sid, Hover(m.kind), m.value)
  }

  function ValueEvents(qid: string, sid: string, vs: seq<ValueEntry>, timeString: int -> string): (r: seq<Event>)
    ensures |r| == |vs|
  {
    if |vs| == 0 then []
    else ValueEvents(qid, sid, vs[..|vs| - 1], timeString) + [FromValue(qid, sid, vs[|vs| - 1], timeString)]
  }

  function MouseEvents(qid: string, sid: string, ms: seq<MouseEntry>, timeString: int -> string): (r: seq<Event>)
    ensures |r| == |ms|
  {
    if |ms| == 0 then []
    else MouseEvents(qid, sid, ms[..|ms| - 1], timeString) + [FromMouse(qid, sid, ms[|ms| - 1], timeString)]
  }

  /** A slider's rows: its value changes, then its mouse events. */
  function SliderEvents(qid: string, sid: string, s: SliderState, timeString: int -> string): seq<Event>
  {
    ValueEvents(qid, sid, s.values, timeString) + MouseEvents(qid, sid, s.mouseEvents, timeString)
  }

  /** A question's rows: its sliders' rows, in slider order. */
  function QuestionEvents(qs: QuestionState, order: seq<string>, timeString: int -> string): seq<Event>
  {
    if |order| == 0 then []
    else
      var sid := order[|order| - 1];
      QuestionEvents(qs, order[..|order| - 1], timeString)
        + (if sid in qs.sliders then SliderEvents(qs.questionId, sid, qs.sliders[sid], timeString) else [])
  }

  /** Every question's rows, in question order: the list the export sorts. */
  function AllEvents(qids: seq<string>, states: map<string, QuestionState>, timeString: int -> string): seq<Event>
  {
    if |qids| == 0 then []
    else
      var q := qids[|qids| - 1];
      AllEvents(qids[..|qids| - 1], states, timeString)
        + (if q in states then QuestionEvents(states[q], states[q].sliderOrder, timeString) else [])
  }

  function QuestionCount(qs: QuestionState, order: seq<string>): nat
  {
    if |order| == 0 then 0
    else
      var sid := order[|order| - 1];
      QuestionCount(qs, order[..|order| - 1])
        + (if sid in qs.sliders then |qs.sliders[sid].values| + |qs.sliders[sid].mouseEvents| else 0)
  }

  /** How many values and mouse events are recorded across all sliders. */
  function EventCount(qids: seq<string>, states: map<string, QuestionState>): nat
  {
    if |qids| == 0 then 0
    else
      var q := qids[|qids| - 1];
      EventCount(qids[..|qids| - 1], states) + (if q in states then QuestionCount(states[q], states[q].sliderOrder) else 0)
  }

  lemma {:induction false} QuestionEventsCount(qs: QuestionState, order: seq<string>, timeString: int -> string)
    ensures |QuestionEvents(qs, order, timeString)| == QuestionCount(qs, order)
  {
    if |order| > 0 {
      QuestionEventsCount(qs, order[..|order| - 1], timeString);
    }
  }

  /** One flattened row per recorded value or mouse event. */
  lemma {:induction false} AllEventsCount(qids: seq<string>, states: map<string, QuestionState>, timeString: int -> string)
    ensures |AllEvents(qids, states, timeString)| == EventCount(qids, states)
  {
    if |qids| > 0 {
      AllEventsCount(qids[..|qids| - 1], states, timeString);
      var q := qids[|qids| - 1];
      if q in states {
        QuestionEventsCount(states[q], states[q].sliderOrder, timeString);
      }
    }
  }

  /** The data rows in the order the export writes them. */
  function ExportEvents(qids: seq<string>, states: map<string, QuestionState>, timeString: int -> string): seq<Event>
  {
    StableSort(AllEvents(qids, states, timeString), Timestamp)
  }

  /** The rows of the export are sorted by timestamp, keep the flattened
      order among equal timestamps, and are a rearrangement of the
      flattened rows. */
  lemma ExportOrder(qids: seq<string>, states: map<string, QuestionState>, timeString: int -> string)
    ensures SortedBy(ExportEvents(qids, states, timeString), Timestamp)
    ensures SameTies(AllEvents(qids, states, timeString), ExportEvents(qids, states, timeString), Timestamp)
    ensures multiset(ExportEvents(qids, states, timeString)) == multiset(AllEvents(qids, states, timeString))
  {
    var all := AllEvents(qids, states, timeString);
    StableSortSorted(all, Timestamp);
    StableSortTies(all, Timestamp);
    StableSortPermutation(all, Timestamp);
  }

  /** Whether `e` is a value row of slider `sid` of question `qid`. */
  predicate IsValueRow(qid: string, sid: string, e: Event)
  {
    e.eventType == ValueChange && e.questionId == qid && e.sliderId == sid
  }

  function ValueRowTest(qid: string, sid: string): Event -> bool
  {
    e => IsValueRow(qid, sid, e)
  }

  /** The value entries were recorded with timestamps that never decrease. */
  predicate InTimeOrder(vs: seq<ValueEntry>)
  {
    forall i, j :: 0 <= i < j < |vs| ==> vs[i].timestamp <= vs[j].timestamp
  }

  lemma {:induction false} ValueEventsAt(qid: string, sid: string, vs: seq<ValueEntry>, timeString: int -> string, k: nat)
    requires k < |vs|
    ensures ValueEvents(qid, sid, vs, timeString)[k] == FromValue(qid, sid, vs[k], timeString)
  {
    if k < |vs| - 1 {
      ValueEventsAt(qid, sid, vs[..|vs| - 1], timeString, k);
    }
  }

  lemma {:induction false} FilterValueEvents(q: string, i: string, vs: seq<ValueEntry>, timeString: int -> string, qid: string, sid: string)
    ensures Filter(ValueEvents(q, i, vs, timeString), ValueRowTest(qid, sid))
            == (if q == qid && i == sid then ValueEvents(q, i, vs, timeString) else [])
  {
    if |vs| > 0 {
      var init := vs[..|vs| - 1];
      var es := ValueEvents(q, i, vs, timeString);
      FilterValueEvents(q, i, init, timeString, qid, sid);
      assert es[..|es| - 1] == ValueEvents(q, i, init, timeString);
    }
  }

  lemma {:induction false} FilterMouseEvents(q: string, i: string, ms: seq<MouseEntry>, timeString: int -> string, qid: string, sid: string)
    ensures Filter(MouseEvents(q, i, ms, timeString), ValueRowTest(qid, sid)) == []
  {
    if |ms| > 0 {
      var es := MouseEvents(q, i, ms, timeString);
      FilterMouseEvents(q, i, ms[..|ms| - 1], timeString, qid, sid);
      assert es[..|es| - 1] == MouseEvents(q, i, ms[..|ms| - 1], timeString);
    }
  }

  lemma FilterSliderEvents(q: string, i: string, st: SliderState, timeString: int -> string, qid: string, sid: string)
    ensures Filter(SliderEvents(q, i, st, timeString), ValueRowTest(qid, sid))
            == (if q == qid && i == sid then ValueEvents(q, i, st.values, timeString) else [])
  {
    var p := ValueRowTest(qid, sid);
    var vs, ms := ValueEvents(q, i, st.values, timeString), MouseEvents(q, i, st.mouseEvents, timeString);
    FilterAppend(vs, ms, p);
    FilterValueEvents(q, i, st.values, timeString, qid, sid);
    FilterMouseEvents(q, i, st.mouseEvents, timeString, qid, sid);
    assert Filter(vs, p) + [] == Filter(vs, p);
  }

  /** The value rows of one slider within a question's rows. */
  lemma {:induction false} FilterQuestionEvents(qs: QuestionState, order: seq<string>, timeString: int -> string, sid: string)
    requires Distinct(order)
    ensures Filter(QuestionEvents(qs, order, timeString), ValueRowTest(qs.questionId, sid))
            == (if sid in order && sid in qs.sliders then ValueEvents(qs.questionId, sid, qs.sliders[sid].values, timeString) else [])
  {
    if |order| > 0 {
      var init, i := order[..|order| - 1], order[|order| - 1];
      var p := ValueRowTest(qs.questionId, sid);
      assert Distinct(init);
      FilterQuestionEvents(qs, init, timeString, sid);
      var last := if i in qs.sliders then SliderEvents(qs.questionId, i, qs.sliders[i], timeString) else [];
      FilterAppend(QuestionEvents(qs, init, timeString), last, p);
      var found := if i == sid && i in qs.sliders then ValueEvents(qs.questionId, sid, qs.sliders[sid].values, timeString) else [];
      if i in qs.sliders {
        FilterSliderEvents(qs.questionId, i, qs.sliders[i], timeString, qs.questionId, sid);
      }
      assert Filter(last, p) == found;
      assert order == init + [i];
      if i == sid {
        assert sid !in init;
        assert [] + found == found;
      } else {
        assert (sid in order) == (sid in init);
      }
    }
  }

  /** The value rows of one slider among all flattened rows: exactly its
      value log, in log order, and nothing when the slider is unknown. */
  lemma {:induction false} FilterAllEvents(qids: seq<string>, states: map<string, QuestionState>, timeString: int -> string, q: string, sid: string)
    requires Distinct(qids) && AllWellFormed(states)
    ensures Filter(AllEvents(qids, states, timeString), ValueRowTest(q, sid))
            == (if q in qids && q in states && sid in states[q].sliders then ValueEvents(q, sid, states[q].sliders[sid].values, timeString) else [])
  {
    if |qids| > 0 {
      var init, q' := qids[..|qids| - 1], qids[|qids| - 1];
      var p := ValueRowTest(q, sid);
      assert Distinct(init);
      FilterAllEvents(init, states, timeString, q, sid);
      var last := if q' in states then QuestionEvents(states[q'], states[q'].sliderOrder, timeString) else [];
      FilterAppend(AllEvents(init, states, timeString), last, p);
      if q' in states {
        FilterQuestionRows(states[q'], q', timeString, q, sid);
      }
      assert qids == init + [q'];
      if q' == q {
        assert q !in init;
      }
    }
  }

  lemma FilterQuestionRows(qs: QuestionState, q': string, timeString: int -> string, q: string, sid: string)
    requires WellFormedQuestion(q', qs)
    ensures Filter(QuestionEvents(qs, qs.sliderOrder, timeString), ValueRowTest(q, sid))
            == (if q' == q && sid in qs.sliders then ValueEvents(q, sid, qs.sliders[sid].values, timeString) else [])
  {
    if q' == q {
      FilterQuestionEvents(qs, qs.sliderOrder, timeString, sid);
    } else {
      FilterOtherQuestion(qs, qs.sliderOrder, timeString, q, sid);
    }
  }

  /** A question's rows hold no value row of another question. */
  lemma {:induction false} FilterOtherQuestion(qs: QuestionState, order: seq<string>, timeString: int -> string, q: string, sid: string)
    requires qs.questionId != q
    ensures Filter(QuestionEvents(qs, order, timeString), ValueRowTest(q, sid)) == []
  {
    if |order| > 0 {
      var init, i := order[..|order| - 1], order[|order| - 1];
      FilterOtherQuestion(qs, init, timeString, q, sid);
      var last := if i in qs.sliders then SliderEvents(qs.questionId, i, qs.sliders[i], timeString) else [];
      FilterAppend(QuestionEvents(qs, init, timeString), last, ValueRowTest(q, sid));
      if i in qs.sliders {
        FilterSliderEvents(qs.questionId, i, qs.sliders[i], timeString, q, sid);
      }
    }
  }

  lemma ValueEventsSorted(qid: string, sid: string, vs: seq<ValueEntry>, timeString: int -> string)
    requires InTimeOrder(vs)
    ensures SortedBy(ValueEvents(qid, sid, vs, timeString), Timestamp)
  {
    var es := ValueEvents(qid, sid, vs, timeString);
    forall i, j | 0 <= i < j < |es| ensures Timestamp(es[i]) <= Timestamp(es[j]) {
      ValueEventsAt(qid, sid, vs, timeString, i);
      ValueEventsAt(qid, sid, vs, timeString, j);
    }
  }

  /** A slider's value rows in the export are exactly its value log, in log
      order, so no two of them next to each other hold the same value --
      provided the log's timestamps never decrease. */
  lemma ExportValueRows(qids: seq<string>, states: map<string, QuestionState>, timeString: int -> string, q: string, sid: string)
    requires Distinct(qids) && AllWellFormed(states)
    requires q in qids && q in states && sid in states[q].sliders
    requires InTimeOrder(states[q].sliders[sid].values)
    ensures Filter(ExportEvents(qids, states, timeString), ValueRowTest(q, sid)) == ValueEvents(q, sid, states[q].sliders[sid].values, timeString)
    ensures var rows := Filter(ExportEvents(qids, states, timeString), ValueRowTest(q, sid));
            forall k :: 0 < k < |rows| ==> rows[k - 1].value != rows[k].value
  {
    var vs := states[q].sliders[sid].values;
    var all := AllEvents(qids, states, timeString);
    FilterAllEvents(qids, states, timeString, q, sid);
    ValueEventsSorted(q, sid, vs, timeString);
    FilterStableSort(all, ValueRowTest(q, sid), Timestamp);
    assert WellFormedQuestion(q, states[q]);
    ValueEventsNoRepeats(q, sid, vs, timeString);
  }

  /** `Date.now()` is wall-clock time and can step back. Then the value log
      10, 20, 10, which has no repeats, is exported as 20, 10, 10: the sort
      puts two equal values of one slider next to each other. */
  lemma ClockStepBackScenario(timeString: int -> string)
    ensures var st := Replay([Hovered(1, MouseEnter, 0), ValueChanged(5, 10), ValueChanged(3, 20), ValueChanged(7, 10)]);
            && st.values == [ValueEntry(5, 10), ValueEntry(3, 20), ValueEntry(7, 10)]
            && NoAdjacentRepeats(st.values)
            && var rows := Filter(ExportEvents(["Q"], map["Q" := QuestionState("Q", ["0"], map["0" := st])], timeString), ValueRowTest("Q", "0"));
               |rows| == 3 && rows[1].value == 10 && rows[2].value == 10
  {
    StepBackReplay();
    StepBackExport(timeString);
  }

  lemma ReplaySnoc(trace: seq<SliderNotification>, n: SliderNotification)
    ensures Replay(trace + [n]) == Apply(Replay(trace), n)
  {
    assert (trace + [n])[..|trace|] == trace;
  }

  lemma StepBackReplay()
    ensures Replay([Hovered(1, MouseEnter, 0), ValueChanged(5, 10), ValueChanged(3, 20), ValueChanged(7, 10)])
            == SliderState([ValueEntry(5, 10), ValueEntry(3, 20), ValueEntry(7, 10)], [MouseEntry(1, MouseEnter, 0)])
  {
    var m := [MouseEntry(1, MouseEnter, 0)];
    var t1 := [Hovered(1, MouseEnter, 0)];
    ReplaySnoc([], t1[0]);
    assert [] + t1 == t1;
    ReplaySnoc(t1, ValueChanged(5, 10));
    var t2 := t1 + [ValueChanged(5, 10)];
    ReplaySnoc(t2, ValueChanged(3, 20));
    var t3 := t2 + [ValueChanged(3, 20)];
    ReplaySnoc(t3, ValueChanged(7, 10));
    assert Replay(t1) == SliderState([], m);
    assert Replay(t2) == SliderState([ValueEntry(5, 10)], m);
    assert Replay(t3) == SliderState([ValueEntry(5, 10), ValueEntry(3, 20)], m);
    assert t3 + [ValueChanged(7, 10)] == [Hovered(1, MouseEnter, 0), ValueChanged(5, 10), ValueChanged(3, 20), ValueChanged(7, 10)];
  }

  lemma StepBackExport(timeString: int -> string)
    ensures var st := SliderState([ValueEntry(5, 10), ValueEntry(3, 20), ValueEntry(7, 10)], [MouseEntry(1, MouseEnter, 0)]);
            var rows := Filter(ExportEvents(["Q"], map["Q" := QuestionState("Q", ["0"], map["0" := st])], timeString), ValueRowTest("Q", "0"));
            |rows| == 3 && rows[1].value == 10 && rows[2].value == 10
  {
    var vs := [ValueEntry(5, 10), ValueEntry(3, 20), ValueEntry(7, 10)];
    var st := SliderState(vs, [MouseEntry(1, MouseEnter, 0)]);
    var states := map["Q" := QuestionState("Q", ["0"], map["0" := st])];
    assert WellFormedQuestion("Q", states["Q"]);
    FilterAllEvents(["Q"], states, timeString, "Q", "0");
    FilterStableSortCommute(AllEvents(["Q"], states, timeString), ValueRowTest("Q", "0"), Timestamp);
    StepBackSort(vs, timeString);
  }

  lemma StepBackSort(vs: seq<ValueEntry>, timeString: int -> string)
    requires vs == [ValueEntry(5, 10), ValueEntry(3, 20), ValueEntry(7, 10)]
    ensures var rows := StableSort(ValueEvents("Q", "0", vs, timeString), Timestamp);
            |rows| == 3 && rows[1].value == 10 && rows[2].value == 10
  {
    var e5, e3, e7 := FromValue("Q", "0", vs[0], timeString), FromValue("Q", "0", vs[1], timeString), FromValue("Q", "0", vs[2], timeString);
    ValueEventsAt("Q", "0", vs, timeString, 0);
    ValueEventsAt("Q", "0", vs, timeString, 1);
    ValueEventsAt("Q", "0", vs, timeString, 2);
    assert ValueEvents("Q", "0", vs, timeString) == [e5, e3, e7];
    assert [e5, e3][..1] == [e5] && [e5, e3, e7][..2] == [e5, e3];
    assert InsertLast([e5], e3, Timestamp) == [e3, e5];
    assert StableSort([e5, e3], Timestamp) == [e3, e5];
  }

  lemma ValueEventsNoRepeats(qid: string, sid: string, vs: seq<ValueEntry>, timeString: int -> string)
    requires NoAdjacentRepeats(vs)
    ensures var rows := ValueEvents(qid, sid, vs, timeString);
            forall k :: 0 < k < |rows| ==> rows[k - 1].value != rows[k].value
  {
    var rows := ValueEvents(qid, sid, vs, timeString);
    forall k | 0 < k < |rows| ensures rows[k - 1].value != rows[k].value {
      ValueEventsAt(qid, sid, vs, timeString, k - 1);
      ValueEventsAt(qid, sid, vs, timeString, k);
    }
  }

  const SliderHeader: seq<string> := ["timestamp", "time string", "questionId", "sliderId", "eventType", "value"]

  function TypeName(t: EventType): string
  {
    match t
    case ValueChange => "value"
    case Hover(MouseEnter) => "mouseenter"
    case Hover(MouseLeave) => "mouseleave"
  }

  function EventCells(e: Event): seq<string>
  {
    [IntToString(e.timestamp), e.timeString, e.questionId, e.sliderId, TypeName(e.eventType), IntToString(e.value)]
  }

  /** The CSV text the Next button exports. */
  function ExportText(qids: seq<string>, states: map<string, QuestionState>, timeString: int -> string): string
  {
    Serialize([SliderHeader] + RowsOf(ExportEvents(qids, states, timeString), EventCells))
  }

  /** `idNumber + "_" + questionIds.join("_") + "_" + "interactions.csv"` */
  function SliderFileName(participantId: Option<string>, qids: seq<string>): string
  {
    StringOrNull(participantId) + "_" + JoinWith(qids, '_') + "_" + "interactions.csv"
  }

  /** The file name is the participant id, the question ids and
      "interactions.csv" joined by '_', so ids without '_' can be read back
      from it. */
  lemma SliderFileNameParts(participantId: Option<string>, qids: seq<string>)
    requires |qids| > 0
    requires '_' !in StringOrNull(participantId)
    requires forall k :: 0 <= k < |qids| ==> '_' !in qids[k]
    ensures Split(SliderFileName(participantId, qids), '_') == [StringOrNull(participantId)] + qids + ["interactions.csv"]
  {
    var p := StringOrNull(participantId);
    var parts := [p] + qids + ["interactions.csv"];
    JoinWithCons(p, qids, '_');
    JoinWithSnoc([p] + qids, "interactions.csv", '_');
    assert JoinWith(parts, '_') == SliderFileName(participantId, qids);
    SplitJoin(parts, '_');
  }

  /** Without a stored participant id the file name starts with "null". */
  lemma SliderFileNameNull(qids: seq<string>)
    ensures SliderFileName(None, qids) == "null_" + JoinWith(qids, '_') + "_interactions.csv"
  {
  }

  /** The cells of an event that are not numbers or type names can be read
      back from the CSV text. */
  predicate PlainEvent(e: Event)
  {
    PlainCell(e.timeString) && PlainCell(e.questionId) && PlainCell(e.sliderId)
  }

  function DecodeEventType(s: string): Option<EventType>
  {
    if s == "value" then Some(ValueChange)
    else if s == "mouseenter" then Some(Hover(MouseEnter))
    else if s == "mouseleave" then Some(Hover(MouseLeave))
    else None
  }

  function DecodeEvent(cells: seq<string>): Option<Event>
  {
    if |cells| != 6 then None
    else match DecodeEventType(cells[4])
      case None => None
      case Some(t) => Some(Event(ParseInt(cells[0]), cells[1], cells[2], cells[3], t, ParseInt(cells[5])))
  }

  /** Reads an export back: the header, then one event per row. */
  function DecodeExport(rows: seq<seq<string>>): Option<seq<Event>>
  {
    if |rows| == 0 || rows[0] != SliderHeader then None else DecodeRows(rows[1..], DecodeEvent)
  }

  lemma DecodeEventCells(e: Event)
    ensures DecodeEvent(EventCells(e)) == Some(e)
  {
    ParseIntToString(e.timestamp);
    ParseIntToString(e.value);
  }

  lemma IntCellPlain(i: int)
    ensures PlainCell(IntToString(i))
  {
    var s := IntToString(i);
    IntToStringChars(i);
    assert forall k :: 0 <= k < |s| ==> s[k] != ',' && s[k] != '\n';
  }

  lemma EventCellsPlain(e: Event)
    requires PlainEvent(e)
    ensures PlainRow(EventCells(e))
  {
    IntCellPlain(e.timestamp);
    IntCellPlain(e.value);
  }

  lemma ExportEventsPlain(qids: seq<string>, states: map<string, QuestionState>, timeString: int -> string)
    requires forall e :: e in AllEvents(qids, states, timeString) ==> PlainEvent(e)
    ensures forall e :: e in ExportEvents(qids, states, timeString) ==> PlainEvent(e)
  {
    ExportEventsFrom(qids, states, timeString);
  }

  lemma HeaderPlain()
    ensures PlainRow(SliderHeader)
  {
  }

  lemma ExportRowsPlain(events: seq<Event>)
    requires forall e :: e in events ==> PlainEvent(e)
    ensures forall r :: 0 <= r < |[SliderHeader] + RowsOf(events, EventCells)| ==> PlainRow(([SliderHeader] + RowsOf(events, EventCells))[r])
  {
    var rows := [SliderHeader] + RowsOf(events, EventCells);
    forall r | 0 <= r < |rows| ensures PlainRow(rows[r]) {
      if r == 0 {
        HeaderPlain();
      } else {
        RowsOfAt(events, EventCells, r - 1);
        assert events[r - 1] in events;
        EventCellsPlain(events[r - 1]);
      }
    }
  }

  /** Reading the exported text back gives the header and then exactly the
      sorted events, every field intact. */
  lemma ExportRoundTrip(qids: seq<string>, states: map<string, QuestionState>, timeString: int -> string)
    requires forall e :: e in AllEvents(qids, states, timeString) ==> PlainEvent(e)
    ensures DecodeExport(ParseCsv(ExportText(qids, states, timeString))) == Some(ExportEvents(qids, states, timeString))
  {
    var events := ExportEvents(qids, states, timeString);
    var rows := [SliderHeader] + RowsOf(events, EventCells);
    ExportEventsPlain(qids, states, timeString);
    ExportRowsPlain(events);
    ParseSerialize(rows);
    var data := RowsOf(events, EventCells);
    assert rows[1..] == data;
    forall k | 0 <= k < |data| ensures DecodeEvent(data[k]) == Some(events[k]) {
      RowsOfAt(events, EventCells, k);
      DecodeEventCells(events[k]);
    }
    DecodeRowsOf(data, events, DecodeEvent);
  }

  /** The text cells of an event hold no line break. */
  predicate OneLineEvent(e: Event)
  {
    '\n' !in e.timeString && '\n' !in e.questionId && '\n' !in e.sliderId
  }

  lemma EventCellsOneLine(e: Event)
    requires OneLineEvent(e)
    ensures OneLineRow(EventCells(e))
  {
    IntCellPlain(e.timestamp);
    IntCellPlain(e.value);
    assert '\n' !in TypeName(e.eventType) by {
      match e.eventType
      case ValueChange =>
      case Hover(MouseEnter) =>
      case Hover(MouseLeave) =>
    }
  }

  /** The sorted events are among the flattened ones. */
  lemma ExportEventsFrom(qids: seq<string>, states: map<string, QuestionState>, timeString: int -> string)
    ensures forall e :: e in ExportEvents(qids, states, timeString) ==> e in AllEvents(qids, states, timeString)
  {
    var all := AllEvents(qids, states, timeString);
    StableSortPermutation(all, Timestamp);
    forall e | e in ExportEvents(qids, states, timeString) ensures e in all {
      assert e in multiset(ExportEvents(qids, states, timeString));
    }
  }

  /** Events without line breaks in their text cells give one line per row. */
  lemma ExportLinesOf(events: seq<Event>)
    requires forall e :: e in events ==> OneLineEvent(e)
    ensures |Split(Serialize([SliderHeader] + RowsOf(events, EventCells)), '\n')| == |events| + 1
    ensures Split(Serialize([SliderHeader] + RowsOf(events, EventCells)), '\n')[0] == FormatRow(SliderHeader)
    ensures forall k :: 0 <= k < |events| ==>
              Split(Serialize([SliderHeader] + RowsOf(events, EventCells)), '\n')[k + 1] == FormatRow(EventCells(events[k]))
  {
    forall k | 0 <= k < |events| ensures OneLineRow(EventCells(events[k])) {
      assert events[k] in events;
      EventCellsOneLine(events[k]);
    }
    HeaderRowsLines(SliderHeader, events, EventCells);
  }

  /** The export has one line per recorded value or mouse event plus the
      header line; the first line is the formatted header and line `k + 1`
      is the formatted row of the `k`-th event in timestamp order. */
  lemma ExportLines(qids: seq<string>, states: map<string, QuestionState>, timeString: int -> string)
    requires forall e :: e in AllEvents(qids, states, timeString) ==> OneLineEvent(e)
    ensures |Split(ExportText(qids, states, timeString), '\n')| == |ExportEvents(qids, states, timeString)| + 1
    ensures |Split(ExportText(qids, states, timeString), '\n')| == EventCount(qids, states) + 1
    ensures Split(ExportText(qids, states, timeString), '\n')[0] == FormatRow(SliderHeader)
    ensures forall k :: 0 <= k < |ExportEvents(qids, states, timeString)| ==>
              Split(ExportText(qids, states, timeString), '\n')[k + 1] == FormatRow(EventCells(ExportEvents(qids, states, timeString)[k]))
  {
    var events := ExportEvents(qids, states, timeString);
    ExportEventsFrom(qids, states, timeString);
    ExportLinesOf(events);
    AllEventsCount(qids, states, timeString);
  }

  // ---------------------------------------------------------------------
  // The recorder

  /** The page's recorder: the map from question id to question state that
      the handlers write and the Next button reads. `questionIds` is the
      map's insertion order. */
  class Recorder {
    const questionIds: seq<string>
    var questionStates: map<string, QuestionState>

    ghost predicate Valid()
      reads this
    {
      && Distinct(questionIds)
      && (forall q :: q in questionStates <==> q in questionIds)
      && AllWellFormed(questionStates)
    }

    ghost predicate IsRegistered(q: string, i: string)
      reads this
    {
      q in questionStates && i in questionStates[q].sliders
    }

    /** Registers every question block that holds sliders, and every slider
      in it, with empty logs. */
    constructor (setup: seq<QuestionSetup>)
      requires forall j, k :: 0 <= j < k < |setup| ==> setup[j].containerId != setup[k].containerId
      ensures Valid()
      ensures |questionIds| == |setup|
      ensures forall k :: 0 <= k < |setup| ==> questionIds[k] == setup[k].containerId
      ensures forall k :: 0 <= k < |setup| ==> questionStates[setup[k].containerId] == Registered(setup[k])
    {
      var ids: seq<string> := [];
      var states: map<string, QuestionState> := map[];
      for n := 0 to |setup|
        invariant |ids| == n
        invariant forall k :: 0 <= k < n ==> ids[k] == setup[k].containerId
        invariant forall q :: q in states <==> q in ids
        invariant forall k :: 0 <= k < n ==> states[setup[k].containerId] == Registered(setup[k])
      {
        var qs := RegisterQuestion(setup[n]);
        ids := ids + [setup[n].containerId];
        states := states[setup[n].containerId := qs];
      }
      questionIds := ids;
      questionStates := states;
      forall q | q in states ensures WellFormedQuestion(q, states[q]) {
        var k :| 0 <= k < |ids| && ids[k] == q;
        RegisteredWellFormed(setup[k]);
      }
    }

    /** The value-change observer: the element id names the question and
      the slider, and the slider must have been registered. */
    method OnSliderMutation(elementId: string, value: int, timestamp: int)
      requires Valid()
      requires IsRegistered(SliderKey(elementId).0, SliderKey(elementId).1)
      modifies this
      ensures Valid()
      ensures questionStates == WithSlider(old(questionStates), SliderKey(elementId).0, SliderKey(elementId).1,
        RecordValue(old(questionStates)[SliderKey(elementId).0].sliders[SliderKey(elementId).1], timestamp, value))
    {
      var key := SliderKey(elementId);
      var q, i := key.0, key.1;
      var s := questionStates[q].sliders[i];
      if |s.mouseEvents| > 0 && (s.values == [] || s.values[|s.values| - 1].value != value) {
        s := s.(values := s.values + [ValueEntry(timestamp, value)]);
      }
      assert s == RecordValue(questionStates[q].sliders[i], timestamp, value);
      assert SliderInvariant(questionStates[q].sliders[i]);
      WithSliderWellFormed(questionStates, q, i, s);
      questionStates := questionStates[q := questionStates[q].(sliders := questionStates[q].sliders[i := s])];
    }

    /** The mouseenter and mouseleave listeners of one slider container;
      `value` is the slider's value at the time of the event. */
    method OnHover(questionId: string, sliderIndex: string, kind: HoverKind, value: int, timestamp: int)
      requires Valid()
      requires IsRegistered(questionId, sliderIndex)
      modifies this
      ensures Valid()
      ensures questionStates == WithSlider(old(questionStates), questionId, sliderIndex,
        RecordMouse(old(questionStates)[questionId].sliders[sliderIndex], timestamp, kind, value))
    {
      var s := questionStates[questionId].sliders[sliderIndex];
      s := s.(mouseEvents := s.mouseEvents + [MouseEntry(timestamp, kind, value)]);
      assert SliderInvariant(questionStates[questionId].sliders[sliderIndex]);
      assert SliderInvariant(s);
      WithSliderWellFormed(questionStates, questionId, sliderIndex, s);
      questionStates := questionStates[questionId := questionStates[questionId].(sliders := questionStates[questionId].sliders[sliderIndex := s])];
    }

    /** The Next button: without slider questions there is nothing to
      export; otherwise the sorted CSV and its file name. */
    method OnNextClick(participantId: Option<string>, timeString: int -> string) returns (d: Option<Download>)
      requires Valid()
      ensures d.None? <==> questionIds == []
      ensures d.Some? ==> d.value == Download(SliderFileName(participantId, questionIds), ExportText(questionIds, questionStates, timeString))
    {
      if |questionIds| == 0 {
        return None;
      }
      var all := CollectEvents(questionIds, questionStates, timeString);
      var a := new Event[|all|](k requires 0 <= k < |all| => all[k]);
      assert a[..] == all;
      SortInPlace(a, Timestamp);
      var rows := CsvRows(a);
      d := Some(Download(SliderFileName(participantId, questionIds), Serialize(rows)));
    }
  }

  /** The CSV rows of the sorted events: the header, then one row per event. */
  method CsvRows(a: array<Event>) returns (rows: seq<seq<string>>)
    ensures rows == [SliderHeader] + RowsOf(a[..], EventCells)
  {
    rows := [SliderHeader];
    for k := 0 to a.Length
      invariant rows == [SliderHeader] + RowsOf(a[..k], EventCells)
    {
      assert a[..k + 1][..k] == a[..k];
      rows := rows + [EventCells(a[k])];
    }
    assert a[..a.Length] == a[..];
  }

  /** The inner registration loop: one empty state per slider index. */
  method RegisterQuestion(setup: QuestionSetup) returns (qs: QuestionState)
    ensures qs == Registered(setup)
  {
    var order: seq<string> := [];
    var sliders: map<string, SliderState> := map[];
    var ids := setup.sliderElementIds;
    for n := 0 to |ids|
      invariant order == IndexOrder(ids[..n])
      invariant sliders == map i | i in order :: EmptySlider
    {
      var i := SliderKey(ids[n]).1;
      assert ids[..n + 1][..n] == ids[..n];
      if i !in sliders {
        order := order + [i];
      }
      sliders := sliders[i := EmptySlider];
    }
    assert ids[..|ids|] == ids;
    qs := QuestionState(setup.containerId, order, sliders);
  }

  /** Every listed question's sliders are registered. */
  ghost predicate Covers(qids: seq<string>, states: map<string, QuestionState>)
  {
    forall q :: q in qids ==> q in states && forall i :: i in states[q].sliderOrder ==> i in states[q].sliders
  }

  /** `questionStates.forEach(...)`: flattens every slider's logs, question
      by question. */
  method CollectEvents(qids: seq<string>, states: map<string, QuestionState>, timeString: int -> string) returns (all: seq<Event>)
    requires Covers(qids, states)
    ensures all == AllEvents(qids, states, timeString)
  {
    all := [];
    for n := 0 to |qids|
      invariant all == AllEvents(qids[..n], states, timeString)
    {
      var q := qids[n];
      all := CollectQuestion(all, states[q], timeString);
      assert qids[..n + 1][..n] == qids[..n];
    }
    assert qids[..|qids|] == qids;
  }

  lemma QuestionEventsStep(qs: QuestionState, order: seq<string>, m: nat, timeString: int -> string)
    requires m < |order| && order[m] in qs.sliders
    ensures QuestionEvents(qs, order[..m + 1], timeString)
            == QuestionEvents(qs, order[..m], timeString) + SliderEvents(qs.questionId, order[m], qs.sliders[order[m]], timeString)
  {
    assert order[..m + 1][..m] == order[..m];
  }

  /** `Object.entries(questionState.sliders).forEach(...)`: flattens one
      question's sliders in slider order. */
  method CollectQuestion(acc: seq<Event>, qs: QuestionState, timeString: int -> string) returns (r: seq<Event>)
    requires forall i :: i in qs.sliderOrder ==> i in qs.sliders
    ensures r == acc + QuestionEvents(qs, qs.sliderOrder, timeString)
  {
    var order := qs.sliderOrder;
    r := acc;
    for m := 0 to |order|
      invariant r == acc + QuestionEvents(qs, order[..m], timeString)
    {
      var sid := order[m];
      ghost var done := QuestionEvents(qs, order[..m], timeString);
      r := AppendSliderEvents(r, qs.questionId, sid, qs.sliders[sid], timeString);
      QuestionEventsStep(qs, order, m, timeString);
      assert r == acc + (done + SliderEvents(qs.questionId, sid, qs.sliders[sid], timeString));
    }
    assert order[..|order|] == order;
  }

  /** Pushes a slider's value changes, then its mouse events. */
  method AppendSliderEvents(acc: seq<Event>, qid: string, sid: string, s: SliderState, timeString: int -> string)
    returns (r: seq<Event>)
    ensures r == acc + SliderEvents(qid, sid, s, timeString)
  {
    r := acc;
    for k := 0 to |s.values|
      invariant r == acc + ValueEvents(qid, sid, s.values[..k], timeString)
    {
      assert s.values[..k + 1][..k] == s.values[..k];
      r := r + [FromValue(qid, sid, s.values[k], timeString)];
    }
    assert s.values[..|s.values|] == s.values;
    for k := 0 to |s.mouseEvents|
      invariant r == acc + ValueEvents(qid, sid, s.values, timeString) + MouseEvents(qid, sid, s.mouseEvents[..k], timeString)
    {
      assert s.mouseEvents[..k + 1][..k] == s.mouseEvents[..k];
      r := r + [FromMouse(qid, sid, s.mouseEvents[k], timeString)];
    }
    assert s.mouseEvents[..|s.mouseEvents|] == s.mouseEvents;
  }
}
