/** Marked historical spans of a status page, and the page with them cut out. */
module SpanFinder {
  import opened Options

  datatype Attribute = Attribute(name: string, value: Option<string>)

  /** What the HTML tokeniser reports, with flat offsets into the document. */
  datatype Event =
    | StartTag(tag: string, attributes: seq<Attribute>, offset: nat)
    | StartEndTag(tag: string, attributes: seq<Attribute>, offset: nat)
    | EndTag(tag: string, offset: nat)

  const MARKER := "data-build-history"

  /** A bare marker attribute, or one with an empty value. */
  predicate IsMarked(attributes: seq<Attribute>) {
    exists attribute :: attribute in attributes && attribute.name == MARKER &&
      (attribute.value == None || attribute.value == Some(""))
  }

  datatype OpenSpan = OpenSpan(start: Option<nat>, spoiled: bool)

  datatype Interval = Interval(start: nat, end: nat)

  // ---------------------------------------------------------------- which spans count

  /** The events of `span` tags, in order. */
  function SpanEvents(events: seq<Event>): seq<Event> {
    if events == [] then []
    else SpanEvents(events[..|events| - 1]) + (if events[|events| - 1].tag == "span" then [events[|events| - 1]]
        else [])
  }

  predicate Closes(a: Event, b: Event) {
    a.StartTag? && IsMarked(a.attributes) && b.EndTag?
  }

  /** The marked start tags whose very next span event is an end tag, each with that end. */
  function MarkedSpans(spanEvents: seq<Event>): seq<Interval> {
    if |spanEvents| < 2 then []
    else
      var n := |spanEvents|;
      MarkedSpans(spanEvents[..n - 1]) +
        (if Closes(spanEvents[n - 2], spanEvents[n - 1])
         then [Interval(spanEvents[n - 2].offset, spanEvents[n - 1].offset)] else [])
  }

  /** What the stack says once the given span events have been handled. */
  ghost predicate StackHolds(open: seq<OpenSpan>, spanEvents: seq<Event>) {
    var last := |spanEvents| - 1;
    (forall i :: 0 <= i < |open| && !open[i].spoiled ==>
      i == |open| - 1 && last >= 0 && spanEvents[last].StartTag?) &&
    (last >= 0 && spanEvents[last].StartTag? ==>
      open != [] && open[|open| - 1] ==
        OpenSpan(if IsMarked(spanEvents[last].attributes) then Some(spanEvents[last].offset) else None, false))
  }

  function Spoiled(open: seq<OpenSpan>): seq<OpenSpan> {
    seq(|open|, i requires 0 <= i < |open| => open[i].(spoiled := true))
  }

  /** The parser's handlers; `handled` records the span events they have seen. */
  class HistoricalSpanFinder {
    var open: seq<OpenSpan>
    var spans: seq<Interval>
    ghost var handled: seq<Event>

    ghost predicate Valid()
      reads this
    {
      StackHolds(open, handled) && spans == MarkedSpans(handled)
    }

    constructor ()
      ensures Valid() && handled == []
    {
      open, spans, handled := [], [], [];
    }

    method NoteNesting()
      modifies this
      ensures open == Spoiled(old(open)) && spans == old(spans) && handled == old(handled)
    {
      for n := 0 to |open|
        invariant |open| == |old(open)| && spans == old(spans) && handled == old(handled)
        invariant forall i :: 0 <= i < n ==> open[i] == OpenSpan(old(open)[i].start, true)
        invariant forall i :: n <= i < |open| ==> open[i] == old(open)[i]
      {
        open := open[n := open[n].(spoiled := true)];
      }
    }

    method HandleStartTag(tag: string, attributes: seq<Attribute>, offset: nat)
      requires Valid()
      modifies this
      ensures Valid() && handled == old(handled) + SpanEvents([StartTag(tag, attributes, offset)])
      ensures spans == old(spans)
      ensures open == if tag != "span" then old(open)
                      else Spoiled(old(open)) + [OpenSpan(if IsMarked(attributes) then Some(offset) else None, false)]
    {
      hide StackHolds, MarkedSpans, SpanEvents;
      SpanEventsOne(StartTag(tag, attributes, offset));
      if tag != "span" { return; }
      StartTagHolds(open, handled, StartTag(tag, attributes, offset));
      NoteNesting();
      open := open + [OpenSpan(if IsMarked(attributes) then Some(offset) else None, false)];
      MarkedAppend(handled, StartTag(tag, attributes, offset));
      handled := handled + [StartTag(tag, attributes, offset)];
    }

    method HandleStartEndTag(tag: string, attributes: seq<Attribute>, offset: nat)
      requires Valid()
      modifies this
      ensures Valid() && handled == old(handled) + SpanEvents([StartEndTag(tag, attributes, offset)])
      ensures open == (if tag == "span" then Spoiled(old(open)) else old(open)) && spans == old(spans)
    {
      hide StackHolds, MarkedSpans, SpanEvents;
      SpanEventsOne(StartEndTag(tag, attributes, offset));
      if tag == "span" {
        StartEndTagHolds(open, handled, StartEndTag(tag, attributes, offset));
        NoteNesting();
        MarkedAppend(handled, StartEndTag(tag, attributes, offset));
        handled := handled + [StartEndTag(tag, attributes, offset)];
      }
    }

    method HandleEndTag(tag: string, offset: nat)
      requires Valid()
      modifies this
      ensures Valid() && handled == old(handled) + SpanEvents([EndTag(tag, offset)])
      ensures tag != "span" || old(open) == [] ==> open == old(open) && spans == old(spans)
      ensures tag == "span" && old(open) != [] ==>
                var top := old(open)[|old(open)| - 1];
                open == old(open)[..|old(open)| - 1] &&
                spans == old(spans) + (if top.start.Some? && !top.spoiled then [Interval(top.start.value, offset)]
                    else [])
    {
      hide StackHolds, MarkedSpans, SpanEvents;
      SpanEventsOne(EndTag(tag, offset));
      if tag != "span" { return; }
      MarkedAppend(handled, EndTag(tag, offset));
      EndTagHolds(open, handled, EndTag(tag, offset));
      handled := handled + [EndTag(tag, offset)];
      if open == [] { return; }
      var top := open[|open| - 1];
      open := open[..|open| - 1];
      if top.start.Some? && !top.spoiled { spans := spans + [Interval(top.start.value, offset)]; }
    }
  }

  lemma StartTagHolds(open: seq<OpenSpan>, handled: seq<Event>, event: Event)
    requires StackHolds(open, handled) && event.StartTag?
    ensures var pushed := OpenSpan(if IsMarked(event.attributes) then Some(event.offset) else None, false);
            StackHolds(Spoiled(open) + [pushed], handled + [event])
    ensures !(handled != [] && Closes(handled[|handled| - 1], event))
  {
  }

  lemma StartEndTagHolds(open: seq<OpenSpan>, handled: seq<Event>, event: Event)
    requires StackHolds(open, handled) && event.StartEndTag?
    ensures StackHolds(Spoiled(open), handled + [event])
    ensures !(handled != [] && Closes(handled[|handled| - 1], event))
  {
  }

  /** The popped entry is marked and unspoiled exactly when the end tag closes the start tag right before it. */
  lemma EndTagHolds(open: seq<OpenSpan>, handled: seq<Event>, event: Event)
    requires StackHolds(open, handled) && event.EndTag?
    ensures StackHolds(if open == [] then [] else open[..|open| - 1], handled + [event])
    ensures (handled != [] && Closes(handled[|handled| - 1], event)) <==>
              (open != [] && open[|open| - 1].start.Some? && !open[|open| - 1].spoiled)
    ensures handled != [] && Closes(handled[|handled| - 1], event) ==>
              open[|open| - 1].start == Some(handled[|handled| - 1].offset)
  {
  }

  lemma SpanEventsOne(event: Event)
    ensures SpanEvents([event]) == if event.tag == "span" then [event] else []
  {
    assert [event][..0] == [];
  }

  lemma NoSpanEvents()
    ensures SpanEvents([]) == []
  {
  }

  lemma SpanEventsStep(events: seq<Event>, event: Event)
    ensures SpanEvents(events + [event]) == SpanEvents(events) + SpanEvents([event])
  {
    SpanEventsOne(event);
    assert (events + [event])[..|events + [event]| - 1] == events;
  }

  lemma MarkedAppend(spanEvents: seq<Event>, event: Event)
    ensures MarkedSpans(spanEvents + [event]) == MarkedSpans(spanEvents) +
              (if spanEvents != [] && Closes(spanEvents[|spanEvents| - 1], event)
               then [Interval(spanEvents[|spanEvents| - 1].offset, event.offset)] else [])
  {
    assert (spanEvents + [event])[..|spanEvents|] == spanEvents;
  }

  /** The spans of a page are the marked start tags immediately followed, among span tags, by an end tag. */
  method FindSpans(events: seq<Event>) returns (spans: seq<Interval>)
    ensures spans == MarkedSpans(SpanEvents(events))
  {
    hide StackHolds, MarkedSpans, SpanEvents;
    NoSpanEvents();
    var finder := new HistoricalSpanFinder();
    for n := 0 to |events|
      invariant finder.Valid() && finder.handled == SpanEvents(events[..n])
    {
      assert events[..n + 1] == events[..n] + [events[n]];
      SpanEventsStep(events[..n], events[n]);
      match events[n]
      case StartTag(tag, attributes, offset) => finder.HandleStartTag(tag, attributes, offset);
      case StartEndTag(tag, attributes, offset) => finder.HandleStartEndTag(tag, attributes, offset);
      case EndTag(tag, offset) => finder.HandleEndTag(tag, offset);
    }
    assert events[..|events|] == events;
    spans := finder.spans;
  }

  /** The two events are span tags, one after the other. */
  ghost predicate SpanTagsInTurn(events: seq<Event>, i: nat, j: nat) {
    i < j < |events| && events[i].tag == "span" && events[j].tag == "span" &&
    forall k :: i < k < j ==> events[k].tag != "span"
  }

  /** A start tag with the marker, without a value or with an empty one, and an end tag. */
  ghost predicate MarkedPair(start: Event, end: Event) {
    start.StartTag? && end.EndTag? &&
    exists value :: value in {None, Some("")} && Attribute("data-build-history", value) in start.attributes
  }

  /** The interval runs from a marked start tag to an end tag that is the next span tag of the page. */
  ghost predicate Delimits(events: seq<Event>, i: nat, j: nat, span: Interval) {
    SpanTagsInTurn(events, i, j) && MarkedPair(events[i], events[j]) &&
    span == Interval(events[i].offset, events[j].offset)
  }

  /** Those intervals are the ones found. */
  lemma {:induction false} FoundSpansMean(events: seq<Event>, span: Interval)
    ensures span in MarkedSpans(SpanEvents(events)) <==> exists i: nat, j: nat :: Delimits(events, i, j, span)
  {
    hide SpanEvents, MarkedSpans, Delimits, Closes;
    if events == [] {
      NoSpanEvents();
      NoMarkedSpans();
      assert forall i: nat, j: nat :: !Delimits(events, i, j, span) by { NothingDelimits(span); }
    } else {
      var n := |events| - 1;
      var init, last := events[..n], events[n];
      assert events == init + [last];
      FoundSpansMean(init, span);
      SpanEventsStep(init, last);
      SpanEventsOne(last);
      if last.tag == "span" { MarkedAppend(SpanEvents(init), last); }
      var k := LastSpanEvent(init);
      forall i: nat, j: nat
        ensures Delimits(events, i, j, span) <==>
                  Delimits(init, i, j, span) ||
                  (last.tag == "span" && k >= 0 && i == k && j == n && Closes(init[k], last) &&
                   span == Interval(init[k].offset, last.offset))
      {
        DelimitsLast(events, i, j, span, k);
      }
      if last.tag == "span" && k >= 0 && Closes(init[k], last) && span == Interval(init[k].offset, last.offset) {
        assert Delimits(events, k, n, span);
      }
      if i: nat, j: nat :| Delimits(init, i, j, span) { assert Delimits(events, i, j, span); }
      var found, before := MarkedSpans(SpanEvents(events)), MarkedSpans(SpanEvents(init));
      assert last.tag != "span" ==> SpanEvents(events) == SpanEvents(init);
      assert span in found <==>
             span in before ||
             (last.tag == "span" && k >= 0 && Closes(init[k], last) && span == Interval(init[k].offset, last.offset));
    }
  }

  lemma NothingDelimits(span: Interval)
    ensures forall i: nat, j: nat :: !Delimits([], i, j, span)
  {
  }

  lemma DelimitsLast(events: seq<Event>, i: nat, j: nat, span: Interval, k: int)
    requires events != [] && -1 <= k < |events| - 1 && (k >= 0 ==> events[k].tag == "span")
    requires forall m :: k < m < |events| - 1 ==> events[m].tag != "span"
    ensures var n := |events| - 1;
            Delimits(events, i, j, span) <==>
              Delimits(events[..n], i, j, span) ||
              (events[n].tag == "span" && k >= 0 && i == k && j == n && Closes(events[k], events[n]) &&
               span == Interval(events[k].offset, events[n].offset))
  {
    hide MarkedPair, Closes;
    var n := |events| - 1;
    if k >= 0 { ClosesMarked(events[k], events[n]); }
    if j < n { assert forall m :: 0 <= m < n ==> events[..n][m] == events[m]; }
  }

  lemma NoMarkedSpans()
    ensures MarkedSpans([]) == []
  {
  }

  lemma ClosesMarked(start: Event, end: Event)
    ensures Closes(start, end) <==> MarkedPair(start, end)
  {
    if Closes(start, end) {
      var attribute :| attribute in start.attributes && attribute.name == MARKER &&
        (attribute.value == None || attribute.value == Some(""));
      assert attribute == Attribute("data-build-history", attribute.value);
    }
    if MarkedPair(start, end) {
      var value :| value in {None, Some("")} && Attribute("data-build-history", value) in start.attributes;
      assert Attribute("data-build-history", value).name == MARKER;
    }
  }

  /** Where the last span tag of the page stands, or -1. */
  lemma {:induction false} LastSpanEvent(events: seq<Event>) returns (k: int)
    ensures -1 <= k < |events| && (k < 0 <==> SpanEvents(events) == [])
    ensures k >= 0 ==> events[k].tag == "span" && SpanEvents(events)[|SpanEvents(events)| - 1] == events[k]
    ensures forall i :: k < i < |events| ==> events[i].tag != "span"
  {
    hide SpanEvents;
    if events == [] {
      NoSpanEvents();
      k := -1;
    } else {
      var n := |events| - 1;
      SpanEventsStep(events[..n], events[n]);
      SpanEventsOne(events[n]);
      assert events == events[..n] + [events[n]];
      if events[n].tag == "span" { k := n; } else { k := LastSpanEvent(events[..n]); }
    }
  }

  // ---------------------------------------------------------------- disjoint and in order

  ghost predicate Increasing(events: seq<Event>) {
    forall i, j :: 0 <= i < j < |events| ==> events[i].offset < events[j].offset
  }

  /** Non-empty intervals inside the document, each after the previous one. */
  ghost predicate InOrder(spans: seq<Interval>, length: nat) {
    (forall i :: 0 <= i < |spans| ==> spans[i].start < spans[i].end <= length) &&
    forall i, j :: 0 <= i < j < |spans| ==> spans[i].end < spans[j].start
  }

  ghost predicate Inside(events: seq<Event>, length: nat) {
    forall i :: 0 <= i < |events| ==> events[i].offset < length
  }

  lemma {:induction false} SpanEventsIncrease(events: seq<Event>, length: nat)
    requires Increasing(events) && Inside(events, length)
    ensures Increasing(SpanEvents(events)) && Inside(SpanEvents(events), length)
    ensures events != [] ==> Inside(SpanEvents(events), events[|events| - 1].offset + 1)
  {
    if events != [] {
      var init := events[..|events| - 1];
      assert forall i :: 0 <= i < |init| ==> init[i] == events[i];
      SpanEventsIncrease(init, length);
      if init != [] { assert init[|init| - 1].offset < events[|events| - 1].offset; }
    }
  }

  lemma {:induction false} MarkedSpansInOrder(spanEvents: seq<Event>, length: nat)
    requires Increasing(spanEvents) && Inside(spanEvents, length)
    ensures InOrder(MarkedSpans(spanEvents), length)
    ensures var spans := MarkedSpans(spanEvents);
            forall i :: 0 <= i < |spans| ==> spanEvents != [] && EndsBy(spans[i], spanEvents[|spanEvents| - 1])
  {
    if |spanEvents| >= 2 {
      hide *;
      var n := |spanEvents|;
      var init, last, previous := spanEvents[..n - 1], spanEvents[n - 1], spanEvents[n - 2];
      assert spanEvents == init + [last];
      PrefixIncreasing(spanEvents, length);
      MarkedSpansInOrder(init, length);
      MarkedAppend(init, last);
      OneMoreSpan(MarkedSpans(init), previous, last, length);
    }
  }

  lemma PrefixIncreasing(events: seq<Event>, length: nat)
    requires |events| >= 2 && Increasing(events) && Inside(events, length)
    ensures Increasing(events[..|events| - 1]) && Inside(events[..|events| - 1], length)
    ensures events[|events| - 2].offset < events[|events| - 1].offset < length
  {
    var init := events[..|events| - 1];
    assert forall i :: 0 <= i < |init| ==> init[i] == events[i];
  }

  lemma OneMoreSpan(spans: seq<Interval>, previous: Event, last: Event, length: nat)
    requires InOrder(spans, length) && previous.offset < last.offset < length
    requires forall i :: 0 <= i < |spans| ==> EndsBy(spans[i], previous)
    ensures var more := spans + (if Closes(previous, last) then [Interval(previous.offset, last.offset)] else []);
            InOrder(more, length) && forall i :: 0 <= i < |more| ==> EndsBy(more[i], last)
  {
  }

  /** The interval ends at the event or before it, and before it unless the event is an end tag. */
  ghost predicate EndsBy(span: Interval, event: Event) {
    span.end <= event.offset && (!event.EndTag? ==> span.end < event.offset)
  }

  /** The intervals found on a page are disjoint, non-empty and in increasing order. */
  lemma FoundSpansInOrder(events: seq<Event>, length: nat)
    requires Increasing(events) && Inside(events, length)
    ensures InOrder(MarkedSpans(SpanEvents(events)), length)
  {
    SpanEventsIncrease(events, length);
    MarkedSpansInOrder(SpanEvents(events), length);
  }

  // ---------------------------------------------------------------- cutting them out

  ghost predicate StartsAt(spans: seq<Interval>, i: int) {
    exists k :: 0 <= k < |spans| && spans[k].start == i
  }

  ghost predicate Covered(spans: seq<Interval>, i: int) {
    exists k :: 0 <= k < |spans| && spans[k].start <= i < spans[k].end
  }

  /** Character by character: one space where a span starts, nothing inside it, the character elsewhere. */
  ghost function Redacted(contents: string, spans: seq<Interval>, upto: nat): string
    requires upto <= |contents|
  {
    if upto == 0 then ""
    else
      Redacted(contents, spans, upto - 1) +
        (if StartsAt(spans, upto - 1) then " " else if Covered(spans, upto - 1) then "" else [contents[upto - 1]])
  }

  /** The page with its marked spans cut out. */
  method CurrentClaimsOnly(contents: string, events: seq<Event>) returns (kept: string)
    requires Increasing(events) && Inside(events, |contents|)
    ensures kept == Redacted(contents, MarkedSpans(SpanEvents(events)), |contents|)
  {
    FoundSpansInOrder(events, |contents|);
    var spans := FindSpans(events);
    kept := CutSpans(contents, spans);
  }

  method CutSpans(contents: string, spans: seq<Interval>) returns (kept: string)
    requires InOrder(spans, |contents|)
    ensures kept == Redacted(contents, spans, |contents|)
  {
    kept := "";
    var cursor := 0;
    for n := 0 to |spans|
      invariant cursor == (if n == 0 then 0 else spans[n - 1].end)
      invariant kept == Redacted(contents, spans, cursor)
    {
      RedactedGap(contents, spans, n, cursor, spans[n].start);
      kept := kept + contents[cursor..spans[n].start];
      RedactedSpan(contents, spans, n, spans[n].end);
      kept := kept + " ";
      cursor := spans[n].end;
    }
    RedactedGap(contents, spans, |spans|, cursor, |contents|);
    kept := kept + contents[cursor..];
    assert contents[cursor..|contents|] == contents[cursor..];
  }

  /** Between the end of one span and the start of the next, everything is kept. */
  lemma {:induction false} RedactedGap(contents: string, spans: seq<Interval>, n: nat, from: nat, till: nat)
    requires InOrder(spans, |contents|) && n <= |spans| && from == (if n == 0 then 0 else spans[n - 1].end)
    requires till <= |contents| && (n < |spans| ==> till <= spans[n].start)
    ensures from <= till ==> Redacted(contents, spans, till) == Redacted(contents, spans, from) + contents[from..till]
    ensures n < |spans| ==> from <= spans[n].start
    decreases till
  {
    hide Covered, StartsAt;
    if n < |spans| && n > 0 { assert spans[n - 1].end < spans[n].start; }
    if from < till {
      RedactedGap(contents, spans, n, from, till - 1);
      GapIsFree(spans, |contents|, n, till - 1);
      assert contents[from..till] == contents[from..till - 1] + [contents[till - 1]];
    }
  }

  lemma GapIsFree(spans: seq<Interval>, length: nat, n: nat, i: nat)
    requires InOrder(spans, length) && n <= |spans| && (n < |spans| ==> i < spans[n].start)
    requires i >= (if n == 0 then 0 else spans[n - 1].end)
    ensures !Covered(spans, i) && !StartsAt(spans, i)
  {
    forall k | 0 <= k < |spans|
      ensures !(spans[k].start <= i < spans[k].end)
      ensures spans[k].start != i
    {
      if k < n - 1 { assert spans[k].end < spans[n - 1].start; }
      if k > n { assert spans[n].end < spans[k].start; }
    }
  }

  /** A whole span becomes one space. */
  lemma {:induction false} RedactedSpan(contents: string, spans: seq<Interval>, n: nat, till: nat)
    requires InOrder(spans, |contents|) && n < |spans| && spans[n].start < till <= spans[n].end
    ensures Redacted(contents, spans, till) == Redacted(contents, spans, spans[n].start) + " "
    decreases till
  {
    assert Covered(spans, till - 1);
    if till - 1 == spans[n].start {
      assert StartsAt(spans, till - 1);
    } else {
      forall k | 0 <= k < |spans|
        ensures spans[k].start != till - 1
      {
        if k < n { assert spans[k].end < spans[n].start; }
        if k > n { assert spans[n].end < spans[k].start; }
      }
      RedactedSpan(contents, spans, n, till - 1);
    }
  }
}
