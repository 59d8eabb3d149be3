/** The table-of-contents tracker of an article page: it captures the page's
    h2/h3 headings once on mount, follows intersection-observer batches to keep
    one active heading id, and stops when the observer is disconnected. */
module TableOfContents {
  import opened Common

  /** A rendered element as the tracker sees it; `textContent` may be null. */
  datatype Element = Element(tagName: string, id: string, textContent: Option<string>)

  /** One table-of-contents entry. */
  datatype Heading = Heading(id: string, text: string, level: int)

  /** What `querySelectorAll('h2, h3')` selects. */
  predicate IsHeading(e: Element) {
    e.tagName == "H2" || e.tagName == "H3"
  }

  /** The heading elements of the page, in document order. */
  function HeadingElements(doc: seq<Element>): seq<Element> {
    Filter(doc, IsHeading)
  }

  /** `parseInt(tagName[1])` on a heading tag. */
  function ParseLevel(tagName: string): (level: int)
    requires tagName == "H2" || tagName == "H3"
    ensures level == 2 <==> tagName == "H2"
    ensures level == 3 <==> tagName == "H3"
  {
    (tagName[1] as int) - ('0' as int)
  }

  /** The entry for one heading element: a null text becomes `''`. */
  function ToHeading(e: Element): (h: Heading)
    requires IsHeading(e)
    ensures h.id == e.id
    ensures e.textContent.None? ==> h.text == ""
    ensures e.textContent.Some? ==> h.text == e.textContent.value
    ensures h.level == 2 || h.level == 3
  {
    Heading(e.id, e.textContent.GetOr(""), ParseLevel(e.tagName))
  }

  /** The heading list built on mount: one entry per heading element, in
      document order. */
  function CaptureHeadings(doc: seq<Element>): (hs: seq<Heading>)
    ensures |hs| == |HeadingElements(doc)|
    ensures forall i :: 0 <= i < |hs| ==>
      && hs[i].id == HeadingElements(doc)[i].id
      && hs[i].text == HeadingElements(doc)[i].textContent.GetOr("")
      && (hs[i].level == 2 <==> HeadingElements(doc)[i].tagName == "H2")
      && (hs[i].level == 3 <==> HeadingElements(doc)[i].tagName == "H3")
  {
    var els := HeadingElements(doc);
    seq(|els|, i requires 0 <= i < |els| => ToHeading(els[i]))
  }

  /** Capture follows document order: the entries of two consecutive stretches
      of the page are those of the first stretch, then those of the second. */
  lemma CaptureHeadingsAppend(a: seq<Element>, b: seq<Element>)
    ensures CaptureHeadings(a + b) == CaptureHeadings(a) + CaptureHeadings(b)
  {
    FilterAppend(a, b, IsHeading);
    var whole, left, right := CaptureHeadings(a + b), CaptureHeadings(a), CaptureHeadings(b);
    forall i | 0 <= i < |whole| ensures whole[i] == (left + right)[i] {
      if i < |left| {
        assert HeadingElements(a + b)[i] == HeadingElements(a)[i];
      } else {
        assert HeadingElements(a + b)[i] == HeadingElements(b)[i - |left|];
      }
    }
  }

  /** One element contributes its own entry when it is an h2/h3, else nothing. */
  lemma CaptureOne(e: Element)
    ensures IsHeading(e) ==> CaptureHeadings([e]) == [ToHeading(e)]
    ensures !IsHeading(e) ==> CaptureHeadings([e]) == []
  {
    FilterSingle(e, IsHeading);
  }

  /** The entry's left padding, in rem. */
  function Indent(h: Heading): int {
    h.level - 2
  }

  /** Captured h2 entries are not indented and h3 entries by one rem. */
  lemma IndentIsZeroOrOne(doc: seq<Element>, i: nat)
    requires i < |CaptureHeadings(doc)|
    ensures var h := CaptureHeadings(doc)[i];
      && (Indent(h) == 0 <==> HeadingElements(doc)[i].tagName == "H2")
      && (Indent(h) == 1 <==> HeadingElements(doc)[i].tagName == "H3")
  {
    assert IsHeading(HeadingElements(doc)[i]);
  }

  /** Whether the observer still delivers batches. */
  datatype Phase = Observing | Disconnected

  /** The component's state: the captured entries, the observed elements, the
      active id and the observer's phase. */
  datatype Tracker = Tracker(headings: seq<Heading>, observed: seq<Element>, activeId: string, phase: Phase)

  /** One `IntersectionObserverEntry`, reduced to its target and whether it
      intersects the trigger band. */
  datatype ObserverEntry = ObserverEntry(target: Element, isIntersecting: bool)

  /** What can happen to a mounted tracker: an observer batch, a click on an
      entry (it scrolls the page and nothing else), or the effect cleanup. */
  datatype Event = Batch(entries: seq<ObserverEntry>) | NavClick(id: string) | Cleanup

  /** The state right after the mount effect: the entries are captured, every
      heading element is observed, and `activeId` still has its initial `''`. */
  function Mount(doc: seq<Element>): (t: Tracker)
    ensures t.activeId == "" && t.phase == Observing
    ensures t.headings == CaptureHeadings(doc) && t.observed == HeadingElements(doc)
  {
    Tracker(CaptureHeadings(doc), HeadingElements(doc), "", Observing)
  }

  /** The batch callback: `entries.forEach` sets the active id to each
      intersecting target in turn, so the last intersecting entry wins and a
      batch with none leaves `active` as it was. */
  function ApplyBatch(active: string, entries: seq<ObserverEntry>): (r: string)
    ensures (forall k :: 0 <= k < |entries| ==> !entries[k].isIntersecting) ==> r == active
    ensures (exists k :: 0 <= k < |entries| && entries[k].isIntersecting) ==>
      exists k :: 0 <= k < |entries| && entries[k].isIntersecting && r == entries[k].target.id
        && forall j :: k < j < |entries| ==> !entries[j].isIntersecting
    decreases |entries|
  {
    if entries == [] then active
    else
      var next := if entries[0].isIntersecting then entries[0].target.id else active;
      var rest := entries[1..];
      var r := ApplyBatch(next, rest);
      assert forall k :: 0 <= k < |rest| ==> rest[k] == entries[k + 1];
      assert (exists k :: 1 <= k < |entries| && entries[k].isIntersecting) ==>
        exists k :: 0 <= k < |entries| && entries[k].isIntersecting && r == entries[k].target.id
          && forall j :: k < j < |entries| ==> !entries[j].isIntersecting
      by {
        if exists k :: 1 <= k < |entries| && entries[k].isIntersecting {
          assert entries[1..] == rest;
          var k' :| 0 <= k' < |rest| && rest[k'].isIntersecting && r == rest[k'].target.id
            && forall j :: k' < j < |rest| ==> !rest[j].isIntersecting;
          assert entries[k' + 1] == rest[k'];
        }
      }
      r
  }

  /** Two batches in a row act as one batch holding both: the last write wins
      across batches as within one. */
  lemma {:induction false} ApplyBatchAppend(active: string, b1: seq<ObserverEntry>, b2: seq<ObserverEntry>)
    ensures ApplyBatch(ApplyBatch(active, b1), b2) == ApplyBatch(active, b1 + b2)
    decreases |b1|
  {
    if b1 != [] {
      var next := if b1[0].isIntersecting then b1[0].target.id else active;
      assert (b1 + b2)[0] == b1[0];
      assert (b1 + b2)[1..] == b1[1..] + b2;
      ApplyBatchAppend(next, b1[1..], b2);
    } else {
      assert b1 + b2 == b2;
    }
  }

  /** The observer only reports elements it observes. */
  predicate ValidEvent(observed: seq<Element>, e: Event) {
    e.Batch? ==> forall k :: 0 <= k < |e.entries| ==> e.entries[k].target in observed
  }

  predicate ValidEvents(observed: seq<Element>, events: seq<Event>) {
    forall i :: 0 <= i < |events| ==> ValidEvent(observed, events[i])
  }

  /** One event. A batch after the cleanup is never delivered (the observer is
      disconnected), which the model states as "changes nothing". */
  function Step(t: Tracker, e: Event): (r: Tracker)
    requires ValidEvent(t.observed, e)
    ensures r.headings == t.headings && r.observed == t.observed
    ensures e.NavClick? ==> r == t
    ensures t.phase == Disconnected ==> r == t
    ensures e.Cleanup? ==> r.phase == Disconnected && r.activeId == t.activeId
    ensures e.Batch? && t.phase == Observing ==> r == t.(activeId := ApplyBatch(t.activeId, e.entries))
  {
    match e
    case Batch(entries) =>
      if t.phase == Observing then t.(activeId := ApplyBatch(t.activeId, entries)) else t
    case NavClick(_) => t
    case Cleanup => t.(phase := Disconnected)
  }

  /** A sequence of events, in delivery order. */
  function Run(t: Tracker, events: seq<Event>): (r: Tracker)
    requires ValidEvents(t.observed, events)
    ensures r.headings == t.headings && r.observed == t.observed
    decreases |events|
  {
    if events == [] then t
    else Run(Step(t, events[0]), events[1..])
  }

  /** Running `a + b` is running `a`, then `b`. */
  lemma {:induction false} RunAppend(t: Tracker, a: seq<Event>, b: seq<Event>)
    requires ValidEvents(t.observed, a + b)
    ensures ValidEvents(t.observed, a) && ValidEvents(t.observed, b)
    ensures Run(t, a + b) == Run(Run(t, a), b)
    decreases |a|
  {
    assert forall i :: 0 <= i < |a| ==> a[i] == (a + b)[i];
    assert forall i :: 0 <= i < |b| ==> b[i] == (a + b)[|a| + i];
    if a == [] {
      assert a + b == b;
    } else {
      assert (a + b)[0] == a[0];
      assert (a + b)[1..] == a[1..] + b;
      assert forall i :: 0 <= i < |a[1..] + b| ==> (a[1..] + b)[i] == (a + b)[i + 1];
      RunAppend(Step(t, a[0]), a[1..], b);
    }
  }

  /** The active id is `''` or the id of an observed element. */
  predicate ActiveIsObserved(t: Tracker) {
    t.activeId == "" || exists k :: 0 <= k < |t.observed| && t.observed[k].id == t.activeId
  }

  lemma {:induction false} RunKeepsActiveObserved(t: Tracker, events: seq<Event>)
    requires ValidEvents(t.observed, events) && ActiveIsObserved(t)
    ensures ActiveIsObserved(Run(t, events))
    decreases |events|
  {
    if events != [] {
      var e := events[0];
      var s := Step(t, e);
      if e.Batch? && t.phase == Observing {
        var b := e.entries;
        if exists k :: 0 <= k < |b| && b[k].isIntersecting {
          var k :| 0 <= k < |b| && b[k].isIntersecting && s.activeId == b[k].target.id;
          assert b[k].target in t.observed;
        }
      }
      assert forall i :: 0 <= i < |events[1..]| ==> events[1..][i] == events[i + 1];
      RunKeepsActiveObserved(s, events[1..]);
    }
  }

  /** After the cleanup no event moves the active id. */
  lemma {:induction false} NoUpdateAfterCleanup(t: Tracker, before: seq<Event>, after: seq<Event>)
    requires ValidEvents(t.observed, before) && ValidEvents(t.observed, after)
    ensures Run(t, before + [Cleanup] + after).activeId == Run(t, before).activeId
    ensures Run(t, before + [Cleanup] + after).phase == Disconnected
  {
    var events := before + [Cleanup] + after;
    assert ValidEvents(t.observed, events) by {
      forall i | 0 <= i < |events| ensures ValidEvent(t.observed, events[i]) {
        if i < |before| {
          assert events[i] == before[i];
        } else if i > |before| {
          assert events[i] == after[i - |before| - 1];
        }
      }
    }
    RunAppend(t, before + [Cleanup], after);
    RunAppend(t, before, [Cleanup]);
    var s := Run(t, before + [Cleanup]);
    assert [Cleanup][1..] == [];
    DisconnectedIsFrozen(s, after);
  }

  lemma {:induction false} DisconnectedIsFrozen(t: Tracker, events: seq<Event>)
    requires ValidEvents(t.observed, events) && t.phase == Disconnected
    ensures Run(t, events) == t
    decreases |events|
  {
    if events != [] {
      assert forall i :: 0 <= i < |events[1..]| ==> events[1..][i] == events[i + 1];
      DisconnectedIsFrozen(t, events[1..]);
    }
  }

  /** While observing, every batch of a run is applied: a run of batches
      leaves the tracker observing, with the active id of one batch holding all
      their entries in delivery order. */
  lemma {:induction false} BatchesApplyInOrder(t: Tracker, batches: seq<seq<ObserverEntry>>)
    requires t.phase == Observing
    requires forall i, k :: 0 <= i < |batches| && 0 <= k < |batches[i]| ==> batches[i][k].target in t.observed
    ensures var events := seq(|batches|, i requires 0 <= i < |batches| => Batch(batches[i]));
      ValidEvents(t.observed, events) &&
      Run(t, events) == t.(activeId := ApplyBatch(t.activeId, Concat(batches)))
    decreases |batches|
  {
    var events := seq(|batches|, i requires 0 <= i < |batches| => Batch(batches[i]));
    assert ValidEvents(t.observed, events);
    if batches != [] {
      var s := Step(t, events[0]);
      var rest := batches[1..];
      var tail := seq(|rest|, i requires 0 <= i < |rest| => Batch(rest[i]));
      assert events[1..] == tail;
      BatchesApplyInOrder(s, rest);
      ApplyBatchAppend(t.activeId, batches[0], Concat(rest));
    }
  }

  /** The batches of a run, one after another. */
  function Concat(batches: seq<seq<ObserverEntry>>): seq<ObserverEntry>
    decreases |batches|
  {
    if batches == [] then [] else batches[0] + Concat(batches[1..])
  }

  /** An entry is highlighted iff its id is the active id. */
  predicate IsHighlighted(t: Tracker, h: Heading) {
    h.id == t.activeId
  }

  /** After the mount and any events, a non-empty active id highlights at
      least one entry of the list. */
  lemma ActiveEntryIsListed(doc: seq<Element>, events: seq<Event>)
    requires ValidEvents(HeadingElements(doc), events)
    ensures var t := Run(Mount(doc), events);
      t.activeId != "" ==> exists i :: 0 <= i < |t.headings| && IsHighlighted(t, t.headings[i])
  {
    var t := Run(Mount(doc), events);
    RunKeepsActiveObserved(Mount(doc), events);
    if t.activeId != "" {
      var k :| 0 <= k < |t.observed| && t.observed[k].id == t.activeId;
      assert IsHighlighted(t, t.headings[k]);
    }
  }

  /** With distinct heading ids, at most one entry is highlighted. */
  lemma AtMostOneHighlighted(t: Tracker, i: nat, j: nat)
    requires i < |t.headings| && j < |t.headings|
    requires forall a, b :: 0 <= a < b < |t.headings| ==> t.headings[a].id != t.headings[b].id
    requires IsHighlighted(t, t.headings[i]) && IsHighlighted(t, t.headings[j])
    ensures i == j
  {
  }

  /** Mount, one batch in which only the k-th heading intersects, the cleanup,
      then any stale batch: the k-th heading stays active. */
  lemma SingleIntersectionScenario(doc: seq<Element>, k: nat, stale: seq<ObserverEntry>)
    requires k < |HeadingElements(doc)|
    requires forall j :: 0 <= j < |stale| ==> stale[j].target in HeadingElements(doc)
    ensures var els := HeadingElements(doc);
      Run(Mount(doc), [Batch([ObserverEntry(els[k], true)]), Cleanup, Batch(stale)]).activeId == els[k].id
  {
    var els := HeadingElements(doc);
    var first := [Batch([ObserverEntry(els[k], true)])];
    var events := first + [Cleanup] + [Batch(stale)];
    assert events == [Batch([ObserverEntry(els[k], true)]), Cleanup, Batch(stale)];
    assert els[k] in els;
    NoUpdateAfterCleanup(Mount(doc), first, [Batch(stale)]);
    assert first[1..] == [];
  }
}
