/** The safety-event pass (EventosV2.py:70-106): every behaviour label of every
    event on every page becomes one row, except the two ignored label kinds.
    The pages are the decoded `data` lists in the order the cursor loop
    fetched them; `toLocal` stands for `convert_to_mexico`. */
module SafetyEvents {
  import opened Strings
  import opened Records

  /** The label texts that yield no row, whatever their case and surrounding
      white space (line 87). */
  predicate IsIgnoredLabel(name: string) {
    var k := Lower(Trim(name));
    k == "following distance" || k == "forward collision warning"
  }

  /** The only rewrite of a safety label (lines 89-90): it changes the label
      exactly when the English text occurs in it. */
  function RewriteSpeedAlert(name: string): (r: string)
    ensures r == name <==> !Contains(name, SPEED_ALERT_EN)
  {
    if Contains(name, SPEED_ALERT_EN) then
      ReplaceChangesIffContains(name, SPEED_ALERT_EN, SPEED_ALERT_ES);
      ReplaceAll(name, SPEED_ALERT_EN, SPEED_ALERT_ES)
    else
      name
  }

  /** The first occurrence of the English text becomes the Spanish text, what
      precedes it is kept, and the rewrite resumes right after it; with the
      contract above, this fixes the rewritten label of every name. */
  lemma RewriteSpeedAlertFirst(name: string, i: int)
    requires OccursAt(name, SPEED_ALERT_EN, i)
    requires forall j :: 0 <= j < i ==> !OccursAt(name, SPEED_ALERT_EN, j)
    ensures RewriteSpeedAlert(name)
            == name[..i] + SPEED_ALERT_ES + RewriteSpeedAlert(name[i + |SPEED_ALERT_EN|..])
  {
    var pre, rest := name[..i], name[i + |SPEED_ALERT_EN|..];
    assert pre + SPEED_ALERT_EN + rest == name;
    ContainsIffOccurs(name, SPEED_ALERT_EN);
    ReplaceFirst(pre, SPEED_ALERT_EN, rest, SPEED_ALERT_ES);
    if !Contains(rest, SPEED_ALERT_EN) {
      ReplaceAbsent(rest, SPEED_ALERT_EN, SPEED_ALERT_ES);
    }
  }

  /** The `time` of an event: converted unless absent or the text "N/A" (lines 82-84). */
  function EventTime(e: SafetyEvent, toLocal: string -> string): string {
    var t := e.time.GetOr(NOT_AVAILABLE);
    if t != NOT_AVAILABLE then toLocal(t) else t
  }

  function LabelName(l: NamedRef): string {
    l.name.GetOr(NO_LABEL)
  }

  /** The row one kept label of `e` yields (lines 91-102). */
  function SafetyRow(e: SafetyEvent, name: string, toLocal: string -> string): EventRow {
    EventRow(SAFETY_ORIGIN, NameOr(e.driver, UNKNOWN), NameOr(e.vehicle, NO_VEHICLE),
             "", "", "", "", RewriteSpeedAlert(name), EventTime(e, toLocal), None, None)
  }

  /** The rows the label loop (lines 85-102) appends for `labels`, a prefix of
      the labels of `e`. */
  function LabelRows(e: SafetyEvent, labels: seq<NamedRef>, toLocal: string -> string): seq<EventRow> {
    if labels == [] then []
    else
      var rows := LabelRows(e, labels[..|labels| - 1], toLocal);
      var name := LabelName(labels[|labels| - 1]);
      if IsIgnoredLabel(name) then rows else rows + [SafetyRow(e, name, toLocal)]
  }

  function EventRows(e: SafetyEvent, toLocal: string -> string): seq<EventRow> {
    LabelRows(e, e.behaviorLabels, toLocal)
  }

  /** The rows the event loop (line 77) appends for one page. */
  function EventListRows(events: seq<SafetyEvent>, toLocal: string -> string): seq<EventRow> {
    if events == [] then []
    else EventListRows(events[..|events| - 1], toLocal) + EventRows(events[|events| - 1], toLocal)
  }

  /** The rows the cursor loop (lines 71-106) appends over all pages. */
  function PagesRows(pages: seq<seq<SafetyEvent>>, toLocal: string -> string): seq<EventRow> {
    if pages == [] then []
    else PagesRows(pages[..|pages| - 1], toLocal) + EventListRows(pages[|pages| - 1], toLocal)
  }

  /** The name of `l` if it is kept, as a list of zero or one names. */
  function Keep(l: NamedRef): seq<string> {
    if IsIgnoredLabel(LabelName(l)) then [] else [LabelName(l)]
  }

  /** Reference definition: the label names that are not ignored, in input order. */
  function KeptNames(labels: seq<NamedRef>): seq<string> {
    if labels == [] then [] else Keep(labels[0]) + KeptNames(labels[1..])
  }

  /** The number of ignored labels. */
  function IgnoredCount(labels: seq<NamedRef>): nat {
    if labels == [] then 0 else 1 - |Keep(labels[0])| + IgnoredCount(labels[1..])
  }

  function RowsOfNames(e: SafetyEvent, names: seq<string>, toLocal: string -> string): seq<EventRow> {
    seq(|names|, k requires 0 <= k < |names| => SafetyRow(e, names[k], toLocal))
  }

  /** What is kept, and how many are dropped, is the same whether the labels
      are scanned from the front or the back. */
  lemma {:induction false} KeptNamesSnoc(labels: seq<NamedRef>, x: NamedRef)
    ensures KeptNames(labels + [x]) == KeptNames(labels) + Keep(x)
    ensures IgnoredCount(labels + [x]) == IgnoredCount(labels) + 1 - |Keep(x)|
  {
    if labels != [] {
      assert (labels + [x])[1..] == labels[1..] + [x];
      KeptNamesSnoc(labels[1..], x);
      assert KeptNames(labels + [x]) == Keep(labels[0]) + (KeptNames(labels[1..]) + Keep(x));
    } else {
      assert (labels + [x])[1..] == [];
    }
  }

  /** A label is kept exactly when it is not ignored, and the kept labels and
      the ignored ones add up to all labels. */
  lemma {:induction false} KeptNamesSpec(labels: seq<NamedRef>)
    ensures forall n :: n in KeptNames(labels) <==>
              !IsIgnoredLabel(n) && exists i :: 0 <= i < |labels| && LabelName(labels[i]) == n
    ensures |KeptNames(labels)| + IgnoredCount(labels) == |labels|
  {
    if labels != [] {
      KeptNamesSpec(labels[1..]);
      forall n | !IsIgnoredLabel(n) && exists i :: 0 <= i < |labels| && LabelName(labels[i]) == n
        ensures n in KeptNames(labels)
      {
        var i :| 0 <= i < |labels| && LabelName(labels[i]) == n;
        if i > 0 {
          assert LabelName(labels[1..][i - 1]) == n;
        }
      }
      forall n | n in KeptNames(labels[1..])
        ensures exists i :: 0 <= i < |labels| && LabelName(labels[i]) == n
      {
        var i :| 0 <= i < |labels[1..]| && LabelName(labels[1..][i]) == n;
        assert LabelName(labels[i + 1]) == n;
      }
    }
  }

  lemma RowsOfNamesSnoc(e: SafetyEvent, names: seq<string>, name: string, toLocal: string -> string)
    ensures RowsOfNames(e, names + [name], toLocal)
            == RowsOfNames(e, names, toLocal) + [SafetyRow(e, name, toLocal)]
  {
  }

  /** The label loop emits one row per kept label, in input order
      (lines 85-102). */
  lemma {:induction false} LabelRowsAreKeptNames(e: SafetyEvent, labels: seq<NamedRef>, toLocal: string -> string)
    ensures LabelRows(e, labels, toLocal) == RowsOfNames(e, KeptNames(labels), toLocal)
  {
    if labels != [] {
      var init, x := labels[..|labels| - 1], labels[|labels| - 1];
      assert labels == init + [x];
      KeptNamesSnoc(init, x);
      LabelRowsAreKeptNames(e, init, toLocal);
      var name := LabelName(x);
      if !IsIgnoredLabel(name) {
        RowsOfNamesSnoc(e, KeptNames(init), name, toLocal);
      } else {
        assert KeptNames(labels) == KeptNames(init) + [];
      }
    }
  }

  /** Every safety row: its origin is "Safety Event", its duration empty, its
      label the kept label text with the speed-alert rewrite, its driver and
      vehicle the event's or the defaults; none of them has an ignored label,
      and their number is the number of labels minus the ignored ones. */
  lemma EventRowsSpec(e: SafetyEvent, toLocal: string -> string)
    ensures var rows := EventRows(e, toLocal);
      var kept := KeptNames(e.behaviorLabels);
      && |rows| == |e.behaviorLabels| - IgnoredCount(e.behaviorLabels)
      && |rows| == |kept|
      && forall k :: 0 <= k < |rows| ==>
           && !IsIgnoredLabel(kept[k])
           && rows[k].origin == SAFETY_ORIGIN
           && rows[k].duration == None
           && rows[k].eventLabel == RewriteSpeedAlert(kept[k])
           && (!Contains(kept[k], SPEED_ALERT_EN) ==> rows[k].eventLabel == kept[k])
           && rows[k].driver == NameOr(e.driver, UNKNOWN)
           && rows[k].vehicle == NameOr(e.vehicle, NO_VEHICLE)
           && rows[k].time == EventTime(e, toLocal)
  {
    LabelRowsAreKeptNames(e, e.behaviorLabels, toLocal);
    KeptNamesSpec(e.behaviorLabels);
    var kept := KeptNames(e.behaviorLabels);
    assert forall k :: 0 <= k < |kept| ==> kept[k] in kept;
  }

  /** What every row of the safety pass carries: the safety origin and no
      duration. */
  ghost predicate IsSafetyRow(r: EventRow) {
    r.origin == SAFETY_ORIGIN && r.duration.None?
  }

  lemma {:induction false} EventListRowsAreSafetyRows(events: seq<SafetyEvent>, toLocal: string -> string)
    ensures forall r :: r in EventListRows(events, toLocal) ==> IsSafetyRow(r)
  {
    if events != [] {
      EventListRowsAreSafetyRows(events[..|events| - 1], toLocal);
      EventRowsSpec(events[|events| - 1], toLocal);
    }
  }

  /** Every row the safety pass collects, over all pages, is a safety row. */
  lemma {:induction false} PagesRowsAreSafetyRows(pages: seq<seq<SafetyEvent>>, toLocal: string -> string)
    ensures forall r :: r in PagesRows(pages, toLocal) ==> IsSafetyRow(r)
  {
    if pages != [] {
      PagesRowsAreSafetyRows(pages[..|pages| - 1], toLocal);
      EventListRowsAreSafetyRows(pages[|pages| - 1], toLocal);
    }
  }

  lemma {:induction false} EventListRowsAppend(a: seq<SafetyEvent>, b: seq<SafetyEvent>, toLocal: string -> string)
    ensures EventListRows(a + b, toLocal) == EventListRows(a, toLocal) + EventListRows(b, toLocal)
    decreases |b|
  {
    if b != [] {
      var init := b[..|b| - 1];
      assert (a + b)[..|a + b| - 1] == a + init;
      EventListRowsAppend(a, init, toLocal);
    } else {
      assert a + b == a;
    }
  }

  /** Walking the pages one after another is the same as processing all their
      events as one list: pagination only splits the input. */
  lemma {:induction false} PagesRowsFlatten(pages: seq<seq<SafetyEvent>>, toLocal: string -> string)
    ensures PagesRows(pages, toLocal) == EventListRows(Flatten(pages), toLocal)
  {
    if pages != [] {
      PagesRowsFlatten(pages[..|pages| - 1], toLocal);
      EventListRowsAppend(Flatten(pages[..|pages| - 1]), pages[|pages| - 1], toLocal);
    }
  }

  lemma LabelRowsStep(e: SafetyEvent, labels: seq<NamedRef>, j: nat, toLocal: string -> string)
    requires j < |labels|
    ensures var name := LabelName(labels[j]);
      LabelRows(e, labels[..j + 1], toLocal)
      == LabelRows(e, labels[..j], toLocal) + (if IsIgnoredLabel(name) then [] else [SafetyRow(e, name, toLocal)])
  {
    assert labels[..j + 1][..j] == labels[..j];
  }

  lemma EventListRowsStep(events: seq<SafetyEvent>, i: nat, toLocal: string -> string)
    requires i < |events|
    ensures EventListRows(events[..i + 1], toLocal)
            == EventListRows(events[..i], toLocal) + EventRows(events[i], toLocal)
  {
    assert events[..i + 1][..i] == events[..i];
  }

  lemma PagesRowsStep(pages: seq<seq<SafetyEvent>>, p: nat, toLocal: string -> string)
    requires p < |pages|
    ensures PagesRows(pages[..p + 1], toLocal)
            == PagesRows(pages[..p], toLocal) + EventListRows(pages[p], toLocal)
  {
    assert pages[..p + 1][..p] == pages[..p];
  }

  /** The label loop of one event (lines 85-102): appends the event's rows to
      `combined`. */
  method AppendEventRows(combined: seq<EventRow>, event: SafetyEvent, toLocal: string -> string)
    returns (result: seq<EventRow>)
    ensures result == combined + EventRows(event, toLocal)
  {
    var driverName := NameOr(event.driver, UNKNOWN);
    var vehicleName := NameOr(event.vehicle, NO_VEHICLE);
    var eventTime := EventTime(event, toLocal);
    var labels := event.behaviorLabels;
    result := combined;
    for j := 0 to |labels|
      invariant result == combined + LabelRows(event, labels[..j], toLocal)
    {
      var eventLabel := LabelName(labels[j]);
      LabelRowsStep(event, labels, j, toLocal);
      if !IsIgnoredLabel(eventLabel) {
        result := result + [EventRow(SAFETY_ORIGIN, driverName, vehicleName,
                                     "", "", "", "", RewriteSpeedAlert(eventLabel), eventTime, None, None)];
      }
    }
    assert labels[..|labels|] == labels;
  }

  /** The event loop over one page (line 77). */
  method AppendPageRows(combined: seq<EventRow>, events: seq<SafetyEvent>, toLocal: string -> string)
    returns (result: seq<EventRow>)
    ensures result == combined + EventListRows(events, toLocal)
  {
    result := combined;
    for i := 0 to |events|
      invariant result == combined + EventListRows(events[..i], toLocal)
    {
      EventListRowsStep(events, i, toLocal);
      AppendAssociative(combined, EventListRows(events[..i], toLocal), EventRows(events[i], toLocal));
      result := AppendEventRows(result, events[i], toLocal);
    }
    assert events[..|events|] == events;
  }

  /** The safety half of `combined_events` (lines 68-106): the cursor loop
      over the pages. */
  method CollectSafetyEvents(pages: seq<seq<SafetyEvent>>, toLocal: string -> string)
    returns (combined: seq<EventRow>)
    ensures combined == PagesRows(pages, toLocal)
  {
    combined := [];
    for p := 0 to |pages|
      invariant combined == PagesRows(pages[..p], toLocal)
    {
      PagesRowsStep(pages, p, toLocal);
      combined := AppendPageRows(combined, pages[p], toLocal);
    }
    assert pages[..|pages|] == pages;
  }
}
