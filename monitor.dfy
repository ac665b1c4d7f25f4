/**
 * The polling loop: a `Watcher` holds the discovered ids, the snapshot store
 * `siteData` and the cursor `currentId`. Every tick checks the meeting under the
 * cursor, stores the returned snapshot when it is truthy, and advances the cursor.
 * Timers are not modelled: a tick is one atomic step whose fetched page, `<t>`
 * header text and timestamp are inputs.
 */
module Monitor {
  import opened Wrappers
  import opened Compose
  import Sanitize
  import Detect
  import Cursor
  import Discovery

  /** The monitor's state as a value. */
  datatype State = State(ids: seq<string>, siteData: map<string, string>, currentId: string)

  /** What one tick ends with: the check failed before the store write (nothing
      after it runs), or it completed with a verdict and possibly a notification. */
  datatype Outcome =
    | Aborted(failure: Detect.Failure)
    | Checked(verdict: Detect.Verdict, mail: Option<Mail>)

  /** The new state and the outcome of one tick. */
  datatype Transition = Transition(next: State, outcome: Outcome)

  /** What the outside world supplies to one tick. */
  datatype Input = Input(page: Option<string>, header: Option<string>, timestamp: string)

  /** The state every tick can rely on: discovery found ids and the cursor is one of them. */
  predicate Valid(st: State) {
    |st.ids| > 0 && st.currentId in st.ids
  }

  /** `siteData.get(id)`. */
  function Lookup(siteData: map<string, string>, id: string): (r: Option<string>)
    ensures r.Some? <==> id in siteData
    ensures r.Some? ==> r.value == siteData[id]
  {
    if id in siteData then Some(siteData[id]) else None
  }

  /** One tick of the polling interval. */
  function Step(st: State, page: Option<string>, header: Option<string>, timestamp: string): (t: Transition)
    requires |st.ids| > 0
    ensures t.next.ids == st.ids
    ensures t.outcome.Aborted? ==> t.next == st
    ensures t.outcome.Checked? ==> t.next.currentId == Cursor.NextCursor(st.ids, st.currentId)
  {
    match Detect.CheckId(Lookup(st.siteData, st.currentId), st.currentId, page, header, timestamp)
    case Failure(f) => Transition(st, Aborted(f))
    case Success(report) =>
      var siteData :=
        if Detect.Truthy(report.returned) then st.siteData[st.currentId := report.returned.value]
        else st.siteData;
      Transition(State(st.ids, siteData, Cursor.NextCursor(st.ids, st.currentId)),
                 Checked(report.verdict, report.mail))
  }

  /** A tick keeps the state valid. */
  lemma TickKeepsValid(st: State, page: Option<string>, header: Option<string>, timestamp: string)
    requires Valid(st)
    ensures Valid(Step(st, page, header, timestamp).next)
  {
  }

  /** A tick touches no entry of `siteData` but the current id's. */
  lemma TickKeepsOtherEntries(st: State, page: Option<string>, header: Option<string>, timestamp: string)
    requires |st.ids| > 0
    ensures Step(st, page, header, timestamp).next.siteData - {st.currentId} == st.siteData - {st.currentId}
  {
  }

  /** A tick changes the store only by writing the new non-empty snapshot of a
      completed check under the current id. */
  lemma TickWritesOnlyNonEmptySnapshot(st: State, page: Option<string>, header: Option<string>, timestamp: string)
    requires |st.ids| > 0
    ensures var t := Step(st, page, header, timestamp);
      t.next.siteData != st.siteData ==>
        && t.outcome.Checked? && page.Some? && Sanitize.Strip(page.value) != ""
        && t.next.siteData == st.siteData[st.currentId := Sanitize.Strip(page.value)]
  {
  }

  /** After a completed check the current id holds the new snapshot when it is
      non-empty, and what it held before otherwise. */
  lemma TickStoresNonEmptySnapshot(st: State, page: Option<string>, header: Option<string>, timestamp: string)
    requires |st.ids| > 0
    ensures var t := Step(st, page, header, timestamp);
      t.outcome.Checked? ==>
        Lookup(t.next.siteData, st.currentId)
        == Detect.After(Lookup(st.siteData, st.currentId), Sanitize.Strip(page.value))
  {
  }

  /** The first check of an id reports nothing and seeds the store with the snapshot
      (unless it is empty), whatever the header. */
  lemma FirstCheckSeeds(st: State, html: string, header: Option<string>, timestamp: string)
    requires |st.ids| > 0 && st.currentId !in st.siteData
    ensures var t := Step(st, Some(html), header, timestamp);
      var newData := Sanitize.Strip(html);
      && t.outcome == Checked(Detect.FirstSeen, None)
      && t.next.siteData == if newData != "" then st.siteData[st.currentId := newData] else st.siteData
  {
  }

  /** Re-checking an unchanged snapshot reports nothing and leaves the store alone. */
  lemma RecheckChangesNothing(st: State, html: string, header: Option<string>, timestamp: string)
    requires |st.ids| > 0 && Lookup(st.siteData, st.currentId) == Some(Sanitize.Strip(html))
    ensures var t := Step(st, Some(html), header, timestamp);
      t.outcome == Checked(Detect.Unchanged, None) && t.next.siteData == st.siteData
  {
  }

  /** A differing snapshot of a known id is reported with the change notification;
      without a `<t>` element the tick aborts and nothing changes. */
  lemma ChangeIsReported(st: State, html: string, header: Option<string>, timestamp: string)
    requires |st.ids| > 0 && st.currentId in st.siteData
    requires st.siteData[st.currentId] != Sanitize.Strip(html)
    ensures var t := Step(st, Some(html), header, timestamp);
      var newData := Sanitize.Strip(html);
      && (header.Some? ==>
            t.outcome == Checked(Detect.Changed, Some(ChangeMail(st.currentId, header.value, newData, timestamp))))
      && (header.None? ==> t.outcome == Aborted(Detect.HeaderMissing) && t.next == st)
  {
  }

  /** A page that cannot be fetched aborts the tick before the store write and the
      cursor advance, so the state is left as it was. */
  lemma FetchFailureAbortsTick(st: State, header: Option<string>, timestamp: string)
    requires |st.ids| > 0
    ensures Step(st, None, header, timestamp) == Transition(st, Aborted(Detect.FetchFailed))
  {
  }

  /** A tick that cannot abort whatever the store holds: the page was fetched and
      the header is present. */
  predicate Complete(input: Input) {
    input.page.Some? && input.header.Some?
  }

  /** No tick of the run aborts: each one completes its check. */
  predicate NoAbort(st: State, inputs: seq<Input>)
    requires |st.ids| > 0
    decreases |inputs|
  {
    |inputs| == 0 ||
      var t := Step(st, inputs[0].page, inputs[0].header, inputs[0].timestamp);
      t.outcome.Checked? && NoAbort(t.next, inputs[1..])
  }

  /** The state after the given ticks. */
  function Run(st: State, inputs: seq<Input>): (r: State)
    requires |st.ids| > 0
    ensures r.ids == st.ids
    decreases |inputs|
  {
    if |inputs| == 0 then st
    else Run(Step(st, inputs[0].page, inputs[0].header, inputs[0].timestamp).next, inputs[1..])
  }

  /** The ids the given ticks check, in order. */
  function Polled(st: State, inputs: seq<Input>): (p: seq<string>)
    requires |st.ids| > 0
    ensures |p| == |inputs|
    decreases |inputs|
  {
    if |inputs| == 0 then []
    else [st.currentId] + Polled(Step(st, inputs[0].page, inputs[0].header, inputs[0].timestamp).next, inputs[1..])
  }

  /** The snapshots that the given ticks check for `id`: the stripped pages of the
      completed ticks whose cursor was on `id`, in order. */
  function SnapshotsOf(st: State, inputs: seq<Input>, id: string): (snaps: seq<string>)
    requires |st.ids| > 0
    ensures |snaps| <= |inputs|
    decreases |inputs|
  {
    if |inputs| == 0 then []
    else
      var input := inputs[0];
      var t := Step(st, input.page, input.header, input.timestamp);
      (if t.outcome.Checked? && st.currentId == id && input.page.Some? then [Sanitize.Strip(input.page.value)] else [])
      + SnapshotsOf(t.next, inputs[1..], id)
  }

  /** Over any run of ticks, each id's entry evolves as the per-id replay of the
      snapshots checked for that id; ticks on other ids and aborted ticks leave it alone. */
  lemma {:induction false} RunReplaysEachId(st: State, inputs: seq<Input>, id: string)
    requires |st.ids| > 0
    ensures Lookup(Run(st, inputs).siteData, id)
      == Detect.Replay(Lookup(st.siteData, id), SnapshotsOf(st, inputs, id))
    decreases |inputs|
  {
    if |inputs| > 0 {
      var input := inputs[0];
      var t := Step(st, input.page, input.header, input.timestamp);
      var rest := SnapshotsOf(t.next, inputs[1..], id);
      RunReplaysEachId(t.next, inputs[1..], id);
      if t.outcome.Checked? && st.currentId == id && input.page.Some? {
        TickStoresNonEmptySnapshot(st, input.page, input.header, input.timestamp);
        var snap := Sanitize.Strip(input.page.value);
        assert ([snap] + rest)[1..] == rest;
      } else {
        if t.outcome.Checked? && st.currentId != id {
          TickKeepsOtherEntries(st, input.page, input.header, input.timestamp);
          assert id in t.next.siteData <==> id in st.siteData;
        }
        assert [] + rest == rest;
      }
    }
  }

  /** When no tick aborts, the ticks poll the ids in the cursor's round-robin order. */
  lemma {:induction false} RunFollowsCursor(st: State, inputs: seq<Input>)
    requires |st.ids| > 0
    requires NoAbort(st, inputs)
    ensures Polled(st, inputs) == Cursor.Visits(st.ids, st.currentId, |inputs|)
    ensures Run(st, inputs).currentId == Cursor.Iterate(st.ids, st.currentId, |inputs|)
    decreases |inputs|
  {
    if |inputs| > 0 {
      var input := inputs[0];
      var t := Step(st, input.page, input.header, input.timestamp);
      RunFollowsCursor(t.next, inputs[1..]);
      Cursor.VisitsStep(st.ids, st.currentId, |inputs|);
    }
  }

  /** Ticks whose page is fetched and carries a `<t>` element never abort. */
  lemma {:induction false} CompleteInputsNeverAbort(st: State, inputs: seq<Input>)
    requires |st.ids| > 0
    requires forall k :: 0 <= k < |inputs| ==> Complete(inputs[k])
    ensures NoAbort(st, inputs)
    decreases |inputs|
  {
    if |inputs| > 0 {
      assert Complete(inputs[0]);
      var t := Step(st, inputs[0].page, inputs[0].header, inputs[0].timestamp);
      CompleteInputsNeverAbort(t.next, inputs[1..]);
    }
  }

  /** With distinct ids, `|ids|` ticks in a row that do not abort check every id
      exactly once, and the cursor is back where it started. */
  lemma EveryIdOncePerCycle(st: State, inputs: seq<Input>, x: string)
    requires Valid(st) && Cursor.Distinct(st.ids) && x in st.ids
    requires |inputs| == |st.ids| && NoAbort(st, inputs)
    ensures multiset(Polled(st, inputs))[x] == 1
    ensures Run(st, inputs).currentId == st.currentId
  {
    RunFollowsCursor(st, inputs);
    var j :| 0 <= j < |st.ids| && st.ids[j] == st.currentId;
    Cursor.EachIdOncePerCycle(st.ids, j, x);
    Cursor.FullCycle(st.ids, j);
  }

  /** Three meetings A, B and C: three ticks seed the store without notifications;
      the fourth fetches a new snapshot of A, which is reported and stored, and the
      cursor moves on to B. */
  lemma ThreeMeetingScenario(header: string)
    ensures var st0 := State(["A", "B", "C"], map[], "A");
      var t1 := Step(st0, Some("x"), Some(header), "t1");
      var t2 := Step(t1.next, Some("y"), Some(header), "t2");
      var t3 := Step(t2.next, Some("z"), Some(header), "t3");
      var t4 := Step(t3.next, Some("x2"), Some(header), "t4");
      && t1.outcome == Checked(Detect.FirstSeen, None) && t1.next.siteData == map["A" := "x"]
      && t2.outcome == Checked(Detect.FirstSeen, None) && t2.next.siteData == map["A" := "x", "B" := "y"]
      && t3.outcome == Checked(Detect.FirstSeen, None) && t3.next.currentId == "A"
      && t4.outcome == Checked(Detect.Changed, Some(ChangeMail("A", header, "x2", "t4")))
      && t4.next.siteData == map["A" := "x2", "B" := "y", "C" := "z"]
      && t4.next.currentId == "B"
  {
    var ids := ["A", "B", "C"];
    RoundOfThree();
    var st0 := State(ids, map[], "A");
    var st1 := State(ids, map["A" := "x"], "B");
    var st2 := State(ids, map["A" := "x", "B" := "y"], "C");
    var st3 := State(ids, map["A" := "x", "B" := "y", "C" := "z"], "A");
    var st4 := State(ids, map["A" := "x2", "B" := "y", "C" := "z"], "B");
    PlainTextKept("x");
    FirstCheckSeeds(st0, "x", Some(header), "t1");
    assert Step(st0, Some("x"), Some(header), "t1").next == st1;
    PlainTextKept("y");
    FirstCheckSeeds(st1, "y", Some(header), "t2");
    assert Step(st1, Some("y"), Some(header), "t2").next == st2;
    PlainTextKept("z");
    FirstCheckSeeds(st2, "z", Some(header), "t3");
    assert Step(st2, Some("z"), Some(header), "t3").next == st3;
    PlainTextKept("x2");
    ChangeIsReported(st3, "x2", Some(header), "t4");
    TickStoresNonEmptySnapshot(st3, Some("x2"), Some(header), "t4");
    TickWritesOnlyNonEmptySnapshot(st3, Some("x2"), Some(header), "t4");
    assert st3.siteData["A" := "x2"] == st4.siteData;
  }

  /** Over the ids A, B, C the cursor goes A, B, C and back to A. */
  lemma RoundOfThree()
    ensures var ids := ["A", "B", "C"];
      Cursor.NextCursor(ids, "A") == "B" && Cursor.NextCursor(ids, "B") == "C"
      && Cursor.NextCursor(ids, "C") == "A"
  {
    var ids := ["A", "B", "C"];
    Cursor.IndexOfIsFirstOccurrence(ids, "A");
    Cursor.IndexOfIsFirstOccurrence(ids, "B");
    Cursor.IndexOfIsFirstOccurrence(ids, "C");
  }

  /** Markup without `<` passes the sanitiser unchanged. */
  lemma PlainTextKept(html: string)
    requires forall k :: 0 <= k < |html| ==> html[k] != '<'
    ensures Sanitize.Strip(html) == html
  {
    Sanitize.StripWithoutScriptIsIdentity(html);
  }

  /** The running monitor: the module-level `ids`, `siteData` and `currentId`. */
  class Watcher {
    var ids: seq<string>
    var siteData: map<string, string>
    var currentId: string

    /** The fields as a `State`. */
    function View(): State
      reads this
    {
      State(ids, siteData, currentId)
    }

    /** Start polling with the discovered ids, an empty store and the cursor on the first id. */
    constructor (discovered: seq<string>)
      requires |discovered| > 0
      ensures Valid(View())
      ensures ids == discovered && siteData == map[] && currentId == discovered[0]
    {
      ids := discovered;
      siteData := map[];
      currentId := discovered[0];
    }

    /** One tick of the interval callback. */
    method Tick(page: Option<string>, header: Option<string>, timestamp: string) returns (outcome: Outcome)
      requires Valid(View())
      modifies this
      ensures Valid(View())
      ensures Step(old(View()), page, header, timestamp) == Transition(View(), outcome)
    {
      ghost var before := View();
      var checked := Detect.CheckId(Lookup(siteData, currentId), currentId, page, header, timestamp);
      if checked.Failure? {
        return Aborted(checked.error);
      }
      var newData := checked.value.returned;
      if Detect.Truthy(newData) {
        siteData := siteData[currentId := newData.value];
      }
      var position := Cursor.IndexOf(ids, currentId);
      if position == |ids| - 1 {
        currentId := ids[0];
      } else {
        currentId := ids[position + 1];
      }
      outcome := Checked(checked.value.verdict, checked.value.mail);
      TickKeepsValid(before, page, header, timestamp);
    }
  }

  /** Discover the ids and start the watcher, or fail when there are none. */
  method Launch(cells: seq<Discovery.Cell>) returns (r: Result<Watcher, Discovery.DiscoveryError>)
    ensures r.Failure? <==> forall c :: c in cells && Discovery.Tracked(c) ==> c.markerIds == []
    ensures r.Success? ==>
      && fresh(r.value) && Valid(r.value.View())
      && r.value.ids == Discovery.TrackedIds(cells)
      && r.value.siteData == map[] && r.value.currentId == r.value.ids[0]
  {
    var found := Discovery.GetContentIds(cells);
    match found
    case Failure(e) =>
      r := Failure(e);
    case Success(ids) =>
      var w := new Watcher(ids);
      r := Success(w);
  }
}
