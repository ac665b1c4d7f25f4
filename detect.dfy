/**
 * `checkId`: compare a freshly fetched snapshot of one meeting with the stored one,
 * compose a change notification when they differ, and hand back the value the
 * tick may store. Here `stored` is what `siteData.get(id)` gives (`None` for
 * `undefined`), and the raw page and the `<t>` header text are inputs.
 */
module Detect {
  import opened Wrappers
  import opened Compose
  import Sanitize

  /** The branch `checkId` takes. */
  datatype Verdict =
    | FirstSeen   // nothing stored yet: no notification
    | Unchanged   // the stored snapshot equals the new one
    | Changed     // a stored snapshot exists and differs: a notification is composed

  /** Why a check ends without a result: the page could not be fetched, or the
      changed page has no `<t>` element, so reading its text throws. */
  datatype Failure = FetchFailed | HeaderMissing

  /** What a successful check produces: its verdict, the notification (if any) and
      the value it returns to the tick (`None` stands for `null`). */
  datatype Report = Report(verdict: Verdict, mail: Option<Mail>, returned: Option<string>)

  /** The test `oldData !== newData && oldData !== undefined`, and which of the two
      other cases applies when it fails. */
  function Classify(stored: Option<string>, newData: string): (v: Verdict)
    ensures v == Changed <==> stored.Some? && stored.value != newData
    ensures v == FirstSeen <==> stored.None?
    ensures v == Unchanged <==> stored == Some(newData)
  {
    if stored != Some(newData) && stored.Some? then Changed
    else if stored.None? then FirstSeen
    else Unchanged
  }

  /** The return value `oldData !== newData ? newData : null`. */
  function Returned(stored: Option<string>, newData: string): (r: Option<string>)
    ensures r.None? <==> Classify(stored, newData) == Unchanged
    ensures r.Some? ==> r.value == newData
  {
    if stored != Some(newData) then Some(newData) else None
  }

  /** JavaScript truthiness of the returned value: `null` and `""` are falsy. */
  predicate Truthy(r: Option<string>): (t: bool)
    ensures t <==> r != None && r != Some("")
  {
    r.Some? && r.value != ""
  }

  /** The stored snapshot after the tick has acted on the returned value. */
  function After(stored: Option<string>, newData: string): (s: Option<string>)
    ensures s == if newData != "" then Some(newData) else stored
  {
    var r := Returned(stored, newData);
    if Truthy(r) then r else stored
  }

  /** `checkId` on a fetched page (`None` when the fetch fails): the snapshot is the
      page with its script blocks removed. */
  function CheckId(stored: Option<string>, id: string, page: Option<string>, header: Option<string>,
                   timestamp: string): (r: Result<Report, Failure>)
    ensures page.None? ==> r == Failure(FetchFailed)
    ensures page.Some? ==>
      var newData := Sanitize.Strip(page.value);
      && (r.Failure? <==> stored.Some? && stored.value != newData && header.None?)
      && (r.Failure? ==> r.error == HeaderMissing)
      && (r.Success? ==>
            && r.value.verdict == Classify(stored, newData)
            && r.value.returned == Returned(stored, newData)
            && (r.value.mail.Some? <==> stored.Some? && stored.value != newData)
            && (r.value.mail.Some? ==> r.value.mail.value == ChangeMail(id, header.value, newData, timestamp)))
  {
    match page
    case None => Failure(FetchFailed)
    case Some(html) =>
      var newData := Sanitize.Strip(html);
      var verdict := Classify(stored, newData);
      if verdict == Changed then
        match header
        case None => Failure(HeaderMissing)
        case Some(h) => Success(Report(verdict, Some(ChangeMail(id, h, newData, timestamp)), Returned(stored, newData)))
      else
        Success(Report(verdict, None, Returned(stored, newData)))
  }

  /** The stored snapshot of one id after successful checks that fetched `snaps`, in order.
      A non-empty last snapshot is what remains, whatever came before it; a run of empty
      snapshots leaves the store as it was. */
  function Replay(stored: Option<string>, snaps: seq<string>): (r: Option<string>)
    ensures |snaps| > 0 && snaps[|snaps| - 1] != "" ==> r == Some(snaps[|snaps| - 1])
    ensures (forall k :: 0 <= k < |snaps| ==> snaps[k] == "") ==> r == stored
    decreases |snaps|
  {
    if |snaps| == 0 then stored else Replay(After(stored, snaps[0]), snaps[1..])
  }

  /** The last non-empty snapshot of `snaps`, or `fallback` when there is none. */
  function LastNonEmpty(snaps: seq<string>, fallback: Option<string>): (r: Option<string>)
    ensures r == fallback || (r.Some? && r.value in snaps && r.value != "")
    decreases |snaps|
  {
    if |snaps| == 0 then fallback
    else if snaps[|snaps| - 1] != "" then Some(snaps[|snaps| - 1])
    else LastNonEmpty(snaps[..|snaps| - 1], fallback)
  }

  /** One more check acts on the store the earlier ones left. */
  lemma {:induction false} ReplaySnoc(stored: Option<string>, snaps: seq<string>, x: string)
    ensures Replay(stored, snaps + [x]) == After(Replay(stored, snaps), x)
    decreases |snaps|
  {
    if |snaps| > 0 {
      assert (snaps + [x])[1..] == snaps[1..] + [x];
      ReplaySnoc(After(stored, snaps[0]), snaps[1..], x);
    }
  }

  /** The store after a run of checks holds the last non-empty snapshot of the run,
      or what it held before when every snapshot was empty. */
  lemma {:induction false} ReplayIsLastNonEmpty(stored: Option<string>, snaps: seq<string>)
    ensures Replay(stored, snaps) == LastNonEmpty(snaps, stored)
    decreases |snaps|
  {
    if |snaps| > 0 {
      var front, last := snaps[..|snaps| - 1], snaps[|snaps| - 1];
      assert snaps == front + [last];
      ReplaySnoc(stored, front, last);
      ReplayIsLastNonEmpty(stored, front);
    }
  }

  /** The verdicts of those checks, in order. */
  function Verdicts(stored: Option<string>, snaps: seq<string>): (v: seq<Verdict>)
    ensures |v| == |snaps|
    decreases |snaps|
  {
    if |snaps| == 0 then [] else [Classify(stored, snaps[0])] + Verdicts(After(stored, snaps[0]), snaps[1..])
  }

  /** An empty snapshot is never stored: what is stored after any run of checks is
      either what was stored before or a non-empty snapshot of the run. */
  lemma {:induction false} EmptySnapshotNeverStored(stored: Option<string>, snaps: seq<string>)
    ensures var s := Replay(stored, snaps);
      s == stored || (s.Some? && s.value in snaps && s.value != "")
    decreases |snaps|
  {
    if |snaps| > 0 {
      var next := After(stored, snaps[0]);
      EmptySnapshotNeverStored(next, snaps[1..]);
      assert snaps == [snaps[0]] + snaps[1..];
    }
  }

  /** When every fetched snapshot is non-empty, a change is reported at step `i`
      exactly when the snapshot differs from the one before it (at step 0: from the
      stored one, if there is one), and only step 0 can be a first sighting. */
  lemma {:induction false} ChangeMeansDiffersFromPrevious(stored: Option<string>, snaps: seq<string>, i: nat)
    requires i < |snaps| && forall k :: 0 <= k < |snaps| ==> snaps[k] != ""
    ensures Verdicts(stored, snaps)[i] == Changed <==>
      if i == 0 then stored.Some? && stored.value != snaps[0] else snaps[i] != snaps[i - 1]
    ensures i > 0 ==> Verdicts(stored, snaps)[i] != FirstSeen
    decreases i
  {
    if i > 0 {
      var rest := snaps[1..];
      assert Verdicts(stored, snaps)[i] == Verdicts(Some(snaps[0]), rest)[i - 1];
      ChangeMeansDiffersFromPrevious(Some(snaps[0]), rest, i - 1);
    }
  }

  /** `n` copies of `x`. */
  function Repeat<X>(x: X, n: nat): (r: seq<X>)
    ensures |r| == n
  {
    if n == 0 then [] else [x] + Repeat(x, n - 1)
  }

  /** Re-checking the stored snapshot, any number of times, reports nothing and
      leaves the store as it was. */
  lemma {:induction false} RecheckIsIdempotent(s: string, n: nat)
    ensures Replay(Some(s), Repeat(s, n)) == Some(s)
    ensures Verdicts(Some(s), Repeat(s, n)) == Repeat(Unchanged, n)
  {
    if n > 0 {
      RecheckIsIdempotent(s, n - 1);
      assert Repeat(s, n)[1..] == Repeat(s, n - 1);
    }
  }

  /** Once a non-empty snapshot is stored, a page that keeps yielding the empty
      snapshot is reported as changed on every check, and the store keeps the old one. */
  lemma {:induction false} EmptyRefetchReportsEveryTime(x: string, n: nat)
    requires x != ""
    ensures Replay(Some(x), Repeat("", n)) == Some(x)
    ensures Verdicts(Some(x), Repeat("", n)) == Repeat(Changed, n)
  {
    if n > 0 {
      EmptyRefetchReportsEveryTime(x, n - 1);
      assert Repeat("", n)[1..] == Repeat("", n - 1);
    }
  }
}
