# innsynsbot monitor, modelled in Dafny

innsynsbot watches the meeting calendar of Bodø's public records portal. At start-up it
discovers the content ids of the meetings of three committees (BYST, FORM, UTVPM). It then
polls them round robin: every tick fetches the detail page of the meeting under the cursor,
removes its script blocks, and compares the result with the stored snapshot. When a known
meeting's snapshot differs, it composes a change notification.

This project models that decision core:

- `Sanitize` is the script-stripping `replace` that turns a fetched page into a snapshot.
  - The regular expression is modelled by the blocks it matches, with its real case folding, `\b` and `\s`.
  - Its greedy body ends at the last `</script\s*>` closer that starts no later than the first exact `</script>`.
- `Discovery` is the in-page extractor (nested loops over tracked cells) and the emptiness check of `getContentIds`.
- `Compose` is the notification's subject and its HTML body, which is also sent as the text part.
- `Detect` is `checkId`:
  - the seed, unchanged and changed classification;
  - the value handed back to the tick;
  - the store after a run of checks of one id.
- `Cursor` is the `indexOf`-based successor rule and its behaviour over many ticks.
- `Monitor` is the tick as a state transition `Step` over the ids, the store and the cursor.
  - The class `Watcher` holds the same three pieces of mutable state, and its `Tick` method is proved to perform `Step`.
  - `Launch` discovers the ids and starts the watcher.

Inputs stand in for everything outside the core. The fetched page is `Option<string>` (`None` when the fetch fails). The text of the
page's `<t>` element is `Option<string>` (`None` when there is none), and the timestamp is an
opaque string. Discovery receives the page's `td` cells, each with its `data-utvalg` value and the
ids of its `.fc-content` markers.

In these places the code behaves differently from what one might expect, and the model follows the code:

- A tick whose fetch fails, or whose changed page has no `<t>` element, ends before the store write and before the cursor advance.
  - The failure is a rejected promise that the interval callback never handles (`Monitor.FetchFailureAbortsTick`, `Monitor.ChangeIsReported`).
  - Under Node's default handling of unhandled rejections since version 15, the process exits, so there is no next tick.
  - Only where unhandled rejections merely warn, for example with `--unhandled-rejections=warn` or on older Node, does the next tick try the same id again.
  - The round-robin guarantees are therefore stated for ticks that do not abort.
- A missing `<t>` element is fatal: `querySelector('t')` gives `null` and reading its text throws. Only an empty header falls back to the bare id in the subject.
- The "Gammel data" block of the notification shows the new snapshot, not the old one.
- An empty snapshot is falsy, so it is never stored. Once a non-empty snapshot is stored, a page that keeps yielding the empty snapshot is reported as changed on every tick.
- Duplicate ids are not harmless. `indexOf` always finds an id's first occurrence, so from the start of the list the cursor never gets past the second occurrence of any id.
  - With ids `[a, a, b]` the cursor stays on `a` forever (`Cursor.NeverReachesAfterRepeat`).
  - With ids `[a, b, a, c]` it cycles through `a` and `b`, and `c` is never polled (`Cursor.CyclesBeforeRepeat`).
- A snapshot may still contain `<script`:
  - an unclosed `<script` survives the sanitiser (`Sanitize.StripKeepsUnclosedScript`);
  - removing a complete block in one pass can join the text around it into a new tag, so `<scr<script></script>ipt>` becomes `<script>` (`Sanitize.StripCanRejoinScriptTag`).
- The source file has CRLF line endings. The template literal normalises them, so the body's line breaks are `\n`.

## Model

| member | source | states |
|---|---|---|
| Sanitize.SpaceRun | index.js:55 | the `\s*` run before `>` never reaches past the end of the text |
| Sanitize.SpaceRunIsMaximal | index.js:55 | `\s*` takes every white-space character in the run and stops at the first other one |
| Sanitize.CloserEnd | index.js:55 | a closer starts with `</script` in any case and ends with `>` inside the text |
| Sanitize.ExactCloseIsCloser | index.js:55 | an exact `</script>` is itself a closer that ends right after its `>` |
| Sanitize.LastCloser | index.js:55 | the scan for the body's end yields only positions where a closer starts |
| Sanitize.LastCloserIsCandidate | index.js:55 | the closer the scan settles on is reachable: no exact `</script>` lies between the opening tag and it |
| Sanitize.LastCloserIsLast | index.js:55 | every reachable closer lies at or before the one the scan settles on, so the greedy body takes the last one |
| Sanitize.BlockCloser | index.js:55 | a match at `i` requires `<script\b` there and a closer after the tag |
| Sanitize.BlockCloserIsLastCandidate | index.js:55 | the regex matches at `<script\b` exactly when a reachable closer exists; the closer used is the last reachable one |
| Sanitize.BlockEnd | index.js:55 | a matched block starts at `<script\b`, is at least 16 characters long, and ends inside the text |
| Sanitize.BlockEndIsScriptBlock | index.js:55 | each removed span begins with `<script\b` and ends with a reachable `</script\s*>` closer; where such a closer exists, a span is removed |
| Sanitize.StripFrom | index.js:56 | the global replace from position `i` never yields more than the remaining text |
| Sanitize.SkipsBlock | index.js:56 | after a removed block, the scan resumes right after its closer |
| Sanitize.StripFromSkipsBlock | index.js:56 | dropping a block keeps the output a subsequence of the input |
| Sanitize.StripFromKeepsChar | index.js:56 | keeping an unmatched character keeps the output a subsequence of the input |
| Sanitize.StripFromIsSubsequence | index.js:56 | the replace's output from `i` is a subsequence of the input from `i` |
| Sanitize.Strip | index.js:55-56 | the snapshot is never longer than the page and is a subsequence of it |
| Sanitize.KeptWithoutTag | index.js:56 | where no `<script` starts, the character is kept and the scan moves on by one |
| Sanitize.StripFromCopiesPlainText | index.js:56 | text in which no `<script` starts is copied verbatim |
| Sanitize.StripWithoutScriptIsIdentity | index.js:55-56 | a page containing no `<script` (any case) is its own snapshot |
| Sanitize.StripKeepsUnclosedScript | index.js:55-56 | `<script>` with no closer is left in the snapshot |
| Sanitize.EmptyBlockAt | index.js:55 | a bare `<script></script>` is matched as one block, ending right after it |
| Sanitize.StripCanRejoinScriptTag | index.js:55-56 | `<scr<script></script>ipt>` becomes `<script>`: one pass of the replace can leave a new `<script` behind |
| Sanitize.StripRemovesCompleteBlock | index.js:55-56 | `<script></script >` is removed entirely, white space before `>` included |
| Discovery.Tracked | index.js:31 | a cell is tracked exactly when its `data-utvalg` is BYST, FORM or UTVPM |
| Discovery.TrackedIds | index.js:31-38 | every collected id is held by some tracked cell |
| Discovery.TrackedIdsMembership | index.js:31-38 | an id is collected exactly when some BYST, FORM or UTVPM cell holds it |
| Discovery.UntrackedCellsAddNothing | index.js:31 | cells without a tracked committee code contribute no ids |
| Discovery.ExtractContentIds | index.js:30-41 | the nested loops collect the marker ids of the tracked cells, in cell order then marker order |
| Discovery.GetContentIds | index.js:30-44 | fails exactly when no tracked cell holds a marker; otherwise returns the non-empty collected ids |
| Compose.ChangeMail | index.js:74-95 | the notification's text part is the same as its HTML part |
| Compose.ChangeSubject | index.js:93 | the subject starts with `Forandring i møteplanen: (`, ends with `)`, and is as long as the prefix, the header and a space when the header is non-empty, the id and the `)` |
| Compose.SubjectNamesMeeting | index.js:93 | the subject is exactly `Forandring i møteplanen: (<header> <id>)` when the header is non-empty, and `Forandring i møteplanen: (<id>)` otherwise |
| Compose.ChangeBody | index.js:74-89 | the body is the template's 393 fixed characters plus the timestamp once, the detail URL twice and the new snapshot twice |
| Compose.ChangeBodyShowsNewDataTwice | index.js:74-89 | the body carries the timestamp line, the link to `baseUrl/motedag/<id>`, and the new snapshot in both the "Ny data" and the "Gammel data" block |
| Cursor.IndexOf | index.js:121 | `indexOf` gives -1 or a position inside `ids` |
| Cursor.IndexOfIsFirstOccurrence | index.js:121 | `indexOf` gives -1 exactly for absent ids, and otherwise the first position holding the id |
| Cursor.NextCursor | index.js:121-125 | the cursor always moves to a member of `ids` |
| Cursor.Iterate | index.js:114-125 | starting from a member of `ids`, the cursor after any number of ticks is a member of `ids` |
| Cursor.Visits | index.js:115-126 | `t` ticks poll `t` ids |
| Cursor.CursorStaysInIds | index.js:114-125 | starting from a member of `ids`, the cursor and every polled id stay members of `ids` for any number of ticks |
| Cursor.IndexOfDistinct | index.js:121 | with distinct ids, `indexOf` finds each id at its own position |
| Cursor.NextCursorOfDistinct | index.js:121-125 | with distinct ids, the cursor moves from position `j` to `j + 1`, and from the last position to `ids[0]` |
| Cursor.VisitsSplit | index.js:115-126 | `a + b` ticks are `a` ticks followed by `b` more |
| Cursor.VisitsRun | index.js:121-125 | with distinct ids, ticks from position `j` poll the following ids in order and then wrap to `ids[0]` |
| Cursor.FullCycle | index.js:114-125 | with distinct ids, `ids.length` ticks from position `j` poll `ids[j..]` then `ids[..j]` and return to `ids[j]` |
| Cursor.EachIdOncePerCycle | index.js:114-125 | with distinct ids, every id is polled exactly once in every `ids.length` consecutive ticks |
| Cursor.StuckOnRepeatedId | index.js:121-125 | when an id's first occurrence is directly followed by a copy, the cursor stays on that id forever |
| Cursor.CyclesBeforeRepeat | index.js:121-125 | with ids `[a, b, a, c]` and the cursor on `a` or `b`, `c` is never polled: the second `a` sends the cursor back to `b` |
| Cursor.NeverReachesAfterRepeat | index.js:121-125 | with ids `[a, a, b]` and the cursor on `a`, `b` is never polled |
| Detect.Classify | index.js:66 | a change exactly when a stored snapshot exists and differs; a first sighting exactly when nothing is stored; unchanged exactly when the stored snapshot equals the new one |
| Detect.Truthy | index.js:117 | the returned values that do not cause a store write are exactly `null` and the empty string |
| Detect.Returned | index.js:104 | `null` exactly when the snapshot is unchanged, otherwise the new snapshot |
| Detect.After | index.js:116-119 | after a check, the store holds the new snapshot when it is non-empty and the previous value otherwise |
| Detect.CheckId | index.js:62-105 | a failed fetch fails the check; a change with no `<t>` element fails it; otherwise the verdict and return value follow the classification, and a notification is composed exactly for a change, with the header, the id, the new snapshot and the timestamp |
| Detect.Replay | index.js:116-119 | after a run of checks of one id, the store holds the last snapshot when it is non-empty, whatever came before; when every snapshot is empty it holds what it held before |
| Detect.LastNonEmpty | index.js:117-118 | the last non-empty snapshot of a run is the fallback or a non-empty snapshot of the run |
| Detect.ReplaySnoc | index.js:116-119 | one more check acts on the store that the earlier checks left |
| Detect.ReplayIsLastNonEmpty | index.js:116-119 | after any run of checks of one id, the store holds the last non-empty snapshot of the run, or what it held before when every snapshot was empty; so `["a", "b", ""]` leaves `"b"` |
| Detect.Verdicts | index.js:62-105 | a run of checks yields one verdict per fetched snapshot |
| Detect.EmptySnapshotNeverStored | index.js:116-119 | after any run of checks, the store holds either what it held before or a non-empty snapshot fetched in the run |
| Detect.ChangeMeansDiffersFromPrevious | index.js:66 | with non-empty snapshots, a change is reported exactly when the snapshot differs from the previous one, and only the first check can be a first sighting |
| Detect.RecheckIsIdempotent | index.js:104 | re-checking the stored snapshot any number of times reports only "unchanged" and leaves the store as it was |
| Detect.EmptyRefetchReportsEveryTime | index.js:66-104 | with a non-empty snapshot stored, an empty snapshot is reported as a change on every check and the store keeps the old one |
| Monitor.Lookup | index.js:63 | `siteData.get(id)` is defined exactly for stored ids and then gives the stored snapshot |
| Monitor.Step | index.js:115-126 | a tick keeps the ids; an aborted tick changes nothing; a completed one moves the cursor by the `indexOf` rule |
| Monitor.TickKeepsValid | index.js:114-125 | a tick keeps the cursor a member of the non-empty id list |
| Monitor.TickKeepsOtherEntries | index.js:116-119 | a tick leaves every entry of `siteData` other than the current id's unchanged |
| Monitor.TickWritesOnlyNonEmptySnapshot | index.js:116-119 | the store changes only on a completed tick with a non-empty snapshot, and then only by writing it under the current id |
| Monitor.TickStoresNonEmptySnapshot | index.js:116-119 | after a completed tick, the current id holds the new snapshot when it is non-empty and its previous value otherwise |
| Monitor.FirstCheckSeeds | index.js:62-118 | the first check of an id reports nothing and stores the snapshot unless it is empty |
| Monitor.RecheckChangesNothing | index.js:62-119 | re-checking an unchanged snapshot reports nothing and leaves the store alone |
| Monitor.ChangeIsReported | index.js:66-93 | a differing snapshot of a stored id yields the change notification; without a `<t>` element the tick aborts and nothing changes |
| Monitor.FetchFailureAbortsTick | index.js:115-126 | a failed fetch aborts the tick, leaving the store and the cursor as they were |
| Monitor.Run | index.js:115-126 | ticks never change the id list |
| Monitor.Polled | index.js:115-126 | the ticks poll one id each |
| Monitor.SnapshotsOf | index.js:115-126 | the ticks check at most one snapshot each for a given id |
| Monitor.RunReplaysEachId | index.js:115-126 | over any run of ticks, each id's store entry evolves as `Detect.Replay` of the snapshots checked for that id; ticks on other ids and aborted ticks leave it alone |
| Monitor.RunFollowsCursor | index.js:114-126 | ticks that do not abort, including those whose page lacks a `<t>` element but reports no change, poll the ids in the cursor's round-robin order and leave the cursor where that order says |
| Monitor.CompleteInputsNeverAbort | index.js:62-71 | ticks whose page is fetched and carries a `<t>` element never abort |
| Monitor.EveryIdOncePerCycle | index.js:114-126 | with distinct ids, `ids.length` ticks that do not abort poll every id exactly once and bring the cursor back to where it started |
| Monitor.ThreeMeetingScenario | index.js:62-126 | over meetings A, B and C, three ticks seed the store silently and a new snapshot of A on the fourth is reported, stored, and moves the cursor to B |
| Monitor.RoundOfThree | index.js:121-125 | over ids A, B, C the cursor goes A, B, C and back to A |
| Monitor.PlainTextKept | index.js:55-56 | markup without `<` is its own snapshot |
| Monitor.Watcher.constructor | index.js:112-114 | the watcher starts with the discovered ids, an empty store and the cursor on the first id |
| Monitor.Watcher.Tick | index.js:115-126 | the tick updates the fields exactly as `Step` prescribes, returns its outcome, and keeps the cursor a member of the ids |
| Monitor.Launch | index.js:108-114 | start-up fails exactly when discovery finds no id; otherwise it yields a fresh watcher over the collected ids, with an empty store and the cursor on the first id |

## Left out

- Browser navigation, waiting, clicking and the DOM queries (`goto`, `waitForSelector`, `click`, `$eval`). They are foreign calls. The fetched page, the `<t>` text and the discovered cells are inputs.
- A `getAttribute('id')` that gives `null` for a marker without an `id` attribute. Marker ids are strings.
- Nested `td` cells and markers matched through more than one cell are not modelled. Each cell carries its own list of marker ids.
- The two-second settling delay and the `setInterval` timers for polling and heartbeat. Overlapping ticks are concurrency; a tick is one atomic step.
- Sending mail through Mailgun, its sender and recipient, the promise handling, and the "I am alive!" heartbeat, sent daily and once at start-up. These are network I/O; only the composed subject and body are modelled.
- `new Date().toUTCString()`. It is wall-clock time, and the timestamp is an input string.
- The dotenv configuration and all `console` logging. This includes the "Scraped new data" versus "matches" distinction, which affects only the log.
- The unhandled rejection that a failed tick produces is recorded as an aborted tick. The model does not capture that under Node's default mode since version 15 it ends the process; the multi-tick lemmas describe a monitor that survives it.
- JavaScript strings are UTF-16; Dafny characters are Unicode scalar values, so lone surrogates and code-unit positions are not modelled.
- The sanitiser's `\b` uses ASCII word characters and its case folding covers only the ASCII letters of `script`. This is what a regular expression without the `u` flag does.
