/**
 * The round-robin cursor of the polling loop. After each completed tick the cursor
 * moves from `currentId` to the id after the FIRST occurrence of `currentId` in
 * `ids` (`indexOf`), wrapping to `ids[0]` when that occurrence is the last element.
 */
module Cursor {

  /** JavaScript's `Array.prototype.indexOf` : the first position of `x`,
      or -1 when `x` does not occur. */
  function IndexOf<T(==)>(ids: seq<T>, x: T): (r: int)
    ensures -1 <= r < |ids|
  {
    if |ids| == 0 then -1
    else if ids[0] == x then 0
    else
      var k := IndexOf(ids[1..], x);
      if k == -1 then -1 else k + 1
  }

  /** `IndexOf` gives -1 exactly for absent ids, and otherwise a position holding `x`
      with no earlier one. */
  lemma {:induction false} IndexOfIsFirstOccurrence<T>(ids: seq<T>, x: T)
    ensures IndexOf(ids, x) == -1 <==> x !in ids
    ensures IndexOf(ids, x) >= 0 ==>
      ids[IndexOf(ids, x)] == x && forall j :: 0 <= j < IndexOf(ids, x) ==> ids[j] != x
  {
    if |ids| > 0 && ids[0] != x {
      IndexOfIsFirstOccurrence(ids[1..], x);
      assert ids == [ids[0]] + ids[1..];
      var k := IndexOf(ids[1..], x);
      if k >= 0 {
        forall j | 0 <= j < k + 1 ensures ids[j] != x {
          if j > 0 {
            assert ids[j] == ids[1..][j - 1];
          }
        }
      }
    }
  }

  /** The id the cursor moves to. An id that is not in `ids` moves to `ids[0]`,
      because `indexOf` gives -1 and `ids[-1 + 1]` is `ids[0]`. */
  function NextCursor<T(==)>(ids: seq<T>, current: T): (next: T)
    requires |ids| > 0
    ensures next in ids
  {
    var k := IndexOf(ids, current);
    if k == |ids| - 1 then ids[0] else ids[k + 1]
  }

  /** The cursor after `t` completed ticks. */
  function Iterate<T(==)>(ids: seq<T>, current: T, t: nat): (c: T)
    requires |ids| > 0
    ensures current in ids ==> c in ids
    decreases t
  {
    if t == 0 then current else Iterate(ids, NextCursor(ids, current), t - 1)
  }

  /** The ids polled by the next `t` completed ticks, in order. */
  function Visits<T(==)>(ids: seq<T>, current: T, t: nat): (v: seq<T>)
    requires |ids| > 0
    ensures |v| == t
    decreases t
  {
    if t == 0 then [] else [current] + Visits(ids, NextCursor(ids, current), t - 1)
  }

  /** No id occurs twice: the first does not recur, and neither does any later one. */
  predicate Distinct<T(==)>(ids: seq<T>) {
    |ids| == 0 || (ids[0] !in ids[1..] && Distinct(ids[1..]))
  }

  /** In a distinct sequence, positions that differ hold different ids. */
  lemma {:induction false} DistinctApart<T>(ids: seq<T>, a: nat, b: nat)
    requires Distinct(ids) && a < b < |ids|
    ensures ids[a] != ids[b]
  {
    if a == 0 {
      assert ids[b] == ids[1..][b - 1];
    } else {
      DistinctApart(ids[1..], a - 1, b - 1);
    }
  }

  /** In a distinct sequence, `indexOf` finds every id at its own position. */
  lemma {:induction false} IndexOfDistinct<T>(ids: seq<T>, j: nat)
    requires Distinct(ids) && j < |ids|
    ensures IndexOf(ids, ids[j]) == j
  {
    IndexOfIsFirstOccurrence(ids, ids[j]);
    var r := IndexOf(ids, ids[j]);
    if r < j {
      DistinctApart(ids, r, j);
    }
  }

  /** Starting inside `ids`, the cursor never leaves it. */
  lemma {:induction false} CursorStaysInIds<T>(ids: seq<T>, current: T, t: nat)
    requires |ids| > 0 && current in ids
    ensures Iterate(ids, current, t) in ids
    ensures forall k :: 0 <= k < t ==> Visits(ids, current, t)[k] in ids
    decreases t
  {
    if t > 0 {
      CursorStaysInIds(ids, NextCursor(ids, current), t - 1);
      var rest := Visits(ids, NextCursor(ids, current), t - 1);
      assert Visits(ids, current, t) == [current] + rest;
      forall k | 0 <= k < t ensures Visits(ids, current, t)[k] in ids {
        if k > 0 {
          assert Visits(ids, current, t)[k] == rest[k - 1];
        }
      }
    }
  }

  /** With distinct ids, the cursor steps from position `j` to `j + 1`, wrapping at the end. */
  lemma {:induction false} NextCursorOfDistinct<T>(ids: seq<T>, j: nat)
    requires Distinct(ids) && j < |ids|
    ensures NextCursor(ids, ids[j]) == if j + 1 < |ids| then ids[j + 1] else ids[0]
  {
    IndexOfDistinct(ids, j);
  }

  /** One tick followed by `t - 1` more. */
  lemma VisitsStep<T>(ids: seq<T>, current: T, t: nat)
    requires |ids| > 0 && t > 0
    ensures Visits(ids, current, t) == [current] + Visits(ids, NextCursor(ids, current), t - 1)
    ensures Iterate(ids, current, t) == Iterate(ids, NextCursor(ids, current), t - 1)
  {
  }

  /** Ticks compose: `a + b` ticks are `a` ticks followed by `b` more. */
  lemma {:induction false} VisitsSplit<T>(ids: seq<T>, current: T, a: nat, b: nat, t: nat)
    requires |ids| > 0 && a + b == t
    ensures Visits(ids, current, t) == Visits(ids, current, a) + Visits(ids, Iterate(ids, current, a), b)
    ensures Iterate(ids, current, t) == Iterate(ids, Iterate(ids, current, a), b)
    decreases a
  {
    if a > 0 {
      var next := NextCursor(ids, current);
      VisitsStep(ids, current, t);
      VisitsStep(ids, current, a);
      VisitsSplit(ids, next, a - 1, b, t - 1);
    }
  }

  /** With distinct ids, `t` ticks from position `j` (not past the end) poll `ids[j..j + t]`
      in order, then point at the next position, or at `ids[0]` after the last one. */
  lemma {:induction false} VisitsRun<T>(ids: seq<T>, j: nat, t: nat)
    requires Distinct(ids) && j < |ids| && j + t <= |ids|
    ensures Visits(ids, ids[j], t) == ids[j..j + t]
    ensures Iterate(ids, ids[j], t) == if j + t < |ids| then ids[j + t] else ids[0]
    decreases t
  {
    if t > 0 {
      NextCursorOfDistinct(ids, j);
      VisitsStep(ids, ids[j], t);
      if j + 1 < |ids| {
        VisitsRun(ids, j + 1, t - 1);
        assert ids[j..j + t] == [ids[j]] + ids[j + 1..j + t];
      } else {
        assert t == 1;
      }
    }
  }

  /** From position `j`, `|ids| - j` ticks poll the rest of `ids` and wrap to `ids[0]`. */
  lemma {:induction false} RunToEnd<T>(ids: seq<T>, j: nat)
    requires Distinct(ids) && j < |ids|
    ensures Visits(ids, ids[j], |ids| - j) == ids[j..]
    ensures Iterate(ids, ids[j], |ids| - j) == ids[0]
  {
    var t := |ids| - j;
    VisitsRun(ids, j, t);
    assert ids[j..j + t] == ids[j..];
  }

  /** From `ids[0]`, `j` ticks poll `ids[..j]` and reach position `j`. */
  lemma {:induction false} RunFromStart<T>(ids: seq<T>, j: nat)
    requires Distinct(ids) && j < |ids|
    ensures Visits(ids, ids[0], j) == ids[..j]
    ensures Iterate(ids, ids[0], j) == ids[j]
  {
    VisitsRun(ids, 0, j);
  }

  /** Round robin: with distinct ids, every stretch of `|ids|` ticks that starts at
      position `j` polls `ids[j..]` then `ids[..j]`, and the cursor is back at `ids[j]`. */
  lemma {:induction false} FullCycle<T>(ids: seq<T>, j: nat)
    requires Distinct(ids) && j < |ids|
    ensures Visits(ids, ids[j], |ids|) == ids[j..] + ids[..j]
    ensures Iterate(ids, ids[j], |ids|) == ids[j]
  {
    var n := |ids|;
    VisitsSplit(ids, ids[j], n - j, j, n);
    RunToEnd(ids, j);
    RunFromStart(ids, j);
  }

  /** A distinct sequence holds each of its elements exactly once. */
  lemma {:induction false} DistinctCountsOnce<T>(ids: seq<T>, x: T)
    requires Distinct(ids) && x in ids
    ensures multiset(ids)[x] == 1
  {
    assert ids == [ids[0]] + ids[1..];
    if ids[0] != x {
      DistinctCountsOnce(ids[1..], x);
    }
  }

  /** With distinct ids, starting anywhere in `ids`, each id is polled exactly once in
      every `|ids|` consecutive ticks. */
  lemma {:induction false} EachIdOncePerCycle<T>(ids: seq<T>, j: nat, x: T)
    requires Distinct(ids) && j < |ids| && x in ids
    ensures multiset(Visits(ids, ids[j], |ids|))[x] == 1
  {
    FullCycle(ids, j);
    assert ids == ids[..j] + ids[j..];
    assert multiset(ids[j..] + ids[..j]) == multiset(ids);
    DistinctCountsOnce(ids, x);
  }

  /** Duplicates are not harmless: if the first occurrence of an id is immediately
      followed by a copy of it, the cursor stays on that id forever. */
  lemma {:induction false} StuckOnRepeatedId<T>(ids: seq<T>, j: nat, t: nat)
    requires j + 1 < |ids| && ids[j + 1] == ids[j] && IndexOf(ids, ids[j]) == j
    ensures Iterate(ids, ids[j], t) == ids[j]
    ensures Visits(ids, ids[j], t) == seq(t, _ => ids[j])
  {
    if t > 0 {
      assert NextCursor(ids, ids[j]) == ids[j];
      StuckOnRepeatedId(ids, j, t - 1);
    }
  }

  /** For example, with `ids = [a, a, b]` the id `b` is never polled. */
  lemma {:induction false} NeverReachesAfterRepeat<T>(a: T, b: T, t: nat)
    requires a != b
    ensures b !in Visits([a, a, b], a, t)
  {
    var ids := [a, a, b];
    assert IndexOf(ids, ids[0]) == 0;
    StuckOnRepeatedId(ids, 0, t);
  }

  /** A copy further on is just as harmful: with `ids = [a, b, a, c]` the cursor goes
      from `b` back to the first `a`, so it cycles through `a` and `b` and never polls `c`. */
  lemma {:induction false} CyclesBeforeRepeat<T>(a: T, b: T, c: T, current: T, t: nat)
    requires a != b && a != c && b != c && (current == a || current == b)
    ensures c !in Visits([a, b, a, c], current, t)
    decreases t
  {
    if t > 0 {
      var ids := [a, b, a, c];
      IndexOfIsFirstOccurrence(ids, current);
      var next := NextCursor(ids, current);
      assert next == if current == a then b else a;
      CyclesBeforeRepeat(a, b, c, next, t - 1);
    }
  }
}
