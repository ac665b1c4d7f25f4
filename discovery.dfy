/**
 * Content id discovery (`getContentIds`): after the yearly calendar is shown,
 * every `td` cell whose `data-utvalg` is one of the three tracked committee codes
 * contributes the `id` attributes of its `.fc-content` markers, in document order.
 * The page itself is not modelled: the cells arrive as a sequence, each with its
 * `data-utvalg` attribute (if any) and the ids of the markers it contains.
 */
module Discovery {
  import opened Wrappers

  /** One `td` cell of the page, in document order. */
  datatype Cell = Cell(utvalg: Option<string>, markerIds: seq<string>)

  /** Raised when the calendar yields no content id. */
  datatype DiscoveryError = NoContentIds

  /** The cell matches `td[data-utvalg="BYST"], td[data-utvalg="FORM"], td[data-utvalg="UTVPM"]`. */
  predicate Tracked(c: Cell): (t: bool)
    ensures t <==> c.utvalg.Some? && c.utvalg.value in {"BYST", "FORM", "UTVPM"}
  {
    c.utvalg == Some("BYST") || c.utvalg == Some("FORM") || c.utvalg == Some("UTVPM")
  }

  /** The ids a cell contributes. */
  function CellIds(c: Cell): seq<string> {
    if Tracked(c) then c.markerIds else []
  }

  /** The ids the extractor collects from `cells`, in cell order then marker order. */
  function TrackedIds(cells: seq<Cell>): (ids: seq<string>)
    ensures forall x :: x in ids ==> exists c :: c in cells && Tracked(c) && x in c.markerIds
  {
    if |cells| == 0 then [] else TrackedIds(cells[..|cells| - 1]) + CellIds(cells[|cells| - 1])
  }

  /** An id is collected exactly when some tracked cell holds it. */
  lemma {:induction false} TrackedIdsMembership(cells: seq<Cell>, x: string)
    ensures x in TrackedIds(cells) <==> exists c :: c in cells && Tracked(c) && x in c.markerIds
  {
    if |cells| > 0 {
      var front, last := cells[..|cells| - 1], cells[|cells| - 1];
      TrackedIdsMembership(front, x);
      assert cells == front + [last];
      if x in TrackedIds(cells) && x !in TrackedIds(front) {
        assert last in cells && Tracked(last) && x in last.markerIds;
      }
    }
  }

  /** Cells without the attribute, or with another committee code, add nothing. */
  lemma {:induction false} UntrackedCellsAddNothing(cells: seq<Cell>, extra: seq<Cell>)
    requires forall c :: c in extra ==> !Tracked(c)
    ensures TrackedIds(cells + extra) == TrackedIds(cells)
    decreases |extra|
  {
    if |extra| == 0 {
      assert cells + extra == cells;
    } else {
      var front, last := extra[..|extra| - 1], extra[|extra| - 1];
      assert last in extra;
      assert (cells + extra)[..|cells + extra| - 1] == cells + front;
      assert (cells + extra)[|cells + extra| - 1] == last;
      UntrackedCellsAddNothing(cells, front);
    }
  }

  /**
   * The in-page extractor: nested `forEach` loops that push each marker id of each
   * tracked cell onto `contentIds`.
   */
  method ExtractContentIds(cells: seq<Cell>) returns (contentIds: seq<string>)
    ensures contentIds == TrackedIds(cells)
  {
    contentIds := [];
    var i := 0;
    while i < |cells|
      invariant 0 <= i <= |cells|
      invariant contentIds == TrackedIds(cells[..i])
    {
      var td := cells[i];
      if Tracked(td) {
        var j := 0;
        while j < |td.markerIds|
          invariant 0 <= j <= |td.markerIds|
          invariant contentIds == TrackedIds(cells[..i]) + td.markerIds[..j]
        {
          contentIds := contentIds + [td.markerIds[j]];
          j := j + 1;
        }
        assert td.markerIds[..j] == td.markerIds;
      }
      assert cells[..i + 1][..i] == cells[..i];
      i := i + 1;
    }
    assert cells[..i] == cells;
  }

  /** `getContentIds`: the collected ids, or an error when there are none. */
  method GetContentIds(cells: seq<Cell>) returns (r: Result<seq<string>, DiscoveryError>)
    ensures r.Failure? <==> forall c :: c in cells && Tracked(c) ==> c.markerIds == []
    ensures r.Success? ==> |r.value| > 0 && r.value == TrackedIds(cells)
  {
    var results := ExtractContentIds(cells);
    if |results| > 0 {
      r := Success(results);
    } else {
      r := Failure(NoContentIds);
    }
    if r.Failure? {
      forall c | c in cells && Tracked(c) ensures c.markerIds == [] {
        if c.markerIds != [] {
          TrackedIdsMembership(cells, c.markerIds[0]);
        }
      }
    } else {
      TrackedIdsMembership(cells, results[0]);
    }
  }
}
