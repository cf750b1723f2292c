/**
 * The list model of the editor: the ordered path entries (the `Vec<PathBuf>`)
 * and the optional selection index (the `ListState`), with the three
 * operations the key handlers perform on them.
 *
 * Rust panics are modelled as `Err(Panic)`: `Vec::remove` with an index past
 * the end, and `usize` subtraction below zero (debug-build semantics).
 */
module ListModel {
  import opened Wrappers

  /** Where a new entry goes relative to the selected one. */
  datatype InsertionPoint = Before | After

  /** The ways the list operations can abort the program. */
  datatype Panic = RemoveOutOfBounds | SubtractOverflow

  /** The path entries in search order, and the selected index if any. */
  datatype Listing = Listing(paths: seq<string>, selected: Option<nat>)

  function Min(a: nat, b: nat): (m: nat) { if a <= b then a else b }

  /**
   * The selection invariant that start-up (src/main.rs:57-58), insert and
   * delete (src/main.rs:98-101) keep: an empty list has no selection, a
   * non-empty list always has one that indexes an entry.
   */
  predicate Valid(l: Listing) {
    if |l.paths| == 0 then l.selected == None
    else l.selected.Some? && l.selected.value < |l.paths|
  }

  /**
   * The weaker invariant the code as written keeps: an empty list may also
   * carry the stale selection 0.
   */
  predicate Tolerated(l: Listing) {
    if |l.paths| == 0 then l.selected == None || l.selected == Some(0)
    else l.selected.Some? && l.selected.value < |l.paths|
  }

  /** The list at start-up: the first entry is selected, if there is one. */
  function Initial(paths: seq<string>): (l: Listing)
    ensures l.paths == paths && Valid(l)
    ensures l.selected == (if |paths| == 0 then None else Some(0))
  {
    Listing(paths, if |paths| == 0 then None else Some(0))
  }

  /** The index a new entry is inserted at. */
  function InsertIndex(selected: Option<nat>, point: InsertionPoint, len: nat): (k: nat)
    ensures k <= len
    ensures selected.Some? && selected.value < len ==>
              k == if point == Before then selected.value else selected.value + 1
    ensures selected.None? && len == 0 ==> k == 0
  {
    var selectedIndex := if selected.Some? then selected.value else 0;
    var index := if point == Before then selectedIndex else selectedIndex + 1;
    Min(index, len)
  }

  /** A missing selection counts as entry 0, and a selection at or past the end inserts at the end. */
  lemma InsertIndexDefaults(selected: Option<nat>, point: InsertionPoint, len: nat)
    ensures selected.None? ==> InsertIndex(selected, point, len) == InsertIndex(Some(0), point, len)
    ensures selected.Some? && selected.value >= len ==> InsertIndex(selected, point, len) == len
  {
  }

  /** Inserts `entry` before or after the selection and selects it. */
  function Insert(l: Listing, entry: string, point: InsertionPoint): (r: Listing)
    ensures |r.paths| == |l.paths| + 1
    ensures r.selected == Some(InsertIndex(l.selected, point, |l.paths|))
    ensures var k := r.selected.value;
            r.paths[k] == entry && r.paths[..k] == l.paths[..k] && r.paths[k + 1..] == l.paths[k..]
    ensures Valid(r)
  {
    var k := InsertIndex(l.selected, point, |l.paths|);
    var paths := l.paths[..k] + [entry] + l.paths[k..];
    assert paths[..k] == l.paths[..k];
    assert paths[k + 1..] == l.paths[k..];
    Listing(paths, Some(k))
  }

  /**
   * Deletes the selected entry. The selection stays on the same index,
   * or moves to the new last entry, or becomes None on an empty list.
   */
  function Delete(l: Listing): (r: Result<Listing, Panic>)
    ensures r.Err? <==> l.selected.Some? && l.selected.value >= |l.paths|
    ensures r.Err? ==> r.error == RemoveOutOfBounds
    ensures l.selected.None? ==> r == Ok(l)
    ensures r.Ok? && l.selected.Some? ==>
              var i := l.selected.value;
              r.value.paths == l.paths[..i] + l.paths[i + 1..]
              && r.value.selected == (if |r.value.paths| == 0 then None else Some(Min(i, |r.value.paths| - 1)))
              && Valid(r.value)
  {
    match l.selected
    case None => Ok(l)
    case Some(i) =>
      if i >= |l.paths| then Err(RemoveOutOfBounds)
      else
        var paths := l.paths[..i] + l.paths[i + 1..];
        var newIndex := if i >= |paths| then (if |paths| == 0 then 0 else |paths| - 1) else i;
        Ok(Listing(paths, if |paths| == 0 then None else Some(newIndex)))
  }

  /** The Up key as written: one step towards the top, clamped at 0; no selection becomes 0. */
  function MoveUpAsWritten(l: Listing): (r: Listing)
    ensures r.paths == l.paths && r.selected.Some?
    ensures l.selected.None? ==> r.selected == Some(0)
    ensures l.selected == Some(0) ==> r == l
    ensures l.selected.Some? && l.selected.value > 0 ==> r.selected == Some(l.selected.value - 1)
  {
    match l.selected
    case Some(i) => Listing(l.paths, Some(if i > 0 then i - 1 else 0))
    case None => Listing(l.paths, Some(0))
  }

  /**
   * The Down key as written: one step towards the bottom, clamped at the last
   * index; no selection becomes 0. `paths.len() - 1` underflows on an empty list.
   */
  function MoveDownAsWritten(l: Listing): (r: Result<Listing, Panic>)
    ensures r.Err? <==> l.selected.Some? && |l.paths| == 0
    ensures r.Err? ==> r.error == SubtractOverflow
    ensures r.Ok? ==> r.value.paths == l.paths && r.value.selected.Some?
    ensures l.selected.None? ==> r == Ok(Listing(l.paths, Some(0)))
    ensures l.selected.Some? && |l.paths| > 0 ==>
              var i := l.selected.value;
              r.value.selected == Some(if i + 1 < |l.paths| then i + 1 else |l.paths| - 1)
  {
    match l.selected
    case Some(i) =>
      if |l.paths| == 0 then Err(SubtractOverflow)
      else Ok(Listing(l.paths, Some(if i < |l.paths| - 1 then i + 1 else |l.paths| - 1)))
    case None => Ok(Listing(l.paths, Some(0)))
  }

  /**
   * The Up key made a no-op on an empty list, so that the selection stays
   * None there, as delete leaves it (src/main.rs:98-99); otherwise as written.
   */
  function MoveUp(l: Listing): (r: Listing)
    ensures r.paths == l.paths
    ensures |l.paths| == 0 ==> r == l
    ensures |l.paths| > 0 ==> r == MoveUpAsWritten(l)
    ensures Valid(l) ==> Valid(r)
  {
    if |l.paths| == 0 then l else MoveUpAsWritten(l)
  }

  /**
   * The Down key made a no-op on an empty list, as Up is; otherwise as
   * written, which then cannot underflow.
   */
  function MoveDown(l: Listing): (r: Listing)
    ensures r.paths == l.paths
    ensures |l.paths| == 0 ==> r == l
    ensures |l.paths| > 0 ==> MoveDownAsWritten(l).Ok? && r == MoveDownAsWritten(l).value
    ensures Valid(l) ==> Valid(r)
  {
    if |l.paths| == 0 then l else MoveDownAsWritten(l).value
  }

  // ---------------------------------------------------------------------------
  // Properties
  // ---------------------------------------------------------------------------

  /** Insert keeps every existing entry, in its original relative order, around the new one. */
  lemma InsertKeepsOthers(l: Listing, entry: string, point: InsertionPoint)
    ensures var r := Insert(l, entry, point); var k := r.selected.value;
            r.paths[..k] + r.paths[k + 1..] == l.paths
  {
    var r := Insert(l, entry, point);
    var k := r.selected.value;
    assert l.paths == l.paths[..k] + l.paths[k..];
  }

  /** Deleting at the selection right after an insert gives back the original entries. */
  lemma DeleteUndoesInsert(l: Listing, entry: string, point: InsertionPoint)
    ensures Delete(Insert(l, entry, point)).Ok?
    ensures Delete(Insert(l, entry, point)).value.paths == l.paths
  {
    InsertKeepsOthers(l, entry, point);
  }

  /** On a valid listing, insert puts the entry at the selection (Before) or just below it (After). */
  lemma InsertAtSelection(l: Listing, entry: string, point: InsertionPoint)
    requires Valid(l)
    ensures var r := Insert(l, entry, point);
            if l.selected.None? then r == Listing([entry], Some(0))
            else r.selected == Some(if point == Before then l.selected.value else l.selected.value + 1)
  {
    var r := Insert(l, entry, point);
    if l.selected.None? {
      assert r.paths == [entry];
    }
  }

  /** The two insertions of the unit test of `insert_path_at_selection` (src/main.rs:417-460), step by step. */
  lemma InsertExample()
    ensures var l0 := Listing(["/usr/bin", "/bin", "/usr/local/bin"], Some(1));
            var l1 := Insert(l0, "/custom/bin", Before);
            var l2 := Insert(l1, "/another/bin", After);
            l1 == Listing(["/usr/bin", "/custom/bin", "/bin", "/usr/local/bin"], Some(1))
            && l2 == Listing(["/usr/bin", "/custom/bin", "/another/bin", "/bin", "/usr/local/bin"], Some(2))
  {
    var l0 := Listing(["/usr/bin", "/bin", "/usr/local/bin"], Some(1));
    var l1 := Insert(l0, "/custom/bin", Before);
    assert l1.paths == l0.paths[..1] + ["/custom/bin"] + l0.paths[1..];
    var l2 := Insert(l1, "/another/bin", After);
    assert l2.paths == l1.paths[..2] + ["/another/bin"] + l1.paths[2..];
  }

  /** On a valid listing delete never panics and keeps the listing valid. */
  lemma DeleteKeepsValid(l: Listing)
    requires Valid(l)
    ensures Delete(l).Ok? && Valid(Delete(l).value)
  {
  }

  /** Deleting the only entry leaves an empty list with no selection. */
  lemma DeleteLastRemaining(entry: string)
    ensures Delete(Listing([entry], Some(0))) == Ok(Listing([], None))
  {
  }

  /** Up at the top and Down at the bottom change nothing. */
  lemma MoveClampsAtEnds(l: Listing)
    requires Valid(l) && |l.paths| > 0
    ensures l.selected == Some(0) ==> MoveUp(l) == l
    ensures l.selected == Some(|l.paths| - 1) ==> MoveDown(l) == l
  {
  }

  /** Every operation of the code as written that does not panic keeps the weaker invariant. */
  lemma AsWrittenKeepsTolerated(l: Listing, entry: string, point: InsertionPoint)
    requires Tolerated(l)
    ensures Tolerated(Insert(l, entry, point))
    ensures Delete(l).Ok? ==> Tolerated(Delete(l).value)
    ensures Tolerated(MoveUpAsWritten(l))
    ensures MoveDownAsWritten(l).Ok? ==> Tolerated(MoveDownAsWritten(l).value)
  {
  }

  /**
   * Up on an empty list selects the non-existent entry 0, which breaks the
   * selection invariant; a following Delete or Down then panics.
   */
  lemma EmptyListUpSelectsMissingEntry()
    ensures Valid(Initial([]))
    ensures MoveUpAsWritten(Initial([])) == Listing([], Some(0))
    ensures !Valid(MoveUpAsWritten(Initial([])))
    ensures Delete(MoveUpAsWritten(Initial([]))) == Err(RemoveOutOfBounds)
    ensures MoveDownAsWritten(MoveUpAsWritten(Initial([]))) == Err(SubtractOverflow)
  {
  }
}
