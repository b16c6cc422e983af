/**
  What every persisted drop batch carries: for each component still in the
  working copy, its id, its unchanged `position` and its new pane and slot.
  No branch changes a component's name, kind, content or position, and the
  ids of a batch are those of the snapshot, each at most once.
*/
module DropOutcomeProofs {
  import opened Sorting
  import opened Layout
  import opened DropPlanner
  import opened DropPlanProofs
  import opened DropInsertProofs

  /** A component without its placement in a pane. */
  function Unplaced(c: Component): (r: Component)
    ensures r.paneId.None? && r.panePosition.None?
    ensures r.(paneId := c.paneId, panePosition := c.panePosition) == c
  {
    c.(paneId := None, panePosition := None)
  }

  /** `c` is the snapshot's component with the same id, moved at most to
      another pane or slot. */
  ghost predicate Replaces(s: seq<Component>, c: Component) {
    match FindIndex(s, c.id)
    case None => false
    case Some(j) => Unplaced(c) == Unplaced(s[j])
  }

  /** A working copy that only re-places snapshot components, each at most once. */
  ghost predicate OnlyReplaced(s: seq<Component>, u: seq<Component>) {
    && UniqueIds(u)
    && forall i :: 0 <= i < |u| ==> Replaces(s, u[i])
  }

  /** An entry-wise re-placement of a list with unique ids only re-places. */
  lemma PointwiseOnlyReplaced(s: seq<Component>, u: seq<Component>)
    requires UniqueIds(s) && SameIds(s, u)
    requires forall i :: 0 <= i < |s| ==> Unplaced(u[i]) == Unplaced(s[i])
    ensures OnlyReplaced(s, u)
  {
    forall i | 0 <= i < |u| ensures Replaces(s, u[i]) {
      FindIndexOfUnique(s, i);
    }
  }

  lemma SamePaneOnlyReplaced(s: seq<Component>, src: Location, dst: Location)
    requires UniqueIds(s)
    ensures MoveWithinPane(s, src, dst).Rearranged? ==> OnlyReplaced(s, MoveWithinPane(s, src, dst).layout)
  {
    if src.index < |PaneOrder(s, src.droppableId)| {
      SamePaneMove(s, src, dst);
      PointwiseOnlyReplaced(s, MoveWithinPane(s, src, dst).layout);
    }
  }

  lemma SwapOnlyReplaced(s: seq<Component>, src: Location, dst: Location, id: Id)
    requires UniqueIds(s)
    requires src.droppableId != dst.droppableId
    requires FindIndex(s, id).Some?
    requires |OtherRealMembers(s, dst.droppableId, id)| >= 2
    ensures Rearrange(s, src, dst, id).Rearranged? ==> OnlyReplaced(s, Rearrange(s, src, dst, id).layout)
  {
    SwapEffect(s, src, dst, id);
    var r := Rearrange(s, src, dst, id);
    if r.Rearranged? {
      var ranked := SortBy(SlotLe, OtherRealMembers(s, dst.droppableId, id));
      TwoMovesOnlyReplace(s, r.layout, id, ranked[dst.index],
                          dst.droppableId, dst.index, src.droppableId, src.index);
      PointwiseOnlyReplaced(s, r.layout);
    }
  }

  /** Moving the entry `id` and the entry `target` to other panes or slots
      only re-places entries. */
  lemma TwoMovesOnlyReplace(s: seq<Component>, u: seq<Component>, id: Id, target: Component,
                            p: PaneId, k: int, q: PaneId, j: int)
    requires |u| == |s|
    requires forall i :: 0 <= i < |s| ==>
               u[i] == if s[i].id == id then MovedTo(s[i], p, k)
                       else if s[i] == target then MovedTo(s[i], q, j)
                       else s[i]
    ensures SameIds(s, u)
    ensures forall i :: 0 <= i < |s| ==> Unplaced(u[i]) == Unplaced(s[i])
  {
  }

  /** Splicing an entry out keeps a re-placement a re-placement. */
  lemma RemoveAtOnlyReplaced(s: seq<Component>, u: seq<Component>, k: nat)
    requires OnlyReplaced(s, u) && k < |u|
    ensures OnlyReplaced(s, RemoveAt(u, k))
  {
    RemoveAtUniqueIds(u, k);
    var r := RemoveAt(u, k);
    forall i | 0 <= i < |r| ensures Replaces(s, r[i]) {
      assert r[i] == u[if i < k then i else i + 1];
    }
  }

  lemma InsertedOnlyReplaced(s: seq<Component>, id: Id, src: PaneId, dst: PaneId, slot: nat,
                             dest: seq<Component>, rest: seq<Component>)
    requires UniqueIds(s)
    ensures OnlyReplaced(s, WithoutPlaceholder(InsertedEntries(s, id, src, dst, slot, dest, rest),
                                               FindPlaceholder(s, dst)))
  {
    var x := InsertedEntries(s, id, src, dst, slot, dest, rest);
    PointwiseOnlyReplaced(s, x);
    match FindPlaceholder(s, dst)
    case None =>
    case Some(ph) =>
      match FindIndex(x, ph.id)
      case None =>
      case Some(k) => RemoveAtOnlyReplaced(s, x, k);
  }

  lemma InsertOnlyReplaced(s: seq<Component>, src: Location, dst: Location, id: Id)
    requires UniqueIds(s)
    requires src.droppableId != dst.droppableId
    requires FindIndex(s, id).Some?
    requires |OtherRealMembers(s, dst.droppableId, id)| < 2
    ensures Rearrange(s, src, dst, id).Rearranged?
    ensures OnlyReplaced(s, Rearrange(s, src, dst, id).layout)
  {
    var dest := OtherRealMembers(s, dst.droppableId, id);
    var rest := SortBy(SlotLe, OtherRealMembers(s, src.droppableId, id));
    InsertEffect(s, src, dst, id);
    InsertedOnlyReplaced(s, id, src.droppableId, dst.droppableId, Min(dst.index, |dest|), dest, rest);
  }

  /** Every branch that does not abort only re-places snapshot components. */
  lemma RearrangeOnlyReplaced(s: seq<Component>, src: Location, dst: Location, id: Id)
    requires UniqueIds(s)
    ensures Rearrange(s, src, dst, id).Rearranged? ==> OnlyReplaced(s, Rearrange(s, src, dst, id).layout)
  {
    if FindIndex(s, id).Some? {
      if src.droppableId == dst.droppableId {
        SamePaneOnlyReplaced(s, src, dst);
      } else if |OtherRealMembers(s, dst.droppableId, id)| >= 2 {
        SwapOnlyReplaced(s, src, dst, id);
      } else {
        InsertOnlyReplaced(s, src, dst, id);
      }
    }
  }

  /** A persisted batch names each of its ids once, every id is the
      snapshot's, and every `position` is the one the snapshot holds for
      that id: no drop ever changes a global position. */
  lemma PlanKeepsPositions(loaded: Option<seq<Component>>, drop: Drop)
    requires loaded.Some? ==> UniqueIds(loaded.value)
    ensures Plan(loaded, drop).Persist? ==>
              var s, b := loaded.value, Plan(loaded, drop).batch;
              && (forall k, l :: 0 <= k < l < |b| ==> b[k].id != b[l].id)
              && forall k :: 0 <= k < |b| ==>
                   FindIndex(s, b[k].id).Some? && b[k].position == s[FindIndex(s, b[k].id).value].position
  {
    if Plan(loaded, drop).Persist? {
      var s, dst := loaded.value, drop.destination.value;
      RearrangeOnlyReplaced(s, drop.source, dst, drop.draggableId);
      var u := Rearrange(s, drop.source, dst, drop.draggableId).layout;
      var b := ToBatch(u);
      forall k | 0 <= k < |b|
        ensures FindIndex(s, b[k].id).Some? && b[k].position == s[FindIndex(s, b[k].id).value].position
      {
        assert Replaces(s, u[k]);
        assert Unplaced(u[k]).position == u[k].position;
      }
    }
  }
}
