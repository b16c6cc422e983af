/**
  The drop planner of the pane editor (`handleDragEnd` in src/app/page.tsx).

  A drop names the dragged component, the pane and card index it left and the
  pane and card index it was dropped on.  From a snapshot of all components
  the planner either aborts, persisting nothing, or produces an update batch
  of `{id, position, paneId, panePosition}` for every component still in its
  working copy.  The cases:
  - no destination, no snapshot yet, or dropped where it started: abort;
  - dragged id not in the snapshot: abort;
  - same pane: the pane's real members in slot order lose the card at the
    source index, get it back at the destination index, and are renumbered;
  - another pane holding two or more other real members: swap with the member
    ranked at the destination index (abort when there is none);
  - another pane with fewer: move in at `min(index, count)`, shift the
    destination's members around that slot, drop the destination's
    placeholder from the batch, renumber what is left in the source pane.

  `Plan` states all of this as a function; `HandleDragEnd` is the procedure
  over an array copy and is proved to compute `Plan`.
*/
module DropPlanner {
  import opened Sorting
  import opened Layout

  /** One end of a drag: the droppable (a pane id) and the card index in it. */
  datatype Location = Location(droppableId: PaneId, index: nat)

  /** A drop as the drag-and-drop library reports it; a drop outside every
      droppable has no destination. */
  datatype Drop = Drop(source: Location, destination: Option<Location>, draggableId: Id)

  /** One entry of the batch sent to the store's `reorder`. */
  datatype Update = Update(id: Id, position: int, paneId: Option<PaneId>, panePosition: Option<int>)

  datatype AbortReason =
    | NothingToDo  // no destination, no snapshot yet, or dropped where it started
    | NotFound     // the dragged id is not in the snapshot
    | GroupFull    // no member of a full destination pane at the requested index
    | Failed       // the same-pane branch dereferences a missing card and throws

  datatype Outcome = Persist(batch: seq<Update>) | Abort(reason: AbortReason)

  /** The new working copy of the components, or why there is none. */
  datatype Rearrangement = Rearranged(layout: seq<Component>) | Refused(reason: AbortReason)

  /** `splice(i, 1)` */
  function RemoveAt<T>(s: seq<T>, i: nat): (r: seq<T>)
    requires i < |s|
    ensures |r| == |s| - 1
    ensures multiset(r) + multiset{s[i]} == multiset(s)
  {
    assert s == s[..i] + [s[i]] + s[i + 1..];
    s[..i] + s[i + 1..]
  }

  /** `splice(i, 0, x)` for an index no larger than the length. */
  function InsertAt<T>(s: seq<T>, i: nat, x: T): (r: seq<T>)
    requires i <= |s|
    ensures |r| == |s| + 1 && r[i] == x
    ensures multiset(r) == multiset(s) + multiset{x}
  {
    assert s == s[..i] + s[i..];
    s[..i] + [x] + s[i..]
  }

  /** The real members of pane `p` other than component `id`, in list order. */
  function OtherRealMembers(s: seq<Component>, p: PaneId, id: Id): (r: seq<Component>)
    ensures |r| <= |s|
  {
    if |s| == 0 then []
    else
      var last := s[|s| - 1];
      assert s == s[..|s| - 1] + [last];
      OtherRealMembers(s[..|s| - 1], p, id)
        + (if IsRealMemberOf(last, p) && last.id != id then [last] else [])
  }

  /** The first placeholder of pane `p`. */
  function FindPlaceholder(s: seq<Component>, p: PaneId): (r: Option<Component>)
    ensures r.Some? ==> r.value in s && r.value.paneId == Some(p) && IsPlaceholder(r.value)
    ensures r.Some? ==> exists i :: && 0 <= i < |s| && s[i] == r.value
                                   && forall k :: 0 <= k < i ==> !(s[k].paneId == Some(p) && IsPlaceholder(s[k]))
    ensures r.None? ==> forall c :: c in s ==> !(c.paneId == Some(p) && IsPlaceholder(c))
  {
    if |s| == 0 then None
    else if s[0].paneId == Some(p) && IsPlaceholder(s[0]) then Some(s[0])
    else
      assert forall c :: c in s ==> c == s[0] || c in s[1..];
      FindPlaceholder(s[1..], p)
  }

  /** The working copy with the placeholder `ph`, if there is one, spliced out. */
  function WithoutPlaceholder(u: seq<Component>, ph: Option<Component>): seq<Component> {
    match ph
    case None => u
    case Some(p) =>
      match FindIndex(u, p.id)
      case None => u
      case Some(k) => RemoveAt(u, k)
  }

  /** The slot written for list index `j` when slots from `gap` on move up by one. */
  function Shifted(j: nat, gap: nat): nat {
    if j >= gap then j + 1 else j
  }

  /** One step of a renumbering loop: the entry with `m`'s id, if any, becomes
      `m` placed in slot `k`. */
  function SetSlotOf(a: seq<Component>, m: Component, k: int): (r: seq<Component>)
    ensures SameIds(a, r)
  {
    match FindIndex(a, m.id)
    case None => a
    case Some(i) => a[i := WithSlot(m, k)]
  }

  /** The renumbering loop `ms.forEach((m, j) => ...)` run to completion over
      the working copy `a`: list index `j` gets slot `Shifted(j, gap)`. */
  function Relabel(a: seq<Component>, ms: seq<Component>, gap: nat): (r: seq<Component>)
    ensures SameIds(a, r)
    decreases |ms|
  {
    if |ms| == 0 then a
    else SetSlotOf(Relabel(a, ms[..|ms| - 1], gap), ms[|ms| - 1], Shifted(|ms| - 1, gap))
  }

  /** `[removed] = list.splice(from, 1); list.splice(to, 0, removed)` */
  function MovedOrder(members: seq<Component>, from: nat, to: nat): seq<Component>
    requires from < |members|
  {
    var rest := RemoveAt(members, from);
    InsertAt(rest, Min(to, |rest|), members[from])
  }

  /** Same pane: remove the card at the source index from the pane's real
      members in slot order, insert it at the destination index, renumber. */
  function MoveWithinPane(s: seq<Component>, src: Location, dst: Location): Rearrangement {
    var members := PaneOrder(s, src.droppableId);
    if src.index >= |members| then Refused(Failed)
    else
      var order := MovedOrder(members, src.index, dst.index);
      Rearranged(Relabel(s, order, |order|))
  }

  /** A destination with two or more other real members: the dragged
      component (at index `di`) and the member ranked `dst.index` trade places. */
  function SwapInto(s: seq<Component>, src: Location, dst: Location, di: nat, dest: seq<Component>)
    : Rearrangement
    requires di < |s|
  {
    var ranked := SortBy(SlotLe, dest);
    if dst.index >= |ranked| then Refused(GroupFull)
    else
      var target := ranked[dst.index];
      var moved := s[di := MovedTo(s[di], dst.droppableId, dst.index)];
      match FindIndex(s, target.id)
      case None => Rearranged(moved)
      case Some(ti) => Rearranged(moved[ti := MovedTo(target, src.droppableId, src.index)])
  }

  /** A destination with fewer than two other real members: move in. */
  function InsertInto(s: seq<Component>, src: Location, dst: Location, di: nat,
                      dest: seq<Component>, draggableId: Id): seq<Component>
    requires di < |s|
  {
    var slot := Min(dst.index, |dest|);
    var placed := s[di := MovedTo(s[di], dst.droppableId, slot)];
    var cleared := WithoutPlaceholder(placed, FindPlaceholder(s, dst.droppableId));
    var shifted := Relabel(cleared, dest, slot);
    var rest := SortBy(SlotLe, OtherRealMembers(shifted, src.droppableId, draggableId));
    Relabel(shifted, rest, |rest|)
  }

  /** The working copy after a drop that did not stop at the first two checks. */
  function Rearrange(s: seq<Component>, src: Location, dst: Location, draggableId: Id): Rearrangement {
    match FindIndex(s, draggableId)
    case None => Refused(NotFound)
    case Some(di) =>
      if src.droppableId == dst.droppableId then MoveWithinPane(s, src, dst)
      else
        var dest := OtherRealMembers(s, dst.droppableId, draggableId);
        if |dest| >= 2 then SwapInto(s, src, dst, di, dest)
        else Rearranged(InsertInto(s, src, dst, di, dest, draggableId))
  }

  function ToUpdate(c: Component): Update {
    Update(c.id, c.position, c.paneId, c.panePosition)
  }

  /** `updatedComponents.map(comp => ({id, position, paneId, panePosition}))` */
  function ToBatch(u: seq<Component>): seq<Update> {
    seq(|u|, i requires 0 <= i < |u| => ToUpdate(u[i]))
  }

  /** What a drop persists.  `loaded` is `None` while the component list is
      still loading. */
  function Plan(loaded: Option<seq<Component>>, drop: Drop): (r: Outcome)
    ensures drop.destination.None? || loaded.None? ==> r == Abort(NothingToDo)
    ensures drop.destination == Some(drop.source) ==> r == Abort(NothingToDo)
    ensures loaded.Some? && FindIndex(loaded.value, drop.draggableId).None? ==> r.Abort?
  {
    if drop.destination.None? || loaded.None? then Abort(NothingToDo)
    else
      var dst := drop.destination.value;
      if dst.droppableId == drop.source.droppableId && dst.index == drop.source.index then
        Abort(NothingToDo)
      else
        match Rearrange(loaded.value, drop.source, dst, drop.draggableId)
        case Refused(why) => Abort(why)
        case Rearranged(u) => Persist(ToBatch(u))
  }

  /** `arr.splice(k, 1)` on the working copy. */
  method SpliceOut(a: array<Component>, k: nat) returns (b: array<Component>)
    requires k < a.Length
    ensures fresh(b)
    ensures b[..] == RemoveAt(a[..], k)
  {
    b := new Component[a.Length - 1](i requires 0 <= i < a.Length - 1 reads a =>
      if i < k then a[i] else a[i + 1]);
  }

  /** A renumbering `forEach`: each member of `ms`, found by id in the working
      copy, is written back with slot `Shifted(j, gap)`. */
  method AssignSlots(a: array<Component>, ms: seq<Component>, gap: nat)
    modifies a
    ensures a[..] == Relabel(old(a[..]), ms, gap)
  {
    ghost var start := a[..];
    for j := 0 to |ms|
      invariant a[..] == Relabel(start, ms[..j], gap)
    {
      assert ms[..j + 1][..j] == ms[..j];
      var k := FindIndex(a[..], ms[j].id);
      if k.Some? {
        a[k.value] := WithSlot(ms[j], Shifted(j, gap));
      }
    }
    assert ms[..|ms|] == ms;
  }

  /** The drop handler over an array copy of the snapshot. */
  method HandleDragEnd(loaded: Option<seq<Component>>, drop: Drop) returns (out: Outcome)
    ensures out == Plan(loaded, drop)
  {
    if drop.destination.None? || loaded.None? {
      return Abort(NothingToDo);
    }
    var src, dst := drop.source, drop.destination.value;
    if dst.droppableId == src.droppableId && dst.index == src.index {
      return Abort(NothingToDo);
    }
    var r := RearrangeCopy(loaded.value, src, dst, drop.draggableId);
    match r
    case Refused(why) => out := Abort(why);
    case Rearranged(u) => out := Persist(ToBatch(u));
  }

  /** Copies the snapshot and applies the branch the drop selects. */
  method RearrangeCopy(s: seq<Component>, src: Location, dst: Location, draggableId: Id)
    returns (r: Rearrangement)
    ensures r == Rearrange(s, src, dst, draggableId)
  {
    var updated := new Component[|s|](i requires 0 <= i < |s| => s[i]);
    assert updated[..] == s;
    var found := FindIndex(updated[..], draggableId);
    if found.None? {
      return Refused(NotFound);
    }
    var di := found.value;
    var dest := OtherRealMembers(updated[..], dst.droppableId, draggableId);
    if src.droppableId == dst.droppableId {
      r := MoveWithinPaneInPlace(updated, src, dst);
    } else if |dest| >= 2 {
      r := SwapInPlace(updated, src, dst, di, dest);
    } else {
      var u := InsertInPlace(updated, src, dst, di, dest, draggableId);
      r := Rearranged(u[..]);
    }
  }

  method MoveWithinPaneInPlace(updated: array<Component>, src: Location, dst: Location)
    returns (r: Rearrangement)
    modifies updated
    ensures r == MoveWithinPane(old(updated[..]), src, dst)
  {
    var members := PaneOrder(updated[..], src.droppableId);
    if src.index >= |members| {
      return Refused(Failed);
    }
    var removed := members[src.index];
    members := RemoveAt(members, src.index);
    members := InsertAt(members, Min(dst.index, |members|), removed);
    AssignSlots(updated, members, |members|);
    r := Rearranged(updated[..]);
  }

  method SwapInPlace(updated: array<Component>, src: Location, dst: Location, di: nat,
                     dest: seq<Component>)
    returns (r: Rearrangement)
    requires di < updated.Length
    modifies updated
    ensures r == SwapInto(old(updated[..]), src, dst, di, dest)
  {
    var dragged := updated[di];
    var ranked := SortBy(SlotLe, dest);
    if dst.index >= |ranked| {
      return Refused(GroupFull);
    }
    var target := ranked[dst.index];
    var ti := FindIndex(updated[..], target.id);
    updated[di] := MovedTo(dragged, dst.droppableId, dst.index);
    if ti.Some? {
      updated[ti.value] := MovedTo(target, src.droppableId, src.index);
    }
    r := Rearranged(updated[..]);
  }

  method InsertInPlace(updated: array<Component>, src: Location, dst: Location, di: nat,
                       dest: seq<Component>, draggableId: Id)
    returns (u: array<Component>)
    requires di < updated.Length
    modifies updated
    ensures u[..] == InsertInto(old(updated[..]), src, dst, di, dest, draggableId)
  {
    ghost var s := updated[..];
    var placeholder := FindPlaceholder(updated[..], dst.droppableId);
    var slot := Min(dst.index, |dest|);
    u := updated;
    u[di] := MovedTo(u[di], dst.droppableId, slot);
    if placeholder.Some? {
      var k := FindIndex(u[..], placeholder.value.id);
      if k.Some? {
        u := SpliceOut(u, k.value);
      }
    }
    assert u[..] == WithoutPlaceholder(s[di := MovedTo(s[di], dst.droppableId, slot)],
                                       FindPlaceholder(s, dst.droppableId));
    AssignSlots(u, dest, slot);
    var rest := SortBy(SlotLe, OtherRealMembers(u[..], src.droppableId, draggableId));
    AssignSlots(u, rest, |rest|);
  }
}
