/**
  What the drop planner guarantees: the effect of each branch on every
  component of the snapshot, and that the panes it touches come out with
  their real members in slots 0..n-1, one member per slot.
*/
module DropPlanProofs {
  import opened Sorting
  import opened Layout
  import opened DropPlanner

  /** The index of the last entry of `ms` with id `id`; with unique ids, the only one. */
  function IndexOfId(ms: seq<Component>, id: Id): (r: Option<nat>)
    ensures r.Some? ==> r.value < |ms| && ms[r.value].id == id
    ensures r.None? ==> forall k :: 0 <= k < |ms| ==> ms[k].id != id
  {
    if |ms| == 0 then None
    else if ms[|ms| - 1].id == id then Some(|ms| - 1)
    else IndexOfId(ms[..|ms| - 1], id)
  }

  lemma IndexOfUnique(ms: seq<Component>, k: nat)
    requires UniqueIds(ms) && k < |ms|
    ensures IndexOfId(ms, ms[k].id) == Some(k)
  {
    var r := IndexOfId(ms, ms[k].id);
  }

  /** A component as a renumbering loop leaves it: untouched when it is not
      in the list, else in the slot its list index `j` maps to. */
  function Relabeled(c: Component, j: Option<nat>, gap: nat): Component {
    match j
    case None => c
    case Some(j) => WithSlot(c, Shifted(j, gap))
  }

  /** The effect of a renumbering loop on each entry of the working copy. */
  lemma IndexOfIdLast(ms: seq<Component>, id: Id)
    requires |ms| > 0
    ensures IndexOfId(ms, id) == if ms[|ms| - 1].id == id then Some(|ms| - 1) else IndexOfId(ms[..|ms| - 1], id)
  {
  }

  /** One more renumbered member `m`, found at index `mi` of the working copy. */
  lemma RelabelStep(a: seq<Component>, b: seq<Component>, ms: seq<Component>, gap: nat, mi: nat)
    requires |ms| > 0 && UniqueIds(a) && mi < |a| && a[mi] == ms[|ms| - 1] && |b| == |a|
    requires forall i :: 0 <= i < |a| ==> b[i] == Relabeled(a[i], IndexOfId(ms[..|ms| - 1], a[i].id), gap)
    ensures var r := b[mi := WithSlot(ms[|ms| - 1], Shifted(|ms| - 1, gap))];
            forall i :: 0 <= i < |a| ==> r[i] == Relabeled(a[i], IndexOfId(ms, a[i].id), gap)
  {
    forall i | 0 <= i < |a|
      ensures b[mi := WithSlot(ms[|ms| - 1], Shifted(|ms| - 1, gap))][i]
              == Relabeled(a[i], IndexOfId(ms, a[i].id), gap)
    {
      IndexOfIdLast(ms, a[i].id);
      if i != mi {
        assert a[i].id != a[mi].id;
      }
    }
  }

  lemma {:induction false} RelabelEffect(a: seq<Component>, ms: seq<Component>, gap: nat)
    requires UniqueIds(a)
    requires forall m :: m in ms ==> m in a
    ensures |Relabel(a, ms, gap)| == |a|
    ensures forall i :: 0 <= i < |a| ==>
              Relabel(a, ms, gap)[i] == Relabeled(a[i], IndexOfId(ms, a[i].id), gap)
    decreases |ms|
  {
    if |ms| > 0 {
      var init := ms[..|ms| - 1];
      var m := ms[|ms| - 1];
      assert forall x :: x in init ==> x in ms;
      RelabelEffect(a, init, gap);
      var b := Relabel(a, init, gap);
      assert m in ms;
      var mi :| 0 <= mi < |a| && a[mi] == m;
      FindIndexOfUnique(a, mi);
      FindIndexSameIds(a, b, m.id);
      assert Relabel(a, ms, gap) == b[mi := WithSlot(m, Shifted(|ms| - 1, gap))];
      RelabelStep(a, b, ms, gap, mi);
    }
  }

  /** Some real member of pane `p` holds slot `k`. */
  ghost predicate SlotTaken(r: seq<Component>, p: PaneId, k: int) {
    exists i :: 0 <= i < |r| && IsRealMemberOf(r[i], p) && Slot(r[i]) == k
  }

  /** The real members of pane `p` hold slots 0..n-1, one member per slot. */
  ghost predicate SlotsAreRanks(r: seq<Component>, p: PaneId, n: nat) {
    && (forall i :: 0 <= i < |r| && IsRealMemberOf(r[i], p) ==> 0 <= Slot(r[i]) < n)
    && (forall i, j :: 0 <= i < j < |r| && IsRealMemberOf(r[i], p) && IsRealMemberOf(r[j], p) ==>
          Slot(r[i]) != Slot(r[j]))
    && (forall k :: 0 <= k < n ==> SlotTaken(r, p, k))
  }

  /** The rank of `c` in `order`: the index of its id there, or the length
      of `order` when its id is absent. */
  function Rank(order: seq<Component>, c: Component): nat {
    match IndexOfId(order, c.id)
    case Some(j) => j
    case None => |order|
  }

  /** `r` is `a` with the real members of pane `p`, and nothing else,
      moved to the slot of their rank in `order`. */
  ghost predicate RenumberedBy(a: seq<Component>, r: seq<Component>, p: PaneId, order: seq<Component>) {
    && |r| == |a|
    && forall i :: 0 <= i < |a| ==>
         r[i] == if IsRealMemberOf(a[i], p) then WithSlot(a[i], Rank(order, a[i])) else a[i]
  }

  /** `order` lists the real members of pane `p` in `a`, each once. */
  ghost predicate ListsPane(a: seq<Component>, p: PaneId, order: seq<Component>) {
    && UniqueIds(order)
    && forall m :: m in order <==> m in a && IsRealMemberOf(m, p)
  }

  /** A rearrangement of the pane's real members lists the pane. */
  lemma PermutationListsPane(a: seq<Component>, p: PaneId, order: seq<Component>)
    requires UniqueIds(a)
    requires multiset(order) == multiset(RealMembers(a, p))
    ensures ListsPane(a, p, order)
  {
    RealMembersUniqueIds(a, p);
    RealMembersHolds(a, p);
    PermutationKeepsUniqueIds(RealMembers(a, p), order);
    forall m ensures m in order <==> m in RealMembers(a, p) {
      assert m in order <==> m in multiset(order);
      assert m in RealMembers(a, p) <==> m in multiset(RealMembers(a, p));
    }
  }

  /** In a list of the pane, a member's rank is the index holding it. */
  lemma RankInList(a: seq<Component>, p: PaneId, order: seq<Component>, c: Component)
    requires UniqueIds(a) && ListsPane(a, p, order)
    requires c in a && IsRealMemberOf(c, p)
    ensures Rank(order, c) < |order| && order[Rank(order, c)] == c
  {
    var k :| 0 <= k < |order| && order[k] == c;
    IndexOfUnique(order, k);
  }

  /** Renumbering a pane by a list of its real members: every other entry is
      untouched and each member gets the slot of its rank. */
  lemma RenumberPaneEntries(a: seq<Component>, p: PaneId, order: seq<Component>)
    requires UniqueIds(a) && ListsPane(a, p, order)
    ensures RenumberedBy(a, Relabel(a, order, |order|), p, order)
  {
    RelabelEffect(a, order, |order|);
    var r := Relabel(a, order, |order|);
    forall i | 0 <= i < |a|
      ensures r[i] == if IsRealMemberOf(a[i], p) then WithSlot(a[i], Rank(order, a[i])) else a[i]
    {
      var j := IndexOfId(order, a[i].id);
      if IsRealMemberOf(a[i], p) {
        RankInList(a, p, order, a[i]);
      } else if j.Some? {
        SameIdSameMember(a, order[j.value], a[i]);
      }
    }
  }

  /** After such a renumbering the pane's real members hold slots 0..n-1. */
  lemma RenumberedSlots(a: seq<Component>, r: seq<Component>, p: PaneId, order: seq<Component>)
    requires UniqueIds(a) && ListsPane(a, p, order)
    requires RenumberedBy(a, r, p, order)
    ensures SlotsAreRanks(r, p, |order|)
  {
    forall i | 0 <= i < |a| ensures IsRealMemberOf(r[i], p) <==> IsRealMemberOf(a[i], p) {
    }
    RankedSlots(a, r, p, order);
  }

  /** `r` keeps the real members of `p` where `a` has them, each in the slot
      of its rank in `order`. */
  ghost predicate RanksPane(a: seq<Component>, r: seq<Component>, p: PaneId, order: seq<Component>) {
    && |r| == |a|
    && (forall i :: 0 <= i < |a| ==> (IsRealMemberOf(r[i], p) <==> IsRealMemberOf(a[i], p)))
    && (forall i :: 0 <= i < |a| && IsRealMemberOf(a[i], p) ==> Slot(r[i]) == Rank(order, a[i]))
  }

  /** Ranking the members of a pane by a list of them gives slots 0..n-1. */
  lemma RankedSlots(a: seq<Component>, r: seq<Component>, p: PaneId, order: seq<Component>)
    requires UniqueIds(a) && ListsPane(a, p, order)
    requires RanksPane(a, r, p, order)
    ensures SlotsAreRanks(r, p, |order|)
  {
    forall i | 0 <= i < |r| && IsRealMemberOf(r[i], p) ensures 0 <= Slot(r[i]) < |order| {
      RankInList(a, p, order, a[i]);
    }
    forall i, i' | 0 <= i < i' < |r| && IsRealMemberOf(r[i], p) && IsRealMemberOf(r[i'], p)
      ensures Slot(r[i]) != Slot(r[i'])
    {
      RankInList(a, p, order, a[i]);
      RankInList(a, p, order, a[i']);
    }
    forall k | 0 <= k < |order| ensures SlotTaken(r, p, k) {
      assert order[k] in order;
      var i :| 0 <= i < |a| && a[i] == order[k];
      RankInList(a, p, order, a[i]);
      assert IsRealMemberOf(r[i], p) && Slot(r[i]) == k;
    }
  }

  lemma MovedOrderIsPermutation(members: seq<Component>, from: nat, to: nat)
    requires from < |members|
    ensures multiset(MovedOrder(members, from, to)) == multiset(members)
    ensures MovedOrder(members, from, to)[Min(to, |members| - 1)] == members[from]
    ensures RemoveAt(MovedOrder(members, from, to), Min(to, |members| - 1)) == RemoveAt(members, from)
  {
    var rest := RemoveAt(members, from);
    var t := Min(to, |rest|);
    var o := MovedOrder(members, from, to);
    assert o[..t] == rest[..t];
    assert o[t + 1..] == rest[t..];
    assert rest == rest[..t] + rest[t..];
  }

  /** A same-pane drop moves the card at the source index of the pane's real
      members (in slot order) to the destination index, gives every member
      the slot of its new rank, and leaves every other component as it was. */
  lemma SamePaneMove(s: seq<Component>, src: Location, dst: Location)
    requires UniqueIds(s)
    requires src.index < |PaneOrder(s, src.droppableId)|
    ensures var members := PaneOrder(s, src.droppableId);
            var order := MovedOrder(members, src.index, dst.index);
            var r := MoveWithinPane(s, src, dst);
            && r.Rearranged?
            && multiset(order) == multiset(members)
            && order[Min(dst.index, |members| - 1)] == members[src.index]
            && RenumberedBy(s, r.layout, src.droppableId, order)
            && SlotsAreRanks(r.layout, src.droppableId, |members|)
  {
    var p := src.droppableId;
    var members := PaneOrder(s, p);
    MovedOrderIsPermutation(members, src.index, dst.index);
    var order := MovedOrder(members, src.index, dst.index);
    assert multiset(order) == multiset(RealMembers(s, p));
    var r := Relabel(s, order, |order|);
    assert MoveWithinPane(s, src, dst) == Rearranged(r);
    PermutationListsPane(s, p, order);
    RenumberPaneEntries(s, p, order);
    RenumberedSlots(s, r, p, order);
  }

  /** A same-pane drop from an index at or past the end of the pane's real
      members finds no card to move: the handler's renumbering of `undefined`
      throws, the error is caught and nothing is persisted. */
  lemma SamePaneOutOfRange(s: seq<Component>, src: Location, dst: Location, id: Id)
    requires FindIndex(s, id).Some?
    requires src.droppableId == dst.droppableId
    ensures src.index >= |PaneOrder(s, src.droppableId)| ==> Rearrange(s, src, dst, id) == Refused(Failed)
    ensures src.index < |PaneOrder(s, src.droppableId)| ==> Rearrange(s, src, dst, id).Rearranged?
  {
  }

  /** The filter of another pane's members keeps exactly the real members of
      that pane other than the dragged one. */
  lemma {:induction false} OtherRealMembersHolds(s: seq<Component>, p: PaneId, id: Id)
    ensures forall c :: c in OtherRealMembers(s, p, id) <==> c in s && IsRealMemberOf(c, p) && c.id != id
  {
    if |s| > 0 {
      var init := s[..|s| - 1];
      OtherRealMembersHolds(init, p, id);
      assert s == init + [s[|s| - 1]];
    }
  }

  /** Two writes into a list with unique ids, described id by id. */
  lemma TwoWrites(s: seq<Component>, di: nat, ti: nat, x: Component, y: Component)
    requires UniqueIds(s) && di < |s| && ti < |s| && di != ti
    ensures var r := s[di := x][ti := y];
            forall i :: 0 <= i < |s| ==>
              r[i] == if s[i].id == s[di].id then x else if s[i] == s[ti] then y else s[i]
  {
  }

  /** A drop into another pane that already holds two or more other real
      members: it aborts exactly when no member is ranked at the destination
      index; otherwise the dragged component takes the destination pane and
      index, the member ranked there takes the source pane and index, and
      nothing else changes. */
  lemma SwapEffect(s: seq<Component>, src: Location, dst: Location, id: Id)
    requires UniqueIds(s)
    requires src.droppableId != dst.droppableId
    requires FindIndex(s, id).Some?
    requires |OtherRealMembers(s, dst.droppableId, id)| >= 2
    ensures var ranked := SortBy(SlotLe, OtherRealMembers(s, dst.droppableId, id));
            var r := Rearrange(s, src, dst, id);
            && SortedBy(SlotLe, ranked)
            && (r == Refused(GroupFull) <==> dst.index >= |ranked|)
            && (dst.index < |ranked| ==>
                  var target := ranked[dst.index];
                  && target in s && IsRealMemberOf(target, dst.droppableId) && target.id != id
                  && r.Rearranged? && |r.layout| == |s|
                  && forall i :: 0 <= i < |s| ==>
                       r.layout[i] == if s[i].id == id then MovedTo(s[i], dst.droppableId, dst.index)
                                      else if s[i] == target then MovedTo(s[i], src.droppableId, src.index)
                                      else s[i])
  {
    var dest := OtherRealMembers(s, dst.droppableId, id);
    SlotLeIsTotalPreorder();
    SortByIsSorted(SlotLe, dest);
    var di := FindIndex(s, id).value;
    OtherRealMembersHolds(s, dst.droppableId, id);
    assert Rearrange(s, src, dst, id) == SwapInto(s, src, dst, di, dest);
    SwapIntoEffect(s, src, dst, di, dest);
  }

  /** The swap on any list of members of `s` other than the dragged one. */
  lemma SwapIntoEffect(s: seq<Component>, src: Location, dst: Location, di: nat, dest: seq<Component>)
    requires UniqueIds(s) && di < |s|
    requires forall m :: m in dest ==> m in s && m.id != s[di].id
    ensures var ranked := SortBy(SlotLe, dest);
            var r := SwapInto(s, src, dst, di, dest);
            && (r == Refused(GroupFull) <==> dst.index >= |ranked|)
            && (dst.index < |ranked| ==>
                  var target := ranked[dst.index];
                  && target in dest
                  && r.Rearranged? && |r.layout| == |s|
                  && forall i :: 0 <= i < |s| ==>
                       r.layout[i] == if s[i].id == s[di].id then MovedTo(s[i], dst.droppableId, dst.index)
                                      else if s[i] == target then MovedTo(s[i], src.droppableId, src.index)
                                      else s[i])
  {
    var ranked := SortBy(SlotLe, dest);
    if dst.index < |ranked| {
      var target := ranked[dst.index];
      assert target in multiset(dest);
      var ti :| 0 <= ti < |s| && s[ti] == target;
      FindIndexOfUnique(s, ti);
      TwoWrites(s, di, ti, MovedTo(s[di], dst.droppableId, dst.index), MovedTo(target, src.droppableId, src.index));
    }
  }
}
