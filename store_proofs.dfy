/**
  What the store's operations promise, and how they meet the editor: a
  reorder touches only the listed rows and only their placement, a failed
  reorder keeps the updates before the failing one, a delete removes one row,
  a created component or group shows up as a pane of its own, and a drop's
  batch replayed on the store leaves exactly the planner's working copy —
  with the destination's placeholder still stored.
*/
module StoreProofs {
  import opened Sorting
  import opened Layout
  import opened DropPlanner
  import opened DropOutcomeProofs
  import opened DropInsertProofs
  import opened ComponentList
  import opened ComponentRouter

  /** The ids of a batch are pairwise distinct. */
  ghost predicate DistinctUpdateIds(batch: seq<Update>) {
    forall k, l :: 0 <= k < l < |batch| ==> batch[k].id != batch[l].id
  }

  /** A replay succeeds exactly when every id of the batch names a row. */
  lemma {:induction false} ReplayOkIff(rows: seq<Component>, batch: seq<Update>)
    ensures ReplayBatch(rows, batch).ok <==>
              forall k :: 0 <= k < |batch| ==> FindIndex(rows, batch[k].id).Some?
    decreases |batch|
  {
    if |batch| > 0 {
      match FindIndex(rows, batch[0].id)
      case None =>
      case Some(i) =>
        var next := rows[i := Applied(rows[i], batch[0])];
        assert SameIds(rows, next);
        ReplayOkIff(next, batch[1..]);
        forall k | 0 <= k < |batch| ensures FindIndex(rows, batch[k].id) == FindIndex(next, batch[k].id) {
          FindIndexSameIds(rows, next, batch[k].id);
        }
        assert forall k :: 1 <= k < |batch| ==> batch[1..][k - 1] == batch[k];
    }
  }

  /** A row no update names is left as it is. */
  lemma {:induction false} PatchedUnlisted(c: Component, batch: seq<Update>)
    requires forall k :: 0 <= k < |batch| ==> batch[k].id != c.id
    ensures Patched(c, batch) == c
    decreases |batch|
  {
    if |batch| > 0 {
      PatchedUnlisted(c, batch[1..]);
    }
  }

  /** A row named by update `k` of a batch with distinct ids takes that update. */
  lemma {:induction false} PatchedListed(c: Component, batch: seq<Update>, k: nat)
    requires DistinctUpdateIds(batch)
    requires k < |batch| && batch[k].id == c.id
    ensures Patched(c, batch) == Applied(c, batch[k])
    decreases |batch|
  {
    if k > 0 {
      PatchedListed(c, batch[1..], k - 1);
    }
  }

  /** Replaying a batch of distinct ids that all name rows succeeds, and every
      row ends up patched by its own update or left alone: only `position`,
      `paneId` and `panePosition` of listed rows change. */
  lemma {:induction false} ReplayPatches(rows: seq<Component>, batch: seq<Update>)
    requires UniqueIds(rows)
    requires DistinctUpdateIds(batch)
    requires forall k :: 0 <= k < |batch| ==> FindIndex(rows, batch[k].id).Some?
    ensures var r := ReplayBatch(rows, batch);
            && r.ok && |r.rows| == |rows|
            && forall i :: 0 <= i < |rows| ==> r.rows[i] == Patched(rows[i], batch)
    decreases |batch|
  {
    if |batch| > 0 {
      var u := batch[0];
      var j := FindIndex(rows, u.id).value;
      var next := rows[j := Applied(rows[j], u)];
      assert SameIds(rows, next);
      var tail := batch[1..];
      forall k | 0 <= k < |tail| ensures FindIndex(next, tail[k].id).Some? {
        assert tail[k] == batch[k + 1];
        FindIndexSameIds(rows, next, tail[k].id);
      }
      ReplayPatches(next, tail);
      forall i | 0 <= i < |rows| ensures ReplayBatch(rows, batch).rows[i] == Patched(rows[i], batch) {
        if i == j {
          forall k | 0 <= k < |tail| ensures tail[k].id != next[i].id {
            assert tail[k] == batch[k + 1];
          }
          PatchedUnlisted(next[i], tail);
        } else {
          assert rows[i].id != u.id;
        }
      }
    }
  }

  /** `reorder` is not atomic: when update `k` is the first whose id has no
      row, the store keeps the first `k` updates and reports failure. */
  lemma {:induction false} ReplayStopsAtMissing(rows: seq<Component>, batch: seq<Update>, k: nat)
    requires k < |batch| && FindIndex(rows, batch[k].id).None?
    requires forall l :: 0 <= l < k ==> FindIndex(rows, batch[l].id).Some?
    ensures ReplayBatch(rows, batch) == Replay(ReplayBatch(rows, batch[..k]).rows, false)
    decreases k
  {
    if k > 0 {
      var j := FindIndex(rows, batch[0].id).value;
      var next := rows[j := Applied(rows[j], batch[0])];
      assert SameIds(rows, next);
      var tail := batch[1..];
      TailFinds(rows, next, batch, k);
      ReplayStopsAtMissing(next, tail, k - 1);
      assert batch[..k][0] == batch[0] && batch[..k][1..] == tail[..k - 1];
    }
  }

  /** After the first update, the rest of the batch meets the same ids. */
  lemma TailFinds(rows: seq<Component>, next: seq<Component>, batch: seq<Update>, k: nat)
    requires SameIds(rows, next)
    requires 0 < k < |batch| && FindIndex(rows, batch[k].id).None?
    requires forall l :: 0 <= l < k ==> FindIndex(rows, batch[l].id).Some?
    ensures FindIndex(next, batch[1..][k - 1].id).None?
    ensures forall l :: 0 <= l < k - 1 ==> FindIndex(next, batch[1..][l].id).Some?
  {
    var tail := batch[1..];
    forall l | 0 <= l < k - 1 ensures FindIndex(next, tail[l].id).Some? {
      assert tail[l] == batch[l + 1];
      FindIndexSameIds(rows, next, tail[l].id);
    }
    assert tail[k - 1] == batch[k];
    FindIndexSameIds(rows, next, batch[k].id);
  }

  /** Every row left by a delete was stored before and does not carry the id. */
  lemma RemovedRowsWereStored(rows: seq<Component>, i: nat, c: Component)
    requires UniqueIds(rows) && i < |rows|
    requires c in rows[..i] + rows[i + 1..]
    ensures c in rows && c.id != rows[i].id
  {
    var r := rows[..i] + rows[i + 1..];
    var k :| 0 <= k < |r| && r[k] == c;
    if k < i {
      assert rows[k] == c;
    } else {
      assert rows[k + 1] == c;
    }
  }

  /** Every stored row without the id survives a delete. */
  lemma OtherRowsSurvive(rows: seq<Component>, i: nat, c: Component)
    requires i < |rows| && c in rows && c.id != rows[i].id
    ensures c in rows[..i] + rows[i + 1..]
  {
    var r := rows[..i] + rows[i + 1..];
    var k :| 0 <= k < |rows| && rows[k] == c;
    if k < i {
      assert r[k] == c;
    } else {
      assert r[k - 1] == c;
    }
  }

  /** A delete of an existing id leaves every other row and no row with that id. */
  lemma DeleteRemovesOnly(rows: seq<Component>, id: Id)
    requires UniqueIds(rows)
    ensures Removed(rows, id).Some? ==>
              var r := Removed(rows, id).value;
              && UniqueIds(r)
              && forall c :: c in r <==> c in rows && c.id != id
  {
    if Removed(rows, id).Some? {
      var i := FindIndex(rows, id).value;
      var r := Removed(rows, id).value;
      assert r == RemoveAt(rows, i) == rows[..i] + rows[i + 1..];
      forall c ensures c in r <==> c in rows && c.id != id {
        if c in r {
          RemovedRowsWereStored(rows, i, c);
        }
        if c in rows && c.id != id {
          OtherRowsSurvive(rows, i, c);
        }
      }
      RemoveAtUniqueIds(rows, i);
    }
  }

  /** A component whose position exceeds every stored position is listed last. */
  lemma CreatedComesLast(rows: seq<Component>, c: Component)
    requires forall x :: x in rows ==> x.position < c.position
    ensures Listing(rows + [c])[|rows|] == c
  {
    ListingIsOrdered(rows + [c]);
    LargestSortsLast(rows, c, Listing(rows + [c]));
  }

  /** In any listing-ordered arrangement of `rows + [c]`, `c` comes last. */
  lemma LargestSortsLast(rows: seq<Component>, c: Component, l: seq<Component>)
    requires SortedBy(ListingLe, l) && |l| == |rows| + 1
    requires multiset(l) == multiset(rows + [c])
    requires forall x :: x in rows ==> x.position < c.position
    ensures l[|rows|] == c
  {
    var after := rows + [c];
    assert c in multiset(l);
    var i :| 0 <= i < |l| && l[i] == c;
    var e := l[|rows|];
    assert e in multiset(after);
    if i < |rows| {
      assert ListingLe(c, e);
      assert e == c;
      TwiceMeansMultiplicityTwo(l, i, |rows|);
      assert multiset(after)[c] == multiset(rows)[c] + 1;
      assert c !in rows;
    }
  }

  /** A listing permutes the rows, so it has the same panes. */
  lemma ListingHasSamePanes(rows: seq<Component>, p: PaneId)
    ensures HasPane(Listing(rows), p) <==> HasPane(rows, p)
  {
    ListingIsOrdered(rows);
    var l := Listing(rows);
    if HasPane(rows, p) {
      var i :| 0 <= i < |rows| && PaneKey(rows[i]) == Some(p);
      assert rows[i] in l;
    }
    if HasPane(l, p) {
      var i :| 0 <= i < |l| && PaneKey(l[i]) == Some(p);
      assert l[i] in rows;
    }
  }

  /** A pane that only the appended component uses is listed by the editor. */
  lemma NewPaneListed(rows: seq<Component>, c: Component, pane: PaneId) returns (j: nat)
    requires pane != "" && c.paneId == Some(pane)
    ensures var g := ListedPanes(Listing(rows + [c]));
            j < |g| && g[j].id == pane
  {
    var after := rows + [c];
    assert after[|rows|] == c;
    ListingHasSamePanes(after, pane);
    GroupsArePaneIds(Listing(after));
    var g := ListedPanes(Listing(after));
    j :| 0 <= j < |g| && g[j].id == pane;
  }

  /** The members of that pane's group are the appended component, unless
      it is a placeholder. */
  lemma NewPaneMembers(rows: seq<Component>, c: Component, pane: PaneId, j: nat)
    requires c.paneId == Some(pane)
    requires forall x :: x in rows ==> x.paneId != Some(pane)
    requires j < |ListedPanes(Listing(rows + [c]))| && ListedPanes(Listing(rows + [c]))[j].id == pane
    ensures var ms := ListedPanes(Listing(rows + [c]))[j].members;
            && (forall m :: m in ms ==> m == c)
            && (c in ms <==> !IsPlaceholder(c))
  {
    var l := Listing(rows + [c]);
    ListingIsOrdered(rows + [c]);
    GroupContents(l, j);
    OnlyNewMember(rows, c, pane, l, ListedPanes(l)[j].members);
  }

  /** The real members of a pane only `c` uses, taken from any arrangement of
      `rows + [c]`, are `c` alone, or none when it is a placeholder. */
  lemma OnlyNewMember(rows: seq<Component>, c: Component, pane: PaneId, l: seq<Component>, ms: seq<Component>)
    requires c.paneId == Some(pane)
    requires forall x :: x in rows ==> x.paneId != Some(pane)
    requires forall x :: x in l <==> x in rows + [c]
    requires forall m :: m in ms <==> m in l && IsRealMemberOf(m, pane)
    ensures forall m :: m in ms ==> m == c
    ensures c in ms <==> !IsPlaceholder(c)
  {
    forall m | m in ms ensures m == c {
      assert m in rows + [c];
    }
    assert c in rows + [c];
  }

  /** A group of a listing with unique ids has members with unique ids. */
  lemma GroupMembersUniqueIds(l: seq<Component>, j: nat)
    requires UniqueIds(l) && j < |ListedPanes(l)|
    ensures UniqueIds(ListedPanes(l)[j].members)
  {
    var g := ListedPanes(l)[j];
    GroupContents(l, j);
    RealMembersUniqueIds(l, g.id);
    PermutationKeepsUniqueIds(RealMembers(l, g.id), g.members);
  }

  /** A list with unique ids holds one value at most once. */
  lemma AtMostOneCopy(ms: seq<Component>, c: Component)
    requires UniqueIds(ms)
    requires forall i :: 0 <= i < |ms| ==> ms[i] == c
    ensures |ms| <= 1
  {
    UniqueIdsMultiplicity(ms, c);
    CopiesCount(ms, c);
  }

  lemma {:induction false} UniqueIdsMultiplicity(ms: seq<Component>, x: Component)
    requires UniqueIds(ms)
    ensures multiset(ms)[x] <= 1
  {
    if |ms| > 0 {
      var tail := ms[1..];
      assert ms == [ms[0]] + tail;
      UniqueIdsMultiplicity(tail, x);
      if ms[0] == x {
        forall k | 0 <= k < |tail| ensures tail[k] != x {
          assert tail[k] == ms[k + 1];
        }
      }
    }
  }

  lemma {:induction false} CopiesCount(ms: seq<Component>, c: Component)
    requires forall i :: 0 <= i < |ms| ==> ms[i] == c
    ensures multiset(ms)[c] == |ms|
  {
    if |ms| > 0 {
      assert ms == [ms[0]] + ms[1..];
      CopiesCount(ms[1..], c);
    }
  }

  /** A new component in a pane no row uses: the editor lists a group for that
      pane whose members are exactly the component, or none when it is a
      placeholder. */
  lemma NewPaneGroup(rows: seq<Component>, c: Component, pane: PaneId) returns (j: nat)
    requires UniqueIds(rows) && FindIndex(rows, c.id).None?
    requires pane != "" && c.paneId == Some(pane)
    requires forall x :: x in rows ==> x.paneId != Some(pane)
    ensures var g := ListedPanes(Listing(rows + [c]));
            && j < |g| && g[j].id == pane
            && (IsPlaceholder(c) ==> g[j].members == [])
            && (!IsPlaceholder(c) ==> g[j].members == [c])
  {
    assert UniqueIds(rows + [c]);
    j := NewPaneListed(rows, c, pane);
    NewPaneMembers(rows, c, pane, j);
    ListingIsOrdered(rows + [c]);
    GroupMembersUniqueIds(Listing(rows + [c]), j);
    OnlyCopyOrNone(ListedPanes(Listing(rows + [c]))[j].members, c, !IsPlaceholder(c));
  }

  /** A list with unique ids that holds nothing but `c` is `[c]` or empty. */
  lemma OnlyCopyOrNone(ms: seq<Component>, c: Component, present: bool)
    requires UniqueIds(ms)
    requires forall m :: m in ms ==> m == c
    requires c in ms <==> present
    ensures present ==> ms == [c]
    ensures !present ==> ms == []
  {
    forall i | 0 <= i < |ms| ensures ms[i] == c {
      assert ms[i] in ms;
    }
    AtMostOneCopy(ms, c);
    assert |ms| == 1 ==> ms[0] in ms;
  }

  /** A created component is listed last and is the only card of its own new
      pane in the editor. */
  lemma CreatedShowsOwnPane(rows: seq<Component>, id: Id, name: string, kind: string,
                            content: Option<string>, pane: PaneId) returns (j: nat)
    requires UniqueIds(rows) && FindIndex(rows, id).None?
    requires pane != "" && forall x :: x in rows ==> x.paneId != Some(pane)
    requires kind != PlaceholderKind
    ensures var c := NewComponent(rows, id, name, kind, content, pane);
            var g := ListedPanes(Listing(rows + [c]));
            && Listing(rows + [c])[|rows|] == c
            && j < |g| && g[j] == Pane(pane, [c])
  {
    var c := NewComponent(rows, id, name, kind, content, pane);
    CreatedComesLast(rows, c);
    j := NewPaneGroup(rows, c, pane);
  }

  /** A created group is the first and only placeholder of the store, and the
      editor lists it as an empty group. */
  lemma GroupShowsEmptyPane(rows: seq<Component>, id: Id, pane: PaneId) returns (j: nat)
    requires UniqueIds(rows) && FindIndex(rows, id).None?
    requires pane != "" && forall x :: x in rows ==> x.paneId != Some(pane)
    requires FirstPlaceholder(rows).None?
    ensures var c := NewComponent(rows, id, PlaceholderName, PlaceholderKind, None, pane);
            var after := rows + [c];
            var g := ListedPanes(Listing(after));
            && FirstPlaceholder(after) == Some(c)
            && (forall i :: 0 <= i < |after| && IsPlaceholder(after[i]) ==> i == |rows|)
            && j < |g| && g[j] == Pane(pane, [])
  {
    var c := NewComponent(rows, id, PlaceholderName, PlaceholderKind, None, pane);
    var after := rows + [c];
    FirstPlaceholderOfAppend(rows, c);
    j := NewPaneGroup(rows, c, pane);
  }

  lemma {:induction false} FirstPlaceholderOfAppend(rows: seq<Component>, c: Component)
    requires FirstPlaceholder(rows).None? && IsPlaceholder(c)
    ensures FirstPlaceholder(rows + [c]) == Some(c)
    decreases |rows|
  {
    if |rows| > 0 {
      assert (rows + [c])[1..] == rows[1..] + [c];
      assert rows[0] in rows;
      FirstPlaceholderOfAppend(rows[1..], c);
    }
  }

  /** Every id of a drop's working copy names a stored row. */
  lemma BatchIdsStored(rows: seq<Component>, u: seq<Component>)
    requires UniqueIds(rows)
    requires OnlyReplaced(Listing(rows), u)
    ensures forall k :: 0 <= k < |u| ==> FindIndex(rows, u[k].id).Some?
    ensures forall k :: 0 <= k < |u| ==>
              Applied(rows[FindIndex(rows, u[k].id).value], ToUpdate(u[k])) == u[k]
  {
    var s := Listing(rows);
    ListingIsOrdered(rows);
    forall k | 0 <= k < |u|
      ensures FindIndex(rows, u[k].id).Some?
      ensures Applied(rows[FindIndex(rows, u[k].id).value], ToUpdate(u[k])) == u[k]
    {
      assert Replaces(s, u[k]);
      var j := FindIndex(s, u[k].id).value;
      assert s[j] in rows;
      var i :| 0 <= i < |rows| && rows[i] == s[j];
      FindIndexOfUnique(rows, i);
      assert Unplaced(u[k]) == Unplaced(rows[i]);
    }
  }

  /** A persisted drop, replayed on the store it was planned from, succeeds
      and leaves each row as the planner's working copy has it; rows the
      working copy no longer holds are left as stored. */
  lemma DropPersistsLayout(rows: seq<Component>, drop: Drop)
    requires UniqueIds(rows)
    requires Plan(Some(Listing(rows)), drop).Persist?
    ensures var s := Listing(rows);
            var u := Rearrange(s, drop.source, drop.destination.value, drop.draggableId).layout;
            var r := ReplayBatch(rows, Plan(Some(s), drop).batch);
            && r.ok && |r.rows| == |rows|
            && (forall i, k :: 0 <= i < |rows| && 0 <= k < |u| && u[k].id == rows[i].id ==> r.rows[i] == u[k])
            && (forall i :: 0 <= i < |rows| && (forall k :: 0 <= k < |u| ==> u[k].id != rows[i].id) ==>
                  r.rows[i] == rows[i])
  {
    var s := Listing(rows);
    var dst := drop.destination.value;
    var u := Rearrange(s, drop.source, dst, drop.draggableId).layout;
    assert Plan(Some(s), drop).batch == ToBatch(u);
    ListingIsOrdered(rows);
    RearrangeOnlyReplaced(s, drop.source, dst, drop.draggableId);
    BatchIdsStored(rows, u);
    ReplayOfLayout(rows, u);
  }

  /** Replaying the batch of a list with unique ids, each naming a stored
      row that its update turns into the list's entry. */
  lemma ReplayOfLayout(rows: seq<Component>, u: seq<Component>)
    requires UniqueIds(rows) && UniqueIds(u)
    requires forall k :: 0 <= k < |u| ==> FindIndex(rows, u[k].id).Some?
    requires forall k :: 0 <= k < |u| ==>
               Applied(rows[FindIndex(rows, u[k].id).value], ToUpdate(u[k])) == u[k]
    ensures var r := ReplayBatch(rows, ToBatch(u));
            && r.ok && |r.rows| == |rows|
            && (forall i, k :: 0 <= i < |rows| && 0 <= k < |u| && u[k].id == rows[i].id ==> r.rows[i] == u[k])
            && (forall i :: 0 <= i < |rows| && (forall k :: 0 <= k < |u| ==> u[k].id != rows[i].id) ==>
                  r.rows[i] == rows[i])
  {
    var b := ToBatch(u);
    BatchOfDistinct(u);
    ReplayPatches(rows, b);
    var r := ReplayBatch(rows, b);
    forall i, k | 0 <= i < |rows| && 0 <= k < |u| && u[k].id == rows[i].id ensures r.rows[i] == u[k] {
      PatchedListed(rows[i], b, k);
      FindIndexOfUnique(rows, i);
    }
    forall i | 0 <= i < |rows| && (forall k :: 0 <= k < |u| ==> u[k].id != rows[i].id)
      ensures r.rows[i] == rows[i]
    {
      PatchedUnlisted(rows[i], b);
    }
  }

  /** The batch of a list holds its entries' ids, in order. */
  lemma BatchOfDistinct(u: seq<Component>)
    requires UniqueIds(u)
    ensures |ToBatch(u)| == |u| && DistinctUpdateIds(ToBatch(u))
    ensures forall k :: 0 <= k < |u| ==> ToBatch(u)[k] == ToUpdate(u[k]) && ToBatch(u)[k].id == u[k].id
  {
  }

  /** The insert branch only leaves the destination's placeholder out of the
      batch: replayed on the store, the placeholder row is still there,
      unchanged. */
  lemma DropKeepsPlaceholderRow(rows: seq<Component>, drop: Drop)
    requires UniqueIds(rows)
    requires Plan(Some(Listing(rows)), drop).Persist?
    requires drop.source.droppableId != drop.destination.value.droppableId
    requires |OtherRealMembers(Listing(rows), drop.destination.value.droppableId, drop.draggableId)| < 2
    requires FindPlaceholder(Listing(rows), drop.destination.value.droppableId).Some?
    ensures var ph := FindPlaceholder(Listing(rows), drop.destination.value.droppableId).value;
            var r := ReplayBatch(rows, Plan(Some(Listing(rows)), drop).batch);
            && ph in rows && ph in r.rows
            && forall i :: 0 <= i < |rows| && rows[i] == ph ==> r.rows[i] == ph
  {
    var s := Listing(rows);
    ListingIsOrdered(rows);
    var dst := drop.destination.value;
    var ph := FindPlaceholder(s, dst.droppableId).value;
    InsertDropsOnlyPlaceholder(s, drop.source, dst, drop.draggableId);
    var u := Rearrange(s, drop.source, dst, drop.draggableId).layout;
    DropPersistsLayout(rows, drop);
    var r := ReplayBatch(rows, Plan(Some(s), drop).batch);
    var i :| 0 <= i < |rows| && rows[i] == ph;
    assert r.rows[i] == ph;
  }
}
