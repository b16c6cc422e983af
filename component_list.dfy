/**
  The editor's pane list (src/components/ComponentList.tsx).  A JavaScript
  `Map` from pane id to member list is filled by walking the components
  twice and then re-set with each list sorted by slot; its entries, in key
  insertion order, are then sorted by the least `position` of their members,
  an empty group counting as +Infinity.  Each group is drawn as two cells,
  the members at drag indices 0 and 1.
*/
module ComponentList {
  import opened Sorting
  import opened Layout

  /** A JavaScript `Map<string, ComponentData[]>`: its keys in insertion
      order and its key-to-list mapping. */
  class PaneGroupMap {
    var keys: seq<PaneId>
    var groups: map<PaneId, seq<Component>>

    ghost predicate Valid()
      reads this
    {
      && (forall i, j :: 0 <= i < j < |keys| ==> keys[i] != keys[j])
      && (forall k :: k in groups <==> k in keys)
    }

    constructor ()
      ensures Valid() && keys == [] && groups == map[]
    {
      keys := [];
      groups := map[];
    }

    /** `map.set(k, v)`: a new key goes to the end of the key order. */
    method Set(k: PaneId, v: seq<Component>)
      requires Valid()
      modifies this
      ensures Valid()
      ensures groups == old(groups)[k := v]
      ensures keys == if k in old(groups) then old(keys) else old(keys) + [k]
    {
      if k !in groups {
        keys := keys + [k];
      }
      groups := groups[k := v];
    }

    /** `map.get(k)!.push(c)` */
    method Push(k: PaneId, c: Component)
      requires Valid() && k in groups
      modifies this
      ensures Valid()
      ensures groups == old(groups)[k := old(groups)[k] + [c]]
      ensures keys == old(keys)
    {
      groups := groups[k := groups[k] + [c]];
    }

    /** `Array.from(map.entries())` */
    function Entries(): (r: seq<Pane>)
      reads this
      requires Valid()
      ensures |r| == |keys|
      ensures forall i :: 0 <= i < |r| ==> r[i] == Pane(keys[i], groups[keys[i]])
    {
      seq(|keys|, i requires 0 <= i < |keys| && keys[i] in groups reads this => Pane(keys[i], groups[keys[i]]))
    }
  }

  /** The groups in key order: one per distinct truthy pane id, holding the
      pane's real members in slot order. */
  function Groups(s: seq<Component>): (r: seq<Pane>)
    ensures |r| == |DistinctPaneIds(s)|
  {
    var ids := DistinctPaneIds(s);
    seq(|ids|, i requires 0 <= i < |ids| => Pane(ids[i], PaneOrder(s, ids[i])))
  }

  /** `sortedPaneEntries` */
  function ListedPanes(s: seq<Component>): (r: seq<Pane>)
    ensures |r| == |DistinctPaneIds(s)|
  {
    SortBy(PaneLe, Groups(s))
  }

  /** The groups after the first walk over `t`. */
  function Collected(t: seq<Component>): map<PaneId, seq<Component>> {
    map k | k in DistinctPaneIds(t) :: RealMembers(t, k)
  }

  /** A pane id no component carries has no real members. */
  lemma NoPaneNoMembers(t: seq<Component>, p: PaneId)
    requires p != "" && p !in DistinctPaneIds(t)
    ensures RealMembers(t, p) == []
  {
    RealMembersHolds(t, p);
    DistinctPaneIdsHolds(t);
  }

  /** One step of the first walk, on the key order. */
  lemma KeysStep(s: seq<Component>, i: nat)
    requires i < |s|
    ensures var d, key := DistinctPaneIds(s[..i]), PaneKey(s[i]);
            DistinctPaneIds(s[..i + 1]) == if key.Some? && key.value !in d then d + [key.value] else d
  {
    assert s[..i + 1][..i] == s[..i];
  }

  /** One step of the first walk, on one pane's members. */
  lemma MembersStep(s: seq<Component>, i: nat, k: PaneId)
    requires i < |s|
    ensures RealMembers(s[..i + 1], k) == RealMembers(s[..i], k) + (if IsRealMemberOf(s[i], k) then [s[i]] else [])
  {
    assert s[..i + 1][..i] == s[..i];
  }

  lemma SkipStep(s: seq<Component>, i: nat)
    requires i < |s| && PaneKey(s[i]).None?
    ensures Collected(s[..i + 1]) == Collected(s[..i])
  {
    KeysStep(s, i);
    forall k | k in Collected(s[..i + 1]) ensures Collected(s[..i + 1])[k] == Collected(s[..i])[k] {
      MembersStep(s, i, k);
    }
  }

  /** The list a map holds for `p`, or none. */
  function GroupOr(m: map<PaneId, seq<Component>>, p: PaneId): seq<Component> {
    if p in m then m[p] else []
  }

  /** A placeholder's step: its pane's group exists afterwards, unchanged. */
  lemma PlaceholderStep(s: seq<Component>, i: nat, p: PaneId)
    requires i < |s| && PaneKey(s[i]) == Some(p) && IsPlaceholder(s[i])
    ensures var m := Collected(s[..i]);
            Collected(s[..i + 1]) == m[p := GroupOr(m, p)]
  {
    var m, m' := Collected(s[..i]), Collected(s[..i + 1]);
    KeysStep(s, i);
    assert m'.Keys == m[p := GroupOr(m, p)].Keys;
    forall k | k in m' ensures m'[k] == m[p := GroupOr(m, p)][k] {
      MembersStep(s, i, k);
      if k == p && p !in m {
        NoPaneNoMembers(s[..i], p);
      }
    }
  }

  /** A real member's step: it is appended to its pane's group. */
  lemma MemberStep(s: seq<Component>, i: nat, p: PaneId)
    requires i < |s| && PaneKey(s[i]) == Some(p) && !IsPlaceholder(s[i])
    ensures var m := Collected(s[..i]);
            Collected(s[..i + 1]) == m[p := GroupOr(m, p) + [s[i]]]
  {
    var m, m' := Collected(s[..i]), Collected(s[..i + 1]);
    KeysStep(s, i);
    assert m'.Keys == m[p := GroupOr(m, p) + [s[i]]].Keys;
    forall k | k in m' ensures m'[k] == m[p := GroupOr(m, p) + [s[i]]][k] {
      MembersStep(s, i, k);
      if k == p && p !in m {
        NoPaneNoMembers(s[..i], p);
      }
    }
  }

  /** The body of the first walk for a component in pane `p`: the pane's
      group is created when missing, and a real member is pushed into it. */
  method Enter(g: PaneGroupMap, p: PaneId, c: Component)
    requires g.Valid()
    modifies g
    ensures g.Valid()
    ensures g.keys == if p in old(g.groups) then old(g.keys) else old(g.keys) + [p]
    ensures !IsPlaceholder(c) ==> g.groups == old(g.groups)[p := GroupOr(old(g.groups), p) + [c]]
    ensures IsPlaceholder(c) ==> g.groups == old(g.groups)[p := GroupOr(old(g.groups), p)]
  {
    ghost var m := g.groups;
    if p !in g.groups {
      g.Set(p, []);
    }
    assert g.groups == m[p := GroupOr(m, p)];
    if !IsPlaceholder(c) {
      g.Push(p, c);
      assert g.groups == m[p := GroupOr(m, p) + [c]];
    }
  }

  /** One iteration of the first walk, on component `s[i]`. */
  method VisitComponent(s: seq<Component>, i: nat, g: PaneGroupMap)
    requires i < |s|
    requires g.Valid() && g.keys == DistinctPaneIds(s[..i]) && g.groups == Collected(s[..i])
    modifies g
    ensures g.Valid() && g.keys == DistinctPaneIds(s[..i + 1]) && g.groups == Collected(s[..i + 1])
  {
    var c := s[i];
    KeysStep(s, i);
    if c.paneId.Some? && c.paneId.value != "" {
      var p := c.paneId.value;
      assert p in g.groups <==> p in DistinctPaneIds(s[..i]);
      if IsPlaceholder(c) {
        PlaceholderStep(s, i, p);
      } else {
        MemberStep(s, i, p);
      }
      Enter(g, p, c);
    } else {
      SkipStep(s, i);
    }
  }

  /** The first walk over the components: every truthy pane id gets a group,
      and every component that is not a placeholder is pushed into its own. */
  method CollectMembers(s: seq<Component>, g: PaneGroupMap)
    requires g.Valid() && g.keys == [] && g.groups == map[]
    modifies g
    ensures g.Valid()
    ensures g.keys == DistinctPaneIds(s)
    ensures g.groups == Collected(s)
  {
    for i := 0 to |s|
      invariant g.Valid()
      invariant g.keys == DistinctPaneIds(s[..i])
      invariant g.groups == Collected(s[..i])
    {
      VisitComponent(s, i, g);
    }
    assert s[..|s|] == s;
  }

  /** The second walk: a placeholder's pane gets an empty group if it has
      none yet.  The first walk already gave every truthy pane id a group,
      so this walk never changes the map. */
  method CollectPlaceholderPanes(s: seq<Component>, g: PaneGroupMap)
    requires g.Valid() && g.keys == DistinctPaneIds(s)
    modifies g
    ensures g.keys == old(g.keys) && g.groups == old(g.groups)
  {
    for i := 0 to |s|
      invariant g.keys == old(g.keys) && g.groups == old(g.groups)
    {
      var c := s[i];
      if c.paneId.Some? && c.paneId.value != "" && IsPlaceholder(c) {
        assert HasPane(s, c.paneId.value) by {
          assert PaneKey(s[i]) == Some(c.paneId.value);
        }
        DistinctPaneIdsHolds(s);
        if c.paneId.value !in g.groups {
          assert false;
        }
      }
    }
  }

  /** The map with the lists of the keys in `done` sorted by slot. */
  function SortedWhere(m: map<PaneId, seq<Component>>, done: seq<PaneId>): map<PaneId, seq<Component>> {
    map k | k in m :: if k in done then SortBy(SlotLe, m[k]) else m[k]
  }

  /** Sorting the list of one more key, not sorted before. */
  lemma SortStep(m: map<PaneId, seq<Component>>, keys: seq<PaneId>, j: nat)
    requires j < |keys| && keys[j] in m && keys[j] !in keys[..j]
    ensures var before := SortedWhere(m, keys[..j]);
            before[keys[j] := SortBy(SlotLe, before[keys[j]])] == SortedWhere(m, keys[..j + 1])
  {
    var before := SortedWhere(m, keys[..j]);
    var after := SortedWhere(m, keys[..j + 1]);
    assert keys[..j + 1] == keys[..j] + [keys[j]];
    forall k | k in m ensures before[keys[j] := SortBy(SlotLe, before[keys[j]])][k] == after[k] {
      assert k in keys[..j + 1] <==> k in keys[..j] || k == keys[j];
    }
    assert before[keys[j] := SortBy(SlotLe, before[keys[j]])].Keys == after.Keys;
  }

  /** Once every key is done, every list is sorted. */
  lemma SortedWhereAll(m: map<PaneId, seq<Component>>, keys: seq<PaneId>)
    requires forall k :: k in m <==> k in keys
    ensures SortedWhere(m, keys) == map k | k in m :: SortBy(SlotLe, m[k])
  {
  }

  /** The third walk: every group is re-set to its list sorted by slot. */
  method SortGroups(g: PaneGroupMap)
    requires g.Valid()
    modifies g
    ensures g.Valid() && g.keys == old(g.keys)
    ensures g.groups == map k | k in old(g.groups) :: SortBy(SlotLe, old(g.groups)[k])
  {
    ghost var start := g.groups;
    assert g.keys[..0] == [];
    assert SortedWhere(start, []) == start;
    for j := 0 to |g.keys|
      invariant g.Valid() && g.keys == old(g.keys)
      invariant g.groups == SortedWhere(start, g.keys[..j])
    {
      SortKey(g, start, j);
    }
    assert g.keys[..|g.keys|] == g.keys;
    SortedWhereAll(start, g.keys);
  }

  /** One iteration of the third walk: the group of the `j`-th key is re-set sorted. */
  method SortKey(g: PaneGroupMap, ghost start: map<PaneId, seq<Component>>, j: nat)
    requires g.Valid() && j < |g.keys|
    requires forall k :: k in start <==> k in g.keys
    requires g.groups == SortedWhere(start, g.keys[..j])
    modifies g
    ensures g.Valid() && g.keys == old(g.keys)
    ensures g.groups == SortedWhere(start, g.keys[..j + 1])
  {
    var k := g.keys[j];
    assert k !in g.keys[..j] by {
      assert forall i :: 0 <= i < j ==> g.keys[..j][i] == g.keys[i];
    }
    SortStep(start, g.keys, j);
    g.Set(k, SortBy(SlotLe, g.groups[k]));
  }

  /** Builds the groups and returns the sorted entries together with the
      group count shown in the list's header (`paneGroups.size`). */
  method GroupPanes(s: seq<Component>) returns (panes: seq<Pane>, count: nat)
    ensures panes == ListedPanes(s)
    ensures count == |DistinctPaneIds(s)|
  {
    var g := new PaneGroupMap();
    CollectMembers(s, g);
    CollectPlaceholderPanes(s, g);
    SortGroups(g);
    count := |g.keys|;
    var entries := g.Entries();
    assert entries == Groups(s);
    panes := SortBy(PaneLe, entries);
  }

  /** The two cells of a group: the members at drag indices 0 and 1, or an
      empty drop cell; members past the second are not drawn. */
  function Cells(g: Pane): (r: seq<Option<Component>>)
    ensures |r| == 2
    ensures forall k :: 0 <= k < 2 ==> (r[k].Some? <==> k < |g.members|)
    ensures forall k :: 0 <= k < 2 && k < |g.members| ==> r[k] == Some(g.members[k])
  {
    [if |g.members| > 0 then Some(g.members[0]) else None,
     if |g.members| > 1 then Some(g.members[1]) else None]
  }

  function PaneIdOf(g: Pane): PaneId {
    g.id
  }

  /** Every listed group is one of the unsorted groups, built for one of the
      distinct pane ids. */
  lemma ListedGroupIsBuilt(s: seq<Component>, i: nat) returns (k: nat)
    requires i < |ListedPanes(s)|
    ensures k < |DistinctPaneIds(s)|
    ensures ListedPanes(s)[i] == Pane(DistinctPaneIds(s)[k], PaneOrder(s, DistinctPaneIds(s)[k]))
  {
    var g := Groups(s);
    assert ListedPanes(s)[i] in multiset(g);
    k := IndexOfElement(g, ListedPanes(s)[i]);
  }

  /** The group ids are pairwise distinct. */
  lemma GroupIdsDistinct(s: seq<Component>)
    ensures var r := ListedPanes(s);
            forall i, j :: 0 <= i < j < |r| ==> r[i].id != r[j].id
  {
    var g := Groups(s);
    var ids := DistinctPaneIds(s);
    assert KeysDistinct(PaneIdOf, g) by {
      forall i, j | 0 <= i < j < |g| ensures PaneIdOf(g[i]) != PaneIdOf(g[j]) {
        assert g[i].id == ids[i] && g[j].id == ids[j];
      }
    }
    PermutationKeepsKeysDistinct(PaneIdOf, g, ListedPanes(s));
  }

  /** There is one group per distinct truthy pane id and no other: a pane
      holding only a placeholder still has its (empty) group, and the group
      count equals the number of distinct truthy pane ids. */
  lemma GroupsArePaneIds(s: seq<Component>)
    ensures var r := ListedPanes(s);
            && |r| == |DistinctPaneIds(s)|
            && (forall i, j :: 0 <= i < j < |r| ==> r[i].id != r[j].id)
            && (forall p :: (exists i :: 0 <= i < |r| && r[i].id == p) <==> HasPane(s, p))
  {
    GroupIdsDistinct(s);
    DistinctPaneIdsHolds(s);
    var r := ListedPanes(s);
    var ids := DistinctPaneIds(s);
    forall p | HasPane(s, p) ensures exists i :: 0 <= i < |r| && r[i].id == p {
      var k :| 0 <= k < |ids| && ids[k] == p;
      var g := Groups(s);
      assert g[k] in multiset(r);
      var i := IndexOfElement(r, g[k]);
      assert r[i].id == p;
    }
    forall i | 0 <= i < |r| ensures HasPane(s, r[i].id) {
      var k := ListedGroupIsBuilt(s, i);
      assert ids[k] in ids;
    }
  }

  /** Each group holds exactly the real members of its pane, no placeholder
      and no component without a pane id, ordered by slot: it is the pane's
      `PaneOrder`. */
  lemma GroupContents(s: seq<Component>, i: nat)
    requires i < |ListedPanes(s)|
    ensures var g := ListedPanes(s)[i];
            && g.members == PaneOrder(s, g.id)
            && SortedBy(SlotLe, g.members)
            && (forall c :: c in g.members <==> c in s && IsRealMemberOf(c, g.id))
            && (forall c :: c in g.members ==> !IsPlaceholder(c) && PaneKey(c) == Some(g.id))
  {
    var g := ListedPanes(s)[i];
    var groups := Groups(s);
    var ids := DistinctPaneIds(s);
    assert g in multiset(groups);
    var k :| 0 <= k < |groups| && groups[k] == g;
    assert ids[k] in ids;
    DistinctPaneIdsHolds(s);
    assert g.id != "";
    SlotLeIsTotalPreorder();
    SortByIsSorted(SlotLe, RealMembers(s, g.id));
    RealMembersHolds(s, g.id);
    forall c ensures c in g.members <==> c in RealMembers(s, g.id) {
      assert c in g.members <==> c in multiset(g.members);
      assert c in RealMembers(s, g.id) <==> c in multiset(RealMembers(s, g.id));
    }
  }

  /** Groups with members come first, ordered by their least `position`;
      groups without members (+Infinity) come after all of them. */
  lemma GroupOrder(s: seq<Component>)
    ensures var r := ListedPanes(s);
            && SortedBy(PaneLe, r)
            && (forall i, j :: 0 <= i < j < |r| && |r[i].members| == 0 ==> |r[j].members| == 0)
            && (forall i, j :: 0 <= i < j < |r| && |r[i].members| > 0 && |r[j].members| > 0 ==>
                  MinPosition(r[i].members).value <= MinPosition(r[j].members).value)
  {
    PaneLeIsTotalPreorder();
    SortByIsSorted(PaneLe, Groups(s));
    var r := ListedPanes(s);
    forall i, j | 0 <= i < j < |r| && |r[i].members| == 0 ensures |r[j].members| == 0 {
      assert PaneLe(r[i], r[j]);
    }
    forall i, j | 0 <= i < j < |r| && |r[i].members| > 0 && |r[j].members| > 0
      ensures MinPosition(r[i].members).value <= MinPosition(r[j].members).value
    {
      assert PaneLe(r[i], r[j]);
    }
  }

  /** The card drawn at drag index `k` of a group is entry `k` of its pane's
      `PaneOrder`, the list the drop planner's same-pane branch indexes with
      the drag source index; an empty cell means the pane has no entry `k`. */
  lemma CardAtDragIndex(s: seq<Component>, i: nat, k: nat)
    requires i < |ListedPanes(s)| && k < 2
    ensures var g := ListedPanes(s)[i];
            var cell := Cells(g)[k];
            && (cell.Some? <==> k < |PaneOrder(s, g.id)|)
            && (cell.Some? ==> cell.value == PaneOrder(s, g.id)[k])
  {
    GroupContents(s, i);
  }
}
