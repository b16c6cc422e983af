/**
  The insert branch of the drop planner: a drop into another pane holding
  fewer than two other real members.  The working copy it produces is the
  snapshot with every entry transformed by `InsertedEntry` and the
  destination's placeholder spliced out; the destination pane's real members
  then hold slots 0..n and the source pane's remaining real members, in their
  old slot order, hold slots 0..k-1.
*/
module DropInsertProofs {
  import opened Sorting
  import opened Layout
  import opened DropPlanner
  import opened DropPlanProofs

  /** Kept by the source-pane filter: a real member of `p` other than `id`. */
  predicate KeptBy(c: Component, p: PaneId, id: Id) {
    IsRealMemberOf(c, p) && c.id != id
  }

  /** Two lists that agree on every entry the filter keeps filter alike. */
  lemma {:induction false} OtherRealMembersPointwise(a: seq<Component>, b: seq<Component>, p: PaneId, id: Id)
    requires |a| == |b|
    requires forall i :: 0 <= i < |a| && (KeptBy(a[i], p, id) || KeptBy(b[i], p, id)) ==> a[i] == b[i]
    ensures OtherRealMembers(a, p, id) == OtherRealMembers(b, p, id)
    decreases |a|
  {
    if |a| > 0 {
      var n := |a| - 1;
      OtherRealMembersPointwise(a[..n], b[..n], p, id);
      assert KeptBy(a[n], p, id) || KeptBy(b[n], p, id) ==> a[n] == b[n];
      assert OtherRealMembers(a, p, id)
          == OtherRealMembers(a[..n], p, id) + (if KeptBy(a[n], p, id) then [a[n]] else []);
      assert OtherRealMembers(b, p, id)
          == OtherRealMembers(b[..n], p, id) + (if KeptBy(b[n], p, id) then [b[n]] else []);
    }
  }

  lemma {:induction false} OtherRealMembersConcat(a: seq<Component>, b: seq<Component>, p: PaneId, id: Id)
    ensures OtherRealMembers(a + b, p, id) == OtherRealMembers(a, p, id) + OtherRealMembers(b, p, id)
    decreases |b|
  {
    if |b| == 0 {
      assert a + b == a;
    } else {
      var n := |b| - 1;
      assert (a + b)[..|a + b| - 1] == a + b[..n];
      OtherRealMembersConcat(a, b[..n], p, id);
    }
  }

  /** An entry the filter drops can be taken out of the middle of a list. */
  lemma {:induction false} OtherRealMembersDropMiddle(x: seq<Component>, c: Component, y: seq<Component>,
                                                     p: PaneId, id: Id)
    requires !KeptBy(c, p, id)
    ensures OtherRealMembers(x + [c] + y, p, id) == OtherRealMembers(x + y, p, id)
    decreases |y|
  {
    if |y| == 0 {
      assert (x + [c] + y)[..|x|] == x && x + y == x;
    } else {
      var n := |y| - 1;
      assert (x + [c] + y)[..|x| + 1 + n] == x + [c] + y[..n];
      assert (x + y)[..|x| + n] == x + y[..n];
      OtherRealMembersDropMiddle(x, c, y[..n], p, id);
    }
  }

  /** Splicing out an entry the filter drops does not change the filter. */
  lemma OtherRealMembersRemoveAt(a: seq<Component>, k: nat, p: PaneId, id: Id)
    requires k < |a| && !KeptBy(a[k], p, id)
    ensures OtherRealMembers(RemoveAt(a, k), p, id) == OtherRealMembers(a, p, id)
  {
    assert a == a[..k] + [a[k]] + a[k + 1..];
    OtherRealMembersDropMiddle(a[..k], a[k], a[k + 1..], p, id);
  }

  lemma RemoveAtUniqueIds(a: seq<Component>, k: nat)
    requires UniqueIds(a) && k < |a|
    ensures UniqueIds(RemoveAt(a, k))
  {
    var r := RemoveAt(a, k);
    forall i, j | 0 <= i < j < |r| ensures r[i].id != r[j].id {
      var i' := if i < k then i else i + 1;
      var j' := if j < k then j else j + 1;
      assert r[i] == a[i'] && r[j] == a[j'];
    }
  }

  /** What the insert branch makes of a snapshot entry `c`: the dragged
      component moves to the destination pane at `slot`, each other real
      member of the destination gets its index in `dest` shifted past `slot`,
      each remaining real member of the source pane gets its rank in `rest`,
      and every other component is kept as it is. */
  function InsertedEntry(c: Component, id: Id, src: PaneId, dst: PaneId, slot: nat,
                         dest: seq<Component>, rest: seq<Component>): (r: Component)
    ensures r.id == c.id
  {
    if c.id == id then MovedTo(c, dst, slot)
    else if IsRealMemberOf(c, dst) then WithSlot(c, Shifted(Rank(dest, c), slot))
    else if IsRealMemberOf(c, src) then WithSlot(c, Rank(rest, c))
    else c
  }

  function InsertedEntries(s: seq<Component>, id: Id, src: PaneId, dst: PaneId, slot: nat,
                           dest: seq<Component>, rest: seq<Component>): (r: seq<Component>)
    ensures SameIds(s, r)
  {
    seq(|s|, i requires 0 <= i < |s| => InsertedEntry(s[i], id, src, dst, slot, dest, rest))
  }

  /** The effect of the two renumbering loops of the insert branch on one
      entry of the working copy. */
  function Renumbered(c: Component, dest: seq<Component>, slot: nat, rest: seq<Component>): Component {
    Relabeled(Relabeled(c, IndexOfId(dest, c.id), slot), IndexOfId(rest, c.id), |rest|)
  }

  /** A list of exactly the kept entries of a list with unique ids holds the
      id of an entry exactly when the filter keeps that entry. */
  lemma IndexOfIdIffKept(s: seq<Component>, ms: seq<Component>, p: PaneId, id: Id, c: Component)
    requires UniqueIds(s)
    requires forall m :: m in ms <==> m in s && KeptBy(m, p, id)
    requires c in s
    ensures IndexOfId(ms, c.id).Some? <==> KeptBy(c, p, id)
  {
    var k := IndexOfId(ms, c.id);
    if k.Some? {
      assert ms[k.value] in ms;
      SameIdSameMember(s, ms[k.value], c);
    }
    if KeptBy(c, p, id) {
      assert c in ms;
    }
  }

  /** Facts about one snapshot entry that the renumbering loops need. */
  lemma EntryRenumbered(s: seq<Component>, id: Id, src: PaneId, dst: PaneId, slot: nat,
                        dest: seq<Component>, rest: seq<Component>, j: nat, di: nat)
    requires UniqueIds(s) && src != dst
    requires j < |s| && di < |s| && s[di].id == id
    requires forall m :: m in dest <==> m in s && KeptBy(m, dst, id)
    requires forall m :: m in rest <==> m in s && KeptBy(m, src, id)
    ensures Renumbered(s[di := MovedTo(s[di], dst, slot)][j], dest, slot, rest)
         == InsertedEntry(s[j], id, src, dst, slot, dest, rest)
  {
    IndexOfIdIffKept(s, dest, dst, id, s[j]);
    IndexOfIdIffKept(s, rest, src, id, s[j]);
    if j != di {
      assert s[j].id != id;
    }
  }

  /** Splicing out by id commutes with an id-preserving map of the entries. */
  lemma WithoutPlaceholderPointwise(p: seq<Component>, x: seq<Component>, ph: Option<Component>,
                                    dest: seq<Component>, slot: nat, rest: seq<Component>)
    requires SameIds(p, x)
    requires forall j :: 0 <= j < |p| ==> Renumbered(p[j], dest, slot, rest) == x[j]
    ensures var w, w' := WithoutPlaceholder(p, ph), WithoutPlaceholder(x, ph);
            |w| == |w'| && forall i :: 0 <= i < |w| ==> Renumbered(w[i], dest, slot, rest) == w'[i]
  {
    if ph.Some? {
      FindIndexSameIds(p, x, ph.value.id);
      match FindIndex(p, ph.value.id)
      case None =>
      case Some(k) =>
        forall i | 0 <= i < |p| - 1
          ensures Renumbered(RemoveAt(p, k)[i], dest, slot, rest) == RemoveAt(x, k)[i]
        {
          RemoveAtIndex(p, k, i);
          RemoveAtIndex(x, k, i);
        }
    }
  }

  /** Where an entry of a list with one entry removed came from. */
  lemma RemoveAtIndex<T>(s: seq<T>, k: nat, i: nat)
    requires k < |s| && i < |s| - 1
    ensures RemoveAt(s, k)[i] == s[if i < k then i else i + 1]
  {
  }

  /** Removing one entry keeps every other value the list held. */
  lemma RemoveAtKeepsOthers<T>(s: seq<T>, k: nat, x: T)
    requires k < |s| && x in s && x != s[k]
    ensures x in RemoveAt(s, k)
  {
    assert x in multiset(s);
  }

  /** Writing the dragged component into the destination keeps ids unique. */
  lemma PlacedUniqueIds(s: seq<Component>, dst: PaneId, slot: nat, di: nat)
    requires UniqueIds(s) && di < |s|
    ensures UniqueIds(s[di := MovedTo(s[di], dst, slot)])
  {
    assert SameIds(s, s[di := MovedTo(s[di], dst, slot)]);
  }

  /** Splicing out the placeholder keeps ids unique. */
  lemma ClearedUniqueIds(placed: seq<Component>, ph: Option<Component>)
    requires UniqueIds(placed)
    ensures UniqueIds(WithoutPlaceholder(placed, ph))
  {
    if ph.Some? && FindIndex(placed, ph.value.id).Some? {
      RemoveAtUniqueIds(placed, FindIndex(placed, ph.value.id).value);
    }
  }

  /** Splicing out the placeholder keeps every real member of the destination
      other than the dragged one. */
  lemma ClearedKeepsMembers(s: seq<Component>, id: Id, dst: PaneId, slot: nat, di: nat, m: Component)
    requires UniqueIds(s) && di < |s| && s[di].id == id
    requires m in s && KeptBy(m, dst, id)
    ensures m in WithoutPlaceholder(s[di := MovedTo(s[di], dst, slot)], FindPlaceholder(s, dst))
  {
    var placed := s[di := MovedTo(s[di], dst, slot)];
    var ph := FindPlaceholder(s, dst);
    var j :| 0 <= j < |s| && s[j] == m;
    assert j != di;
    assert placed[j] == m;
    if ph.Some? && FindIndex(placed, ph.value.id).Some? {
      var k := FindIndex(placed, ph.value.id).value;
      if k != di {
        var q :| 0 <= q < |s| && s[q] == ph.value;
        assert s[k].id == s[q].id;
        assert IsPlaceholder(placed[k]);
      }
      assert placed[k] != m;
      RemoveAtKeepsOthers(placed, k, m);
    }
  }

  /** Neither step touches the source pane's filter. */
  lemma ClearedSourceFilter(s: seq<Component>, id: Id, src: PaneId, dst: PaneId, slot: nat, di: nat)
    requires UniqueIds(s) && src != dst
    requires di < |s| && s[di].id == id
    ensures var placed := s[di := MovedTo(s[di], dst, slot)];
            OtherRealMembers(WithoutPlaceholder(placed, FindPlaceholder(s, dst)), src, id)
              == OtherRealMembers(s, src, id)
  {
    var placed := s[di := MovedTo(s[di], dst, slot)];
    var ph := FindPlaceholder(s, dst);
    OtherRealMembersPointwise(s, placed, src, id);
    if ph.Some? && FindIndex(placed, ph.value.id).Some? {
      var k := FindIndex(placed, ph.value.id).value;
      if k != di {
        SameIdSameMember(s, ph.value, s[k]);
      }
      OtherRealMembersRemoveAt(placed, k, src, id);
    }
  }

  /** The working copy after the dragged component is written into the
      destination and the destination's placeholder is spliced out. */
  lemma ClearedFacts(s: seq<Component>, id: Id, src: PaneId, dst: PaneId, slot: nat, di: nat)
    requires UniqueIds(s) && src != dst
    requires di < |s| && s[di].id == id
    ensures var placed := s[di := MovedTo(s[di], dst, slot)];
            var cleared := WithoutPlaceholder(placed, FindPlaceholder(s, dst));
            && UniqueIds(cleared)
            && (forall m :: m in s && KeptBy(m, dst, id) ==> m in cleared)
            && OtherRealMembers(cleared, src, id) == OtherRealMembers(s, src, id)
  {
    PlacedUniqueIds(s, dst, slot, di);
    ClearedUniqueIds(s[di := MovedTo(s[di], dst, slot)], FindPlaceholder(s, dst));
    forall m | m in s && KeptBy(m, dst, id)
      ensures m in WithoutPlaceholder(s[di := MovedTo(s[di], dst, slot)], FindPlaceholder(s, dst))
    {
      ClearedKeepsMembers(s, id, dst, slot, di, m);
    }
    ClearedSourceFilter(s, id, src, dst, slot, di);
  }

  /** Renumbering the destination's members leaves the source pane's filter alone. */
  lemma ShiftedFacts(cleared: seq<Component>, id: Id, src: PaneId, dst: PaneId, slot: nat,
                     dest: seq<Component>)
    requires UniqueIds(cleared) && src != dst
    requires forall m :: m in dest ==> m in cleared && KeptBy(m, dst, id)
    ensures OtherRealMembers(Relabel(cleared, dest, slot), src, id) == OtherRealMembers(cleared, src, id)
  {
    var shifted := Relabel(cleared, dest, slot);
    RelabelEffect(cleared, dest, slot);
    forall i | 0 <= i < |cleared| && (KeptBy(cleared[i], src, id) || KeptBy(shifted[i], src, id))
      ensures cleared[i] == shifted[i]
    {
      var k := IndexOfId(dest, cleared[i].id);
      if k.Some? {
        assert dest[k.value] in dest;
        SameIdSameMember(cleared, dest[k.value], cleared[i]);
      }
    }
    OtherRealMembersPointwise(cleared, shifted, src, id);
  }

  /** Both renumbering loops of the insert branch, entry by entry. */
  lemma TwoRelabels(cleared: seq<Component>, dest: seq<Component>, slot: nat, rest: seq<Component>)
    requires UniqueIds(cleared)
    requires forall m :: m in dest ==> m in cleared
    requires forall m :: m in rest ==> m in Relabel(cleared, dest, slot)
    ensures var r := Relabel(Relabel(cleared, dest, slot), rest, |rest|);
            |r| == |cleared| && forall i :: 0 <= i < |r| ==> r[i] == Renumbered(cleared[i], dest, slot, rest)
  {
    var shifted := Relabel(cleared, dest, slot);
    RelabelEffect(cleared, dest, slot);
    assert UniqueIds(shifted);
    RelabelEffect(shifted, rest, |rest|);
  }

  /** The source pane's remaining real members, sorted: exactly the kept
      entries of the snapshot, all of them present after the destination's
      renumbering. */
  lemma RestFacts(s: seq<Component>, shifted: seq<Component>, src: PaneId, id: Id)
    requires OtherRealMembers(shifted, src, id) == OtherRealMembers(s, src, id)
    ensures var rest := SortBy(SlotLe, OtherRealMembers(s, src, id));
            && (forall m :: m in rest <==> m in s && KeptBy(m, src, id))
            && (forall m :: m in rest ==> m in shifted)
  {
    var rest := SortBy(SlotLe, OtherRealMembers(s, src, id));
    OtherRealMembersHolds(s, src, id);
    OtherRealMembersHolds(shifted, src, id);
    forall m ensures m in rest <==> m in OtherRealMembers(s, src, id) {
      assert m in rest <==> m in multiset(rest);
      assert m in OtherRealMembers(s, src, id) <==> m in multiset(OtherRealMembers(s, src, id));
    }
  }

  /** The source pane's list is the same whether it is taken from the
      working copy after the destination's renumbering or from the snapshot. */
  lemma InsertSourceList(s: seq<Component>, id: Id, src: PaneId, dst: PaneId, slot: nat, di: nat)
    requires UniqueIds(s) && src != dst
    requires di < |s| && s[di].id == id
    ensures var cleared := WithoutPlaceholder(s[di := MovedTo(s[di], dst, slot)], FindPlaceholder(s, dst));
            var shifted := Relabel(cleared, OtherRealMembers(s, dst, id), slot);
            && UniqueIds(cleared)
            && (forall m :: m in OtherRealMembers(s, dst, id) ==> m in cleared)
            && OtherRealMembers(shifted, src, id) == OtherRealMembers(s, src, id)
  {
    var dest := OtherRealMembers(s, dst, id);
    var cleared := WithoutPlaceholder(s[di := MovedTo(s[di], dst, slot)], FindPlaceholder(s, dst));
    OtherRealMembersHolds(s, dst, id);
    ClearedFacts(s, id, src, dst, slot, di);
    ShiftedFacts(cleared, id, src, dst, slot, dest);
  }

  /** The two renumbering loops of the insert branch, on the cleared copy. */
  lemma InsertLoops(s: seq<Component>, id: Id, src: PaneId, dst: PaneId, slot: nat, di: nat)
    requires UniqueIds(s) && src != dst
    requires di < |s| && s[di].id == id
    ensures var dest := OtherRealMembers(s, dst, id);
            var rest := SortBy(SlotLe, OtherRealMembers(s, src, id));
            var cleared := WithoutPlaceholder(s[di := MovedTo(s[di], dst, slot)], FindPlaceholder(s, dst));
            var r := Relabel(Relabel(cleared, dest, slot), rest, |rest|);
            |r| == |cleared| && forall i :: 0 <= i < |r| ==> r[i] == Renumbered(cleared[i], dest, slot, rest)
  {
    var dest := OtherRealMembers(s, dst, id);
    var rest := SortBy(SlotLe, OtherRealMembers(s, src, id));
    var cleared := WithoutPlaceholder(s[di := MovedTo(s[di], dst, slot)], FindPlaceholder(s, dst));
    var shifted := Relabel(cleared, dest, slot);
    InsertSourceList(s, id, src, dst, slot, di);
    RestFacts(s, shifted, src, id);
    TwoRelabels(cleared, dest, slot, rest);
  }

  /** The entry-by-entry description, with the same placeholder spliced out,
      matches the cleared copy under the renumbering. */
  lemma InsertShape(s: seq<Component>, id: Id, src: PaneId, dst: PaneId, slot: nat, di: nat)
    requires UniqueIds(s) && src != dst
    requires di < |s| && s[di].id == id
    ensures var dest := OtherRealMembers(s, dst, id);
            var rest := SortBy(SlotLe, OtherRealMembers(s, src, id));
            var ph := FindPlaceholder(s, dst);
            var cleared := WithoutPlaceholder(s[di := MovedTo(s[di], dst, slot)], ph);
            var w := WithoutPlaceholder(InsertedEntries(s, id, src, dst, slot, dest, rest), ph);
            |w| == |cleared| && forall i :: 0 <= i < |w| ==> w[i] == Renumbered(cleared[i], dest, slot, rest)
  {
    var dest := OtherRealMembers(s, dst, id);
    var rest := SortBy(SlotLe, OtherRealMembers(s, src, id));
    OtherRealMembersHolds(s, dst, id);
    RestFacts(s, s, src, id);
    ShapeOfKept(s, id, src, dst, slot, di, dest, rest);
  }

  /** `InsertShape` for any two lists holding exactly the kept entries. */
  lemma ShapeOfKept(s: seq<Component>, id: Id, src: PaneId, dst: PaneId, slot: nat, di: nat,
                    dest: seq<Component>, rest: seq<Component>)
    requires UniqueIds(s) && src != dst
    requires di < |s| && s[di].id == id
    requires forall m :: m in dest <==> m in s && KeptBy(m, dst, id)
    requires forall m :: m in rest <==> m in s && KeptBy(m, src, id)
    ensures var ph := FindPlaceholder(s, dst);
            var cleared := WithoutPlaceholder(s[di := MovedTo(s[di], dst, slot)], ph);
            var w := WithoutPlaceholder(InsertedEntries(s, id, src, dst, slot, dest, rest), ph);
            |w| == |cleared| && forall i :: 0 <= i < |w| ==> w[i] == Renumbered(cleared[i], dest, slot, rest)
  {
    var placed := s[di := MovedTo(s[di], dst, slot)];
    var x := InsertedEntries(s, id, src, dst, slot, dest, rest);
    EntriesRenumbered(s, id, src, dst, slot, dest, rest, di);
    WithoutPlaceholderPointwise(placed, x, FindPlaceholder(s, dst), dest, slot, rest);
  }

  /** `EntryRenumbered` for every entry of the snapshot. */
  lemma EntriesRenumbered(s: seq<Component>, id: Id, src: PaneId, dst: PaneId, slot: nat,
                          dest: seq<Component>, rest: seq<Component>, di: nat)
    requires UniqueIds(s) && src != dst
    requires di < |s| && s[di].id == id
    requires forall m :: m in dest <==> m in s && KeptBy(m, dst, id)
    requires forall m :: m in rest <==> m in s && KeptBy(m, src, id)
    ensures var placed := s[di := MovedTo(s[di], dst, slot)];
            var x := InsertedEntries(s, id, src, dst, slot, dest, rest);
            forall j :: 0 <= j < |placed| ==> Renumbered(placed[j], dest, slot, rest) == x[j]
  {
    forall j | 0 <= j < |s|
      ensures Renumbered(s[di := MovedTo(s[di], dst, slot)][j], dest, slot, rest)
           == InsertedEntries(s, id, src, dst, slot, dest, rest)[j]
    {
      EntryRenumbered(s, id, src, dst, slot, dest, rest, j, di);
    }
  }

  /** The insert branch's working copy, built step by step, against the
      entry-by-entry description. */
  lemma InsertSteps(s: seq<Component>, id: Id, src: PaneId, dst: PaneId, slot: nat, di: nat)
    requires UniqueIds(s) && src != dst
    requires di < |s| && s[di].id == id
    ensures var dest := OtherRealMembers(s, dst, id);
            var rest := SortBy(SlotLe, OtherRealMembers(s, src, id));
            var ph := FindPlaceholder(s, dst);
            var cleared := WithoutPlaceholder(s[di := MovedTo(s[di], dst, slot)], ph);
            var shifted := Relabel(cleared, dest, slot);
            && SortBy(SlotLe, OtherRealMembers(shifted, src, id)) == rest
            && Relabel(shifted, rest, |rest|)
                 == WithoutPlaceholder(InsertedEntries(s, id, src, dst, slot, dest, rest), ph)
  {
    InsertSourceList(s, id, src, dst, slot, di);
    InsertLoops(s, id, src, dst, slot, di);
    InsertShape(s, id, src, dst, slot, di);
  }

  /** The insert branch as a whole: the working copy it yields is the snapshot
      with every entry transformed by `InsertedEntry` (the destination members
      in list order, the source pane's remaining real members ranked in slot
      order) and the destination's first placeholder spliced out. */
  lemma InsertEffect(s: seq<Component>, src: Location, dst: Location, id: Id)
    requires UniqueIds(s)
    requires src.droppableId != dst.droppableId
    requires FindIndex(s, id).Some?
    requires |OtherRealMembers(s, dst.droppableId, id)| < 2
    ensures var dest := OtherRealMembers(s, dst.droppableId, id);
            var rest := SortBy(SlotLe, OtherRealMembers(s, src.droppableId, id));
            var slot: nat := Min(dst.index, |dest|);
            Rearrange(s, src, dst, id)
              == Rearranged(WithoutPlaceholder(
                   InsertedEntries(s, id, src.droppableId, dst.droppableId, slot, dest, rest),
                   FindPlaceholder(s, dst.droppableId)))
  {
    var di := FindIndex(s, id).value;
    var dest := OtherRealMembers(s, dst.droppableId, id);
    var slot: nat := Min(dst.index, |dest|);
    InsertSteps(s, id, src.droppableId, dst.droppableId, slot, di);
  }

  /** A list of exactly the real members of `p` other than `id` in `s`, each once. */
  ghost predicate ListsKept(s: seq<Component>, p: PaneId, id: Id, order: seq<Component>) {
    && UniqueIds(order)
    && forall m :: m in order <==> m in s && KeptBy(m, p, id)
  }

  lemma {:induction false} OtherRealMembersUniqueIds(s: seq<Component>, p: PaneId, id: Id)
    requires UniqueIds(s)
    ensures UniqueIds(OtherRealMembers(s, p, id))
  {
    if |s| > 0 {
      var init := s[..|s| - 1];
      var last := s[|s| - 1];
      OtherRealMembersUniqueIds(init, p, id);
      OtherRealMembersHolds(init, p, id);
      var r := OtherRealMembers(init, p, id);
      forall c | c in r ensures c.id != last.id {
        var k :| 0 <= k < |init| && init[k] == c;
        assert s[k] == c;
      }
    }
  }

  /** The filter, and its sort by slot, list the kept members. */
  lemma KeptLists(s: seq<Component>, p: PaneId, id: Id)
    requires UniqueIds(s)
    ensures ListsKept(s, p, id, OtherRealMembers(s, p, id))
    ensures ListsKept(s, p, id, SortBy(SlotLe, OtherRealMembers(s, p, id)))
  {
    var f := OtherRealMembers(s, p, id);
    OtherRealMembersHolds(s, p, id);
    OtherRealMembersUniqueIds(s, p, id);
    PermutationKeepsUniqueIds(f, SortBy(SlotLe, f));
    RestFacts(s, s, p, id);
  }

  lemma RankInKept(s: seq<Component>, p: PaneId, id: Id, order: seq<Component>, c: Component)
    requires UniqueIds(s) && ListsKept(s, p, id, order)
    requires c in s && KeptBy(c, p, id)
    ensures Rank(order, c) < |order| && order[Rank(order, c)] == c
  {
    var k :| 0 <= k < |order| && order[k] == c;
    IndexOfUnique(order, k);
  }

  /** In the entry-by-entry description the remaining real members of the
      source pane hold slots 0..k-1. */
  lemma InsertedSourceSlots(s: seq<Component>, id: Id, src: PaneId, dst: PaneId, slot: nat,
                            dest: seq<Component>, rest: seq<Component>, di: nat)
    requires UniqueIds(s) && src != dst
    requires di < |s| && s[di].id == id
    requires ListsKept(s, src, id, rest)
    ensures SlotsAreRanks(InsertedEntries(s, id, src, dst, slot, dest, rest), src, |rest|)
  {
    var x := InsertedEntries(s, id, src, dst, slot, dest, rest);
    var placed := s[di := MovedTo(s[di], dst, slot)];
    assert SameIds(s, placed);
    assert UniqueIds(placed);
    forall i | 0 <= i < |s| ensures IsRealMemberOf(placed[i], src) <==> KeptBy(s[i], src, id) {
      if i != di {
        assert s[i].id != id;
      }
    }
    forall m ensures m in rest <==> m in placed && IsRealMemberOf(m, src) {
      if m in placed && IsRealMemberOf(m, src) {
        var i :| 0 <= i < |placed| && placed[i] == m;
      }
      if m in rest {
        var i :| 0 <= i < |s| && s[i] == m;
        assert placed[i] == m;
      }
    }
    assert RanksPane(placed, x, src, rest);
    RankedSlots(placed, x, src, rest);
  }

  /** In the entry-by-entry description the destination's real members,
      the dragged component included, hold slots 0..n. */
  lemma InsertedDestSlots(s: seq<Component>, id: Id, src: PaneId, dst: PaneId, slot: nat,
                          dest: seq<Component>, rest: seq<Component>, di: nat)
    requires UniqueIds(s) && src != dst
    requires di < |s| && s[di].id == id && !IsPlaceholder(s[di])
    requires ListsKept(s, dst, id, dest) && slot <= |dest|
    ensures SlotsAreRanks(InsertedEntries(s, id, src, dst, slot, dest, rest), dst, |dest| + 1)
  {
    var x := InsertedEntries(s, id, src, dst, slot, dest, rest);
    forall i | 0 <= i < |s| ensures IsRealMemberOf(x[i], dst) <==> i == di || KeptBy(s[i], dst, id) {
      if i != di {
        assert s[i].id != id;
      }
    }
    forall i | 0 <= i < |s| && i != di && IsRealMemberOf(x[i], dst)
      ensures Rank(dest, s[i]) < |dest| && Slot(x[i]) == Shifted(Rank(dest, s[i]), slot)
    {
      assert s[i].id != id;
      RankInKept(s, dst, id, dest, s[i]);
    }
    forall i, j | 0 <= i < j < |x| && IsRealMemberOf(x[i], dst) && IsRealMemberOf(x[j], dst)
      ensures Slot(x[i]) != Slot(x[j])
    {
      if i != di && j != di {
        RankInKept(s, dst, id, dest, s[i]);
        RankInKept(s, dst, id, dest, s[j]);
      }
    }
    forall k | 0 <= k < |dest| + 1 ensures SlotTaken(x, dst, k) {
      if k == slot {
        assert IsRealMemberOf(x[di], dst) && Slot(x[di]) == k;
      } else {
        var j := if k < slot then k else k - 1;
        assert dest[j] in dest;
        var i :| 0 <= i < |s| && s[i] == dest[j];
        IndexOfUnique(dest, j);
        assert IsRealMemberOf(x[i], dst) && Slot(x[i]) == k;
      }
    }
  }

  /** Splicing out an entry that is not a real member of `p` keeps `p`'s slots. */
  lemma RemoveAtKeepsRanks(x: seq<Component>, k: nat, p: PaneId, n: nat)
    requires k < |x| && !IsRealMemberOf(x[k], p)
    requires SlotsAreRanks(x, p, n)
    ensures SlotsAreRanks(RemoveAt(x, k), p, n)
  {
    var r := RemoveAt(x, k);
    forall i | 0 <= i < |r| ensures r[i] == x[if i < k then i else i + 1] {
    }
    forall c | 0 <= c < n ensures SlotTaken(r, p, c) {
      assert SlotTaken(x, p, c);
      var i :| 0 <= i < |x| && IsRealMemberOf(x[i], p) && Slot(x[i]) == c;
      var i' := if i < k then i else i - 1;
      assert r[i'] == x[i];
    }
    forall i, j | 0 <= i < j < |r| && IsRealMemberOf(r[i], p) && IsRealMemberOf(r[j], p)
      ensures Slot(r[i]) != Slot(r[j])
    {
      var i', j' := if i < k then i else i + 1, if j < k then j else j + 1;
      assert r[i] == x[i'] && r[j] == x[j'];
    }
  }

  /** Splicing out the destination's placeholder keeps every pane's slots. */
  lemma WithoutPlaceholderKeepsRanks(s: seq<Component>, x: seq<Component>, dst: PaneId, p: PaneId, n: nat)
    requires UniqueIds(s) && SameIds(s, x)
    requires forall i :: 0 <= i < |s| ==> x[i].kind == s[i].kind
    requires SlotsAreRanks(x, p, n)
    ensures SlotsAreRanks(WithoutPlaceholder(x, FindPlaceholder(s, dst)), p, n)
  {
    match FindPlaceholder(s, dst)
    case None =>
    case Some(ph) =>
      match FindIndex(x, ph.id)
      case None =>
      case Some(k) =>
        var j :| 0 <= j < |s| && s[j] == ph;
        assert s[k].id == ph.id;
        assert IsPlaceholder(x[k]);
        RemoveAtKeepsRanks(x, k, p, n);
  }

  /** The entry-by-entry description with the placeholder spliced out
      leaves both panes with slots 0..n-1. */
  lemma InsertedSlots(s: seq<Component>, id: Id, src: PaneId, dst: PaneId, slot: nat, di: nat)
    requires UniqueIds(s) && src != dst
    requires di < |s| && s[di].id == id && !IsPlaceholder(s[di])
    requires slot <= |OtherRealMembers(s, dst, id)|
    ensures var dest := OtherRealMembers(s, dst, id);
            var rest := SortBy(SlotLe, OtherRealMembers(s, src, id));
            var r := WithoutPlaceholder(InsertedEntries(s, id, src, dst, slot, dest, rest), FindPlaceholder(s, dst));
            && SlotsAreRanks(r, dst, |dest| + 1)
            && SlotsAreRanks(r, src, |rest|)
  {
    var dest := OtherRealMembers(s, dst, id);
    var rest := SortBy(SlotLe, OtherRealMembers(s, src, id));
    KeptLists(s, dst, id);
    KeptLists(s, src, id);
    SlotsOfKept(s, id, src, dst, slot, di, dest, rest);
  }

  /** `InsertedSlots` for any two lists holding exactly the kept entries. */
  lemma SlotsOfKept(s: seq<Component>, id: Id, src: PaneId, dst: PaneId, slot: nat, di: nat,
                    dest: seq<Component>, rest: seq<Component>)
    requires UniqueIds(s) && src != dst
    requires di < |s| && s[di].id == id && !IsPlaceholder(s[di])
    requires ListsKept(s, dst, id, dest) && slot <= |dest|
    requires ListsKept(s, src, id, rest)
    ensures var r := WithoutPlaceholder(InsertedEntries(s, id, src, dst, slot, dest, rest), FindPlaceholder(s, dst));
            && SlotsAreRanks(r, dst, |dest| + 1)
            && SlotsAreRanks(r, src, |rest|)
  {
    var x := InsertedEntries(s, id, src, dst, slot, dest, rest);
    InsertedDestSlots(s, id, src, dst, slot, dest, rest, di);
    InsertedSourceSlots(s, id, src, dst, slot, dest, rest, di);
    WithoutPlaceholderKeepsRanks(s, x, dst, dst, |dest| + 1);
    WithoutPlaceholderKeepsRanks(s, x, dst, src, |rest|);
  }

  /** The insert branch leaves both panes it touches with slots 0..n-1: the
      destination, the dragged component included, and the source pane, its
      remaining real members renumbered in their old slot order. */
  lemma InsertSlots(s: seq<Component>, src: Location, dst: Location, id: Id)
    requires UniqueIds(s)
    requires src.droppableId != dst.droppableId
    requires FindIndex(s, id).Some? && !IsPlaceholder(s[FindIndex(s, id).value])
    requires |OtherRealMembers(s, dst.droppableId, id)| < 2
    ensures var dest := OtherRealMembers(s, dst.droppableId, id);
            var remaining := OtherRealMembers(s, src.droppableId, id);
            var r := Rearrange(s, src, dst, id);
            && r.Rearranged?
            && SlotsAreRanks(r.layout, dst.droppableId, |dest| + 1)
            && SlotsAreRanks(r.layout, src.droppableId, |remaining|)
  {
    var dest := OtherRealMembers(s, dst.droppableId, id);
    InsertEffect(s, src, dst, id);
    InsertedSlots(s, id, src.droppableId, dst.droppableId, Min(dst.index, |dest|), FindIndex(s, id).value);
  }

  /** Ranks in a list sorted by slot follow the slots. */
  lemma RankFollowsSlot(s: seq<Component>, p: PaneId, id: Id, order: seq<Component>, a: Component, b: Component)
    requires UniqueIds(s) && ListsKept(s, p, id, order) && SortedBy(SlotLe, order)
    requires a in s && KeptBy(a, p, id) && b in s && KeptBy(b, p, id)
    requires Slot(a) < Slot(b)
    ensures Rank(order, a) < Rank(order, b)
  {
    RankInKept(s, p, id, order, a);
    RankInKept(s, p, id, order, b);
  }

  /** The source pane's remaining real members keep their relative order:
      a member with a smaller slot before the drop gets a smaller rank. */
  lemma InsertKeepsSourceOrder(s: seq<Component>, src: PaneId, id: Id, a: Component, b: Component)
    requires UniqueIds(s)
    requires a in s && KeptBy(a, src, id) && b in s && KeptBy(b, src, id)
    requires Slot(a) < Slot(b)
    ensures var rest := SortBy(SlotLe, OtherRealMembers(s, src, id));
            Rank(rest, a) < Rank(rest, b)
  {
    var rest := SortBy(SlotLe, OtherRealMembers(s, src, id));
    KeptLists(s, src, id);
    SlotLeIsTotalPreorder();
    SortByIsSorted(SlotLe, OtherRealMembers(s, src, id));
    RankFollowsSlot(s, src, id, rest, a, b);
  }

  /** Splicing the destination's placeholder out of a list with the
      snapshot's ids removes that one id. */
  lemma SplicedPlaceholderGone(s: seq<Component>, x: seq<Component>, dst: PaneId)
    requires UniqueIds(s) && SameIds(s, x)
    ensures var ph := FindPlaceholder(s, dst);
            var r := WithoutPlaceholder(x, ph);
            && (ph.None? ==> r == x)
            && (ph.Some? ==> |r| == |s| - 1 && FindIndex(r, ph.value.id).None?)
  {
    match FindPlaceholder(s, dst)
    case None =>
    case Some(ph) =>
      var pj :| 0 <= pj < |s| && s[pj] == ph;
      assert UniqueIds(x);
      FindIndexOfUnique(x, pj);
      var r := RemoveAt(x, pj);
      forall i | 0 <= i < |r| ensures r[i].id != ph.id {
        assert r[i] == x[if i < pj then i else i + 1];
      }
  }

  /** ... and keeps every other id. */
  lemma SplicedOthersKept(s: seq<Component>, x: seq<Component>, dst: PaneId, c: Component)
    requires UniqueIds(s) && SameIds(s, x)
    requires c in s
    ensures var ph := FindPlaceholder(s, dst);
            ph.None? || c != ph.value ==> FindIndex(WithoutPlaceholder(x, ph), c.id).Some?
  {
    var j :| 0 <= j < |s| && s[j] == c;
    assert x[j].id == c.id;
    match FindPlaceholder(s, dst)
    case None =>
    case Some(ph) =>
      if c != ph {
        var pj :| 0 <= pj < |s| && s[pj] == ph;
        FindIndexOfUnique(s, pj);
        FindIndexSameIds(s, x, ph.id);
        assert j != pj;
        StillFoundAfterRemove(x, pj, j);
      }
  }

  /** Removing one entry leaves any other entry findable by its id. */
  lemma StillFoundAfterRemove(x: seq<Component>, k: nat, j: nat)
    requires k < |x| && j < |x| && j != k
    ensures FindIndex(RemoveAt(x, k), x[j].id).Some?
  {
    RemoveAtIndex(x, k, if j < k then j else j - 1);
  }

  /** The insert branch splices out exactly the destination's first
      placeholder and keeps every other component. */
  lemma InsertDropsOnlyPlaceholder(s: seq<Component>, src: Location, dst: Location, id: Id)
    requires UniqueIds(s)
    requires src.droppableId != dst.droppableId
    requires FindIndex(s, id).Some?
    requires |OtherRealMembers(s, dst.droppableId, id)| < 2
    ensures var r := Rearrange(s, src, dst, id);
            var ph := FindPlaceholder(s, dst.droppableId);
            && r.Rearranged?
            && (ph.None? ==> |r.layout| == |s|)
            && (ph.Some? ==> |r.layout| == |s| - 1 && FindIndex(r.layout, ph.value.id).None?)
            && (forall c :: c in s && (ph.None? || c != ph.value) ==> FindIndex(r.layout, c.id).Some?)
  {
    var dest := OtherRealMembers(s, dst.droppableId, id);
    var rest := SortBy(SlotLe, OtherRealMembers(s, src.droppableId, id));
    var x := InsertedEntries(s, id, src.droppableId, dst.droppableId, Min(dst.index, |dest|), dest, rest);
    InsertEffect(s, src, dst, id);
    SplicedPlaceholderGone(s, x, dst.droppableId);
    forall c | c in s
      ensures FindPlaceholder(s, dst.droppableId).None? || c != FindPlaceholder(s, dst.droppableId).value
              ==> FindIndex(WithoutPlaceholder(x, FindPlaceholder(s, dst.droppableId)), c.id).Some?
    {
      SplicedOthersKept(s, x, dst.droppableId, c);
    }
  }
}
