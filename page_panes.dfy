/**
  The `panes` the page hands to the form preview (src/app/page.tsx): one
  pane per distinct truthy `paneId`, in order of first occurrence, holding
  every component with that pane id, placeholders included, in slot order.
*/
module PagePanes {
  import opened Sorting
  import opened Layout

  /** `components.filter(c => c.paneId === paneId)`: placeholders included. */
  function PaneMembers(s: seq<Component>, p: PaneId): (r: seq<Component>)
    ensures |r| <= |s|
  {
    if |s| == 0 then []
    else
      var last := s[|s| - 1];
      PaneMembers(s[..|s| - 1], p) + (if last.paneId == Some(p) then [last] else [])
  }

  /** The page's pane list. */
  function Panes(s: seq<Component>): (r: seq<Pane>)
    ensures |r| == |DistinctPaneIds(s)|
  {
    var ids := DistinctPaneIds(s);
    seq(|ids|, i requires 0 <= i < |ids| => Pane(ids[i], SortBy(SlotLe, PaneMembers(s, ids[i]))))
  }

  /** The filter keeps exactly the components carrying pane id `p`. */
  lemma {:induction false} PaneMembersHolds(s: seq<Component>, p: PaneId)
    ensures forall c :: c in PaneMembers(s, p) <==> c in s && c.paneId == Some(p)
  {
    if |s| > 0 {
      var init := s[..|s| - 1];
      PaneMembersHolds(init, p);
      assert s == init + [s[|s| - 1]];
    }
  }

  /** There is one pane per distinct truthy pane id, and no other. */
  lemma PanesArePaneIds(s: seq<Component>)
    ensures var r := Panes(s);
            && (forall i, j :: 0 <= i < j < |r| ==> r[i].id != r[j].id)
            && (forall p :: (exists i :: 0 <= i < |r| && r[i].id == p) <==> HasPane(s, p))
  {
    var r := Panes(s);
    var ids := DistinctPaneIds(s);
    DistinctPaneIdsHolds(s);
    forall p ensures (exists i :: 0 <= i < |r| && r[i].id == p) <==> HasPane(s, p) {
      if HasPane(s, p) {
        assert p in ids;
        var i :| 0 <= i < |ids| && ids[i] == p;
        assert r[i].id == p;
      }
      if exists i :: 0 <= i < |r| && r[i].id == p {
        var i :| 0 <= i < |r| && r[i].id == p;
        assert ids[i] in ids;
      }
    }
  }

  /** Each pane holds exactly the components carrying its id, placeholders
      included, ordered by slot (a missing slot counting as 0). */
  lemma PaneContents(s: seq<Component>, i: nat)
    requires i < |Panes(s)|
    ensures var pane := Panes(s)[i];
            && SortedBy(SlotLe, pane.members)
            && multiset(pane.members) == multiset(PaneMembers(s, pane.id))
            && forall c :: c in pane.members <==> c in s && c.paneId == Some(pane.id)
  {
    var pane := Panes(s)[i];
    SlotLeIsTotalPreorder();
    SortByIsSorted(SlotLe, PaneMembers(s, pane.id));
    PaneMembersHolds(s, pane.id);
    forall c ensures c in pane.members <==> c in PaneMembers(s, pane.id) {
      assert c in pane.members <==> c in multiset(pane.members);
      assert c in PaneMembers(s, pane.id) <==> c in multiset(PaneMembers(s, pane.id));
    }
  }
}
