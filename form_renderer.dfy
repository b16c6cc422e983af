/**
  The form preview (src/components/FormRenderer.tsx): placeholders are
  dropped from every pane, each pane's members are put in slot order, panes
  are ordered by the least `position` of their members with empty panes
  last, and each pane is laid out by its member count.
*/
module FormRenderer {
  import opened Sorting
  import opened Layout

  /** `pane.components.filter(comp => comp.type !== 'placeholder')` */
  function NonPlaceholders(ms: seq<Component>): (r: seq<Component>)
    ensures |r| <= |ms|
  {
    if |ms| == 0 then []
    else
      var last := ms[|ms| - 1];
      NonPlaceholders(ms[..|ms| - 1]) + (if IsPlaceholder(last) then [] else [last])
  }

  /** A pane as the preview shows it: no placeholders, members in slot order. */
  function PreviewPane(p: Pane): (r: Pane)
    ensures r.id == p.id
  {
    Pane(p.id, SortBy(SlotLe, NonPlaceholders(p.members)))
  }

  /** `sortedPanes`: every pane cleaned up, then the panes sorted by the
      least `position` of their members, empty panes after all others. */
  function SortedPanes(panes: seq<Pane>): (r: seq<Pane>)
    ensures |r| == |panes|
  {
    SortBy(PaneLe, seq(|panes|, i requires 0 <= i < |panes| => PreviewPane(panes[i])))
  }

  /** How one pane is laid out. */
  datatype PaneView =
    | FullWidth(only: Component)                 // exactly one member
    | SideBySide(left: Component, right: Component)  // exactly two members
    | Blank                                      // any other count renders nothing

  function PaneLayout(p: Pane): PaneView {
    if |p.members| == 1 then FullWidth(p.members[0])
    else if |p.members| == 2 then SideBySide(p.members[0], p.members[1])
    else Blank
  }

  datatype Preview = EmptyState | Sections(views: seq<PaneView>)

  /** The preview of the page's panes: the empty state exactly when there
      are no panes at all, so a page whose only pane has no real members
      shows a blank section instead. */
  function Render(panes: seq<Pane>): (r: Preview)
    ensures r.EmptyState? <==> |panes| == 0
    ensures r.Sections? ==> |r.views| == |panes|
    ensures r.Sections? ==> forall i :: 0 <= i < |r.views| ==> r.views[i] == PaneLayout(SortedPanes(panes)[i])
  {
    var sorted := SortedPanes(panes);
    if |sorted| == 0 then EmptyState
    else Sections(seq(|sorted|, i requires 0 <= i < |sorted| => PaneLayout(sorted[i])))
  }

  lemma {:induction false} NonPlaceholdersHolds(ms: seq<Component>)
    ensures forall c :: c in NonPlaceholders(ms) <==> c in ms && !IsPlaceholder(c)
  {
    if |ms| > 0 {
      var init := ms[..|ms| - 1];
      NonPlaceholdersHolds(init);
      assert ms == init + [ms[|ms| - 1]];
    }
  }

  /** A cleaned-up pane holds exactly the pane's non-placeholder members,
      ordered by slot. */
  lemma PreviewPaneContents(p: Pane)
    ensures var r := PreviewPane(p);
            && SortedBy(SlotLe, r.members)
            && multiset(r.members) == multiset(NonPlaceholders(p.members))
            && forall c :: c in r.members <==> c in p.members && !IsPlaceholder(c)
  {
    var r := PreviewPane(p);
    SlotLeIsTotalPreorder();
    SortByIsSorted(SlotLe, NonPlaceholders(p.members));
    NonPlaceholdersHolds(p.members);
    forall c ensures c in r.members <==> c in NonPlaceholders(p.members) {
      assert c in r.members <==> c in multiset(r.members);
      assert c in NonPlaceholders(p.members) <==> c in multiset(NonPlaceholders(p.members));
    }
  }

  /** Every shown pane is the cleaned-up version of a given pane, each given
      pane is shown once, and no placeholder is ever shown. */
  lemma SortedPanesContents(panes: seq<Pane>)
    ensures var r := SortedPanes(panes);
            && multiset(r) == multiset(seq(|panes|, i requires 0 <= i < |panes| => PreviewPane(panes[i])))
            && forall i, c :: 0 <= i < |r| && c in r[i].members ==> !IsPlaceholder(c)
  {
    var cleaned := seq(|panes|, i requires 0 <= i < |panes| => PreviewPane(panes[i]));
    var r := SortedPanes(panes);
    forall i, c | 0 <= i < |r| && c in r[i].members ensures !IsPlaceholder(c) {
      assert r[i] in multiset(cleaned);
      var k :| 0 <= k < |cleaned| && cleaned[k] == r[i];
      PreviewPaneContents(panes[k]);
    }
  }

  /** Panes with members come first, ordered by their least `position`;
      panes without members come last. */
  lemma SortedPanesOrder(panes: seq<Pane>)
    ensures var r := SortedPanes(panes);
            && SortedBy(PaneLe, r)
            && (forall i, j :: 0 <= i < j < |r| && |r[i].members| == 0 ==> |r[j].members| == 0)
            && (forall i, j :: 0 <= i < j < |r| && |r[i].members| > 0 && |r[j].members| > 0 ==>
                  MinPosition(r[i].members).value <= MinPosition(r[j].members).value)
  {
    var cleaned := seq(|panes|, i requires 0 <= i < |panes| => PreviewPane(panes[i]));
    PaneLeIsTotalPreorder();
    SortByIsSorted(PaneLe, cleaned);
    var r := SortedPanes(panes);
    forall i, j | 0 <= i < j < |r| && |r[i].members| == 0 ensures |r[j].members| == 0 {
      assert PaneLe(r[i], r[j]);
    }
    forall i, j | 0 <= i < j < |r| && |r[i].members| > 0 && |r[j].members| > 0
      ensures MinPosition(r[i].members).value <= MinPosition(r[j].members).value
    {
      assert PaneLe(r[i], r[j]);
    }
  }

  /** A pane with exactly one real member is shown full width; one with
      exactly two is shown side by side, the lower slot on the left; any
      other count shows nothing. */
  lemma LayoutRule(p: Pane)
    ensures var q := PreviewPane(p);
            var v := PaneLayout(q);
            var kept := NonPlaceholders(p.members);
            && (|kept| == 1 <==> v.FullWidth?)
            && (|kept| == 2 <==> v.SideBySide?)
            && (v.FullWidth? ==> v.only in p.members && !IsPlaceholder(v.only))
            && (v.SideBySide? ==>
                  && multiset{v.left, v.right} == multiset(kept)
                  && Slot(v.left) <= Slot(v.right))
  {
    var q := PreviewPane(p);
    PreviewPaneContents(p);
    if |q.members| == 1 {
      assert q.members[0] in q.members;
    }
    if |q.members| == 2 {
      assert q.members == [q.members[0], q.members[1]];
      assert multiset(q.members) == multiset{q.members[0], q.members[1]};
    }
  }
}
