/**
  The layout model shared by the drop planner, the two views and the store:
  the component record, its slot inside a pane, pane membership and the
  ordering keys the views sort by.

  A pane has no record of its own: it is the set of components that carry
  the same `paneId`.  A component of kind "placeholder" marks a pane that
  was created empty on purpose.
*/
module Layout {
  import opened Sorting

  datatype Option<+T> = None | Some(value: T)

  type Id = string
  type PaneId = string

  /** A stored component; `kind` is the record's `type` field.  Creation and
      update timestamps are not modelled. */
  datatype Component = Component(
    id: Id,
    name: string,
    kind: string,
    content: Option<string>,
    position: int,
    paneId: Option<PaneId>,
    panePosition: Option<int>)

  const PlaceholderKind: string := "placeholder"

  predicate IsPlaceholder(c: Component) {
    c.kind == PlaceholderKind
  }

  /** The slot every sort uses: `panePosition || 0`, a missing slot counting as 0. */
  function Slot(c: Component): (k: int)
    ensures c.panePosition.None? ==> k == 0
    ensures c.panePosition.Some? ==> k == c.panePosition.value
  {
    match c.panePosition
    case None => 0
    case Some(k) => k
  }

  /** The comparator `(a.panePosition || 0) - (b.panePosition || 0)`, read as "a may come first". */
  predicate SlotLe(a: Component, b: Component) {
    Slot(a) <= Slot(b)
  }

  lemma SlotLeIsTotalPreorder()
    ensures TotalPreorder(SlotLe)
  {
  }

  /** The same component placed in slot `k` of its pane. */
  function WithSlot(c: Component, k: int): (r: Component)
    ensures r.panePosition == Some(k) && Slot(r) == k
    ensures r.(panePosition := c.panePosition) == c
  {
    c.(panePosition := Some(k))
  }

  /** The same component moved to slot `k` of pane `p`. */
  function MovedTo(c: Component, p: PaneId, k: int): (r: Component)
    ensures r.paneId == Some(p) && r.panePosition == Some(k)
    ensures r.(paneId := c.paneId, panePosition := c.panePosition) == c
  {
    c.(paneId := Some(p), panePosition := Some(k))
  }

  /** The pane a view groups `c` under: its `paneId` when that is truthy,
      so neither a missing pane id nor the empty string forms a pane. */
  function PaneKey(c: Component): (r: Option<PaneId>)
    ensures r.Some? <==> c.paneId.Some? && c.paneId.value != ""
    ensures r.Some? ==> c.paneId == r
  {
    if c.paneId.Some? && c.paneId.value != "" then c.paneId else None
  }

  /** `c` sits in pane `p` and is not a placeholder. */
  predicate IsRealMemberOf(c: Component, p: PaneId) {
    c.paneId == Some(p) && !IsPlaceholder(c)
  }

  /** The non-placeholder components of pane `p`, in the order of `s`. */
  function RealMembers(s: seq<Component>, p: PaneId): (r: seq<Component>)
    ensures |r| <= |s|
  {
    if |s| == 0 then []
    else
      var last := s[|s| - 1];
      RealMembers(s[..|s| - 1], p) + (if IsRealMemberOf(last, p) then [last] else [])
  }

  /** The filter keeps exactly the real members of `p`. */
  lemma {:induction false} RealMembersHolds(s: seq<Component>, p: PaneId)
    ensures forall c :: c in RealMembers(s, p) <==> c in s && IsRealMemberOf(c, p)
  {
    if |s| > 0 {
      RealMembersHolds(s[..|s| - 1], p);
      assert s == s[..|s| - 1] + [s[|s| - 1]];
    }
  }

  /** The real members of pane `p` in slot order: the order the editor shows
      a pane's cards in, and so the list a card's drag index refers to. */
  function PaneOrder(s: seq<Component>, p: PaneId): (r: seq<Component>)
    ensures multiset(r) == multiset(RealMembers(s, p))
  {
    SortBy(SlotLe, RealMembers(s, p))
  }

  ghost predicate UniqueIds(s: seq<Component>) {
    forall i, j :: 0 <= i < j < |s| ==> s[i].id != s[j].id
  }

  function IdOf(c: Component): Id {
    c.id
  }

  lemma UniqueIdsAreDistinctKeys(s: seq<Component>)
    ensures UniqueIds(s) <==> KeysDistinct(IdOf, s)
  {
  }

  /** Rearranging components keeps their ids unique. */
  lemma PermutationKeepsUniqueIds(s: seq<Component>, r: seq<Component>)
    requires multiset(r) == multiset(s)
    requires UniqueIds(s)
    ensures UniqueIds(r)
  {
    UniqueIdsAreDistinctKeys(s);
    PermutationKeepsKeysDistinct(IdOf, s, r);
    UniqueIdsAreDistinctKeys(r);
  }

  /** In a list with unique ids, two members with the same id are the same member. */
  lemma SameIdSameMember(s: seq<Component>, a: Component, b: Component)
    requires UniqueIds(s)
    requires a in s && b in s && a.id == b.id
    ensures a == b
  {
  }

  /** Filtering a list with unique ids keeps them unique. */
  lemma {:induction false} RealMembersUniqueIds(s: seq<Component>, p: PaneId)
    requires UniqueIds(s)
    ensures UniqueIds(RealMembers(s, p))
  {
    if |s| > 0 {
      var init := s[..|s| - 1];
      var last := s[|s| - 1];
      RealMembersUniqueIds(init, p);
      RealMembersHolds(init, p);
      var r := RealMembers(init, p);
      forall c | c in r ensures c.id != last.id {
        var k :| 0 <= k < |init| && init[k] == c;
        assert s[k] == c;
      }
    }
  }

  /** JavaScript's `findIndex(c => c.id === id)`: the first index holding `id`. */
  function FindIndex(s: seq<Component>, id: Id): (r: Option<nat>)
    ensures r.Some? ==> r.value < |s| && s[r.value].id == id
    ensures r.Some? ==> forall k :: 0 <= k < r.value ==> s[k].id != id
    ensures r.None? ==> forall k :: 0 <= k < |s| ==> s[k].id != id
  {
    if |s| == 0 then None
    else if s[0].id == id then Some(0)
    else
      match FindIndex(s[1..], id)
      case None => None
      case Some(k) => Some(k + 1)
  }

  lemma FindIndexOfUnique(s: seq<Component>, i: nat)
    requires UniqueIds(s) && i < |s|
    ensures FindIndex(s, s[i].id) == Some(i)
  {
  }

  /** Two lists that hold the same ids at the same indexes. */
  ghost predicate SameIds(a: seq<Component>, b: seq<Component>) {
    |a| == |b| && forall i :: 0 <= i < |a| ==> a[i].id == b[i].id
  }

  lemma FindIndexSameIds(a: seq<Component>, b: seq<Component>, id: Id)
    requires SameIds(a, b)
    ensures FindIndex(a, id) == FindIndex(b, id)
  {
  }

  function Min(a: int, b: int): (m: int)
    ensures m <= a && m <= b && (m == a || m == b)
  {
    if a <= b then a else b
  }

  /** `Math.min(...ms.map(c => c.position))`, with `None` standing for the
      `Infinity` that `Math.min` yields on no arguments. */
  function MinPosition(ms: seq<Component>): (r: Option<int>)
    ensures r.None? <==> |ms| == 0
    ensures r.Some? ==> exists k :: 0 <= k < |ms| && ms[k].position == r.value
    ensures r.Some? ==> forall k :: 0 <= k < |ms| ==> r.value <= ms[k].position
  {
    if |ms| == 0 then None
    else
      match MinPosition(ms[1..])
      case None => Some(ms[0].position)
      case Some(m) => Some(Min(ms[0].position, m))
  }

  /** "a may come first" for two minima where `None` is +Infinity: the
      comparator `minA - minB`, including `Infinity - Infinity`, which is NaN
      and which the sort treats as 0. */
  predicate NoLater(a: Option<int>, b: Option<int>) {
    b.None? || (a.Some? && a.value <= b.value)
  }

  /** A pane as the views hold it: its id and its members. */
  datatype Pane = Pane(id: PaneId, members: seq<Component>)

  /** Panes are ordered by the least `position` among their members; a pane
      without members comes after every pane with members. */
  predicate PaneLe(a: Pane, b: Pane) {
    NoLater(MinPosition(a.members), MinPosition(b.members))
  }

  lemma PaneLeIsTotalPreorder()
    ensures TotalPreorder(PaneLe)
  {
  }

  /** Some component of `s` is grouped under pane `p`. */
  ghost predicate HasPane(s: seq<Component>, p: PaneId) {
    exists i :: 0 <= i < |s| && PaneKey(s[i]) == Some(p)
  }

  /** The distinct truthy pane ids of `s`, in order of first occurrence: the
      key order of `new Set(...)` and of a JavaScript `Map` filled in list order. */
  function DistinctPaneIds(s: seq<Component>): (r: seq<PaneId>)
    ensures forall i, j :: 0 <= i < j < |r| ==> r[i] != r[j]
    ensures forall i :: 0 <= i < |r| ==> r[i] != ""
  {
    if |s| == 0 then []
    else
      var d := DistinctPaneIds(s[..|s| - 1]);
      var key := PaneKey(s[|s| - 1]);
      if key.Some? && key.value !in d then d + [key.value] else d
  }

  /** The ids listed are exactly the truthy pane ids of `s`. */
  lemma {:induction false} DistinctPaneIdsHolds(s: seq<Component>)
    ensures forall p :: p in DistinctPaneIds(s) <==> HasPane(s, p)
  {
    if |s| > 0 {
      var init := s[..|s| - 1];
      var last := s[|s| - 1];
      DistinctPaneIdsHolds(init);
      forall p ensures HasPane(s, p) <==> HasPane(init, p) || PaneKey(last) == Some(p) {
        if HasPane(s, p) {
          var i :| 0 <= i < |s| && PaneKey(s[i]) == Some(p);
          if i < |s| - 1 {
            assert init[i] == s[i];
          }
        }
        if HasPane(init, p) {
          var i :| 0 <= i < |init| && PaneKey(init[i]) == Some(p);
          assert s[i] == init[i];
        }
      }
    }
  }
}
