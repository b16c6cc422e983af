/**
  The component store behind the editor (the `component` router of
  src/server/api/routers/component.ts).

  The table is a sequence of rows in storage order, ids unique.  The store
  lists the rows by `position` and then by slot, creates a component at the
  next free position in a pane of its own, replays a drop's update batch one
  row at a time, deletes by id, and creates the single "empty group"
  placeholder.  The random pane id and the generated row id are parameters
  that the caller guarantees unused.
*/
module ComponentRouter {
  import opened Sorting
  import opened Layout
  import opened DropPlanner

  /** The name every empty-group placeholder row is stored under. */
  const PlaceholderName: string := "Empty Group Placeholder"

  /** The listing comparator: `position` first, then `panePosition || 0`. */
  predicate ListingLe(a: Component, b: Component) {
    a.position < b.position || (a.position == b.position && Slot(a) <= Slot(b))
  }

  lemma ListingLeIsTotalPreorder()
    ensures TotalPreorder(ListingLe)
  {
  }

  /** All rows in listing order. */
  function Listing(rows: seq<Component>): (r: seq<Component>)
    ensures |r| == |rows| && multiset(r) == multiset(rows)
  {
    SortBy(ListingLe, rows)
  }

  /** The listing is ordered by position and then slot, holds every row
      exactly once and keeps ids unique. */
  lemma ListingIsOrdered(rows: seq<Component>)
    ensures SortedBy(ListingLe, Listing(rows))
    ensures forall c :: c in Listing(rows) <==> c in rows
    ensures UniqueIds(rows) ==> UniqueIds(Listing(rows))
  {
    ListingLeIsTotalPreorder();
    SortByIsSorted(ListingLe, rows);
    forall c ensures c in Listing(rows) <==> c in rows {
      assert c in Listing(rows) <==> c in multiset(Listing(rows));
    }
    if UniqueIds(rows) {
      PermutationKeepsUniqueIds(rows, Listing(rows));
    }
  }

  /** `Math.max(...positions) + 1`, or 0 for an empty table. */
  function NextPosition(rows: seq<Component>): (p: int)
    ensures |rows| == 0 ==> p == 0
    ensures forall i :: 0 <= i < |rows| ==> rows[i].position < p
    ensures |rows| > 0 ==> exists i :: 0 <= i < |rows| && rows[i].position == p - 1
  {
    if |rows| == 0 then 0
    else if |rows| == 1 then rows[0].position + 1
    else
      var rest := NextPosition(rows[1..]);
      if rows[0].position + 1 >= rest then rows[0].position + 1 else rest
  }

  /** The row a create stores: the next position, slot 0 of a new pane. */
  function NewComponent(rows: seq<Component>, id: Id, name: string, kind: string,
                        content: Option<string>, pane: PaneId): Component {
    Component(id, name, kind, content, NextPosition(rows), Some(pane), Some(0))
  }

  /** One `update`: the row with the batch entry's position, pane and slot. */
  function Applied(c: Component, u: Update): (r: Component)
    ensures r.id == c.id && r.name == c.name && r.kind == c.kind && r.content == c.content
    ensures r.position == u.position && r.paneId == u.paneId && r.panePosition == u.panePosition
  {
    c.(position := u.position, paneId := u.paneId, panePosition := u.panePosition)
  }

  /** The table after a reorder, and whether every update found its row. */
  datatype Replay = Replay(rows: seq<Component>, ok: bool)

  /** `reorder`: the updates run in batch order; the first one whose id has no
      row throws, and the updates before it stay applied. */
  function ReplayBatch(rows: seq<Component>, batch: seq<Update>): (r: Replay)
    ensures SameIds(rows, r.rows)
    decreases |batch|
  {
    if |batch| == 0 then Replay(rows, true)
    else
      match FindIndex(rows, batch[0].id)
      case None => Replay(rows, false)
      case Some(i) => ReplayBatch(rows[i := Applied(rows[i], batch[0])], batch[1..])
  }

  /** What a replay leaves in a row: the first update carrying its id, if any. */
  function Patched(c: Component, batch: seq<Update>): Component
    decreases |batch|
  {
    if |batch| == 0 then c
    else if batch[0].id == c.id then Applied(c, batch[0])
    else Patched(c, batch[1..])
  }

  /** The store's rows with the row `id` removed, or `None` when there is no
      such row (the delete throws). */
  function Removed(rows: seq<Component>, id: Id): (r: Option<seq<Component>>)
    ensures r.None? <==> FindIndex(rows, id).None?
    ensures r.Some? ==> |r.value| == |rows| - 1
  {
    match FindIndex(rows, id)
    case None => None
    case Some(i) => Some(RemoveAt(rows, i))
  }

  /** The first row of kind "placeholder" (`findFirst` on the kind). */
  function FirstPlaceholder(rows: seq<Component>): (r: Option<Component>)
    ensures r.Some? ==> r.value in rows && IsPlaceholder(r.value)
    ensures r.None? ==> forall c :: c in rows ==> !IsPlaceholder(c)
  {
    if |rows| == 0 then None
    else if IsPlaceholder(rows[0]) then Some(rows[0])
    else
      assert forall c :: c in rows ==> c == rows[0] || c in rows[1..];
      FirstPlaceholder(rows[1..])
  }

  /** What `createHorizontalGroup` answers. */
  datatype GroupResult =
    | AlreadyHasEmptyGroup
    | GroupCreated(paneId: PaneId, position: int, placeholderId: Id)

  class ComponentStore {
    var rows: seq<Component>

    ghost predicate Valid()
      reads this
    {
      UniqueIds(rows)
    }

    constructor()
      ensures Valid() && rows == []
    {
      rows := [];
    }

    /** `getAll`: the rows by position then slot, or no rows when the store fails. */
    method GetAll(storeFails: bool) returns (r: seq<Component>)
      requires Valid()
      ensures storeFails ==> r == []
      ensures !storeFails ==> && SortedBy(ListingLe, r)
                              && multiset(r) == multiset(rows)
                              && UniqueIds(r)
    {
      if storeFails {
        return [];
      }
      r := Listing(rows);
      ListingIsOrdered(rows);
    }

    /** `create`: an empty name is refused; otherwise the component is stored
        at the next position, alone in a new pane, at slot 0. */
    method Create(name: string, kind: string, content: Option<string>, freshId: Id, freshPane: PaneId)
      returns (r: Option<Component>)
      requires Valid()
      requires FindIndex(rows, freshId).None?
      modifies this
      ensures Valid()
      ensures |name| == 0 ==> r.None? && rows == old(rows)
      ensures |name| > 0 ==> && r == Some(NewComponent(old(rows), freshId, name, kind, content, freshPane))
                             && rows == old(rows) + [r.value]
    {
      if |name| == 0 {
        return None;
      }
      var c := NewComponent(rows, freshId, name, kind, content, freshPane);
      rows := rows + [c];
      r := Some(c);
    }

    /** `reorder`: one `update` per batch entry, in order, stopping with an
        error at the first id that has no row. */
    method Reorder(batch: seq<Update>) returns (ok: bool)
      requires Valid()
      modifies this
      ensures Valid()
      ensures rows == ReplayBatch(old(rows), batch).rows
      ensures ok == ReplayBatch(old(rows), batch).ok
    {
      ghost var goal := ReplayBatch(rows, batch);
      for i := 0 to |batch|
        invariant Valid()
        invariant ReplayBatch(rows, batch[i..]) == goal
      {
        assert batch[i..][0] == batch[i] && batch[i..][1..] == batch[i + 1..];
        var k := FindIndex(rows, batch[i].id);
        if k.None? {
          return false;
        }
        var next := rows[k.value := Applied(rows[k.value], batch[i])];
        assert SameIds(rows, next);
        rows := next;
      }
      ok := true;
    }

    /** `delete`: removes the row `id`; a missing id throws and nothing changes. */
    method Delete(id: Id) returns (ok: bool)
      requires Valid()
      modifies this
      ensures Valid()
      ensures ok == Removed(old(rows), id).Some?
      ensures rows == if ok then Removed(old(rows), id).value else old(rows)
    {
      var k := FindIndex(rows, id);
      if k.None? {
        return false;
      }
      var i := k.value;
      assert rows == rows[..i] + [rows[i]] + rows[i + 1..];
      rows := RemoveAt(rows, i);
      ok := true;
    }

    /** `deletePlaceholder`: the same delete by id; the row's kind is not checked. */
    method DeletePlaceholder(id: Id) returns (ok: bool)
      requires Valid()
      modifies this
      ensures Valid()
      ensures ok == Removed(old(rows), id).Some?
      ensures rows == if ok then Removed(old(rows), id).value else old(rows)
    {
      ok := Delete(id);
    }

    /** `createHorizontalGroup`: refused while any placeholder row exists;
        otherwise stores a placeholder at the next position, slot 0 of a new pane. */
    method CreateHorizontalGroup(freshId: Id, freshPane: PaneId) returns (r: GroupResult)
      requires Valid()
      requires FindIndex(rows, freshId).None?
      modifies this
      ensures Valid()
      ensures FirstPlaceholder(old(rows)).Some? ==> r == AlreadyHasEmptyGroup && rows == old(rows)
      ensures FirstPlaceholder(old(rows)).None? ==>
                && r == GroupCreated(freshPane, NextPosition(old(rows)), freshId)
                && rows == old(rows) + [NewComponent(old(rows), freshId, PlaceholderName,
                                                     PlaceholderKind, None, freshPane)]
    {
      if FirstPlaceholder(rows).Some? {
        return AlreadyHasEmptyGroup;
      }
      var position := NextPosition(rows);
      rows := rows + [NewComponent(rows, freshId, PlaceholderName, PlaceholderKind, None, freshPane)];
      r := GroupCreated(freshPane, position, freshId);
    }
  }
}
