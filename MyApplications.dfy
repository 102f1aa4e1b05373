/**
 * The "my applications" view: it lists the pending applications in ranking
 * order, lets the student drag one to another place (which re-ranks the whole
 * list through the store's reorder) and offers up/down controls that call the
 * store's move operations.
 */
module MyApplications {
  import opened PositionTypes
  import opened Sequences
  import opened Ranking

  /** `Array.prototype.splice(start, deleteCount, ...items)` on an in-range
      start: removes `deleteCount` elements at `start` and puts `items` there. */
  function Splice<T>(s: seq<T>, start: int, deleteCount: int, items: seq<T>): (r: seq<T>)
    requires 0 <= start && 0 <= deleteCount && start + deleteCount <= |s|
    ensures |r| == |s| - deleteCount + |items|
    ensures r[..start] == s[..start]
    ensures r[start..start + |items|] == items
    ensures r[start + |items|..] == s[start + deleteCount..]
  {
    s[..start] + items + s[start + deleteCount..]
  }

  /** The list without the element at index `i`. */
  function RemoveAt<T>(s: seq<T>, i: int): seq<T>
    requires 0 <= i < |s|
  {
    s[..i] + s[i + 1..]
  }

  /** The order a drag from `from` onto `to` produces: the dragged element is
      taken out and put back in at `to`. */
  function DragOrder<T>(s: seq<T>, from: int, to: int): (r: seq<T>)
    requires 0 <= from < |s| && 0 <= to < |s|
  {
    var removed := Splice(s, from, 1, []);
    Splice(removed, to, 0, [s[from]])
  }

  /** The list handed to the reorder is a permutation of the shown list, the
      dragged element lands at the target index, and removing it from both
      lists leaves the same sequence: every other element keeps its relative
      order. */
  lemma DragOrderSpec<T>(s: seq<T>, from: int, to: int)
    requires 0 <= from < |s| && 0 <= to < |s|
    ensures |DragOrder(s, from, to)| == |s|
    ensures DragOrder(s, from, to)[to] == s[from]
    ensures RemoveAt(DragOrder(s, from, to), to) == RemoveAt(s, from)
    ensures multiset(DragOrder(s, from, to)) == multiset(s)
  {
    var removed := s[..from] + s[from + 1..];
    var r := DragOrder(s, from, to);
    assert r == removed[..to] + [s[from]] + removed[to..];
    assert RemoveAt(r, to) == removed[..to] + removed[to..];
    assert removed[..to] + removed[to..] == removed;
    assert s == s[..from] + [s[from]] + s[from + 1..];
    assert multiset(s) == multiset(s[..from]) + multiset{s[from]} + multiset(s[from + 1..]);
    assert multiset(r) == multiset(removed[..to]) + multiset{s[from]} + multiset(removed[to..]);
    assert multiset(removed) == multiset(removed[..to]) + multiset(removed[to..]);
    assert multiset(removed) == multiset(s[..from]) + multiset(s[from + 1..]);
    assert multiset(r) == multiset(removed) + multiset{s[from]};
  }

  /** Up and down controls of the card at `index` in a list of `count`. */
  predicate UpDisabled(index: int) {
    index == 0
  }

  predicate DownDisabled(index: int, count: int) {
    index == count - 1
  }

  lemma IndexOfRankedId(apps: seq<Application>, i: int)
    requires UniquePendingIds(apps) && 0 <= i < |Ranked(apps)|
    ensures IndexOfId(Ranked(apps), Ranked(apps)[i].id) == i
  {
  }

  /** The up control of the card at `index` is disabled exactly when pressing
      it would leave the applications unchanged. */
  lemma UpControlMatchesMoveUp(apps: seq<Application>, index: int)
    requires UniquePendingIds(apps) && 0 <= index < |Ranked(apps)|
    ensures UpDisabled(index) <==> MovedUp(apps, Ranked(apps)[index].id) == apps
  {
    var r := Ranked(apps);
    var id := r[index].id;
    IndexOfRankedId(apps, index);
    if index > 0 {
      MoveUpSwapsWithPredecessor(apps, id);
    }
  }

  /** The down control of the card at `index` is disabled exactly when
      pressing it would leave the applications unchanged. */
  lemma DownControlMatchesMoveDown(apps: seq<Application>, index: int)
    requires UniquePendingIds(apps) && 0 <= index < |Ranked(apps)|
    ensures DownDisabled(index, |Ranked(apps)|) <==> MovedDown(apps, Ranked(apps)[index].id) == apps
  {
    var r := Ranked(apps);
    var id := r[index].id;
    IndexOfRankedId(apps, index);
    if index < |r| - 1 {
      MoveDownSwapsWithSuccessor(apps, id);
    }
  }

  /** After a drag, the ranking is the dragged order numbered 1..N: the
      dragged application holds rank `to + 1`, the ranks stay contiguous and
      the cancelled records are kept. */
  lemma DragRanksAsShown(apps: seq<Application>, from: int, to: int)
    requires 0 <= from < |Ranked(apps)| && 0 <= to < |Ranked(apps)|
    ensures var order := DragOrder(Ranked(apps), from, to);
      && Ranked(Reordered(apps, order)) == Renumber(order)
      && Ranked(Reordered(apps, order))[to] == Ranked(apps)[from].(priority := to + 1)
      && Contiguous(Reordered(apps, order))
      && WithStatus(Reordered(apps, order), Cancelled) == WithStatus(apps, Cancelled)
  {
    var order := DragOrder(Ranked(apps), from, to);
    DragOrderSpec(Ranked(apps), from, to);
    assert forall a :: a in order ==> a in multiset(Ranked(apps));
    ReorderRanksInGivenOrder(apps, order);
  }

  /** A drag permutes the shown list, so pending ids stay unique. */
  lemma DragKeepsUniqueIds(apps: seq<Application>, from: int, to: int)
    requires UniquePendingIds(apps)
    requires 0 <= from < |Ranked(apps)| && 0 <= to < |Ranked(apps)|
    ensures UniquePendingIds(Reordered(apps, DragOrder(Ranked(apps), from, to)))
  {
    DragOrderSpec(Ranked(apps), from, to);
    PermutedRankingKeepsUniqueIds(apps, DragOrder(Ranked(apps), from, to));
  }

  /** The view's own state: the index of the card being dragged, if any. */
  class MyApplicationsView {
    var draggedIndex: Option<int>

    constructor ()
      ensures draggedIndex == None
    {
      draggedIndex := None;
    }

    method HandleDragStart(index: int)
      modifies this
      ensures draggedIndex == Some(index)
    {
      draggedIndex := Some(index);
    }

    method HandleDragEnd()
      modifies this
      ensures draggedIndex == None
    {
      draggedIndex := None;
    }

    /** `handleDragOver`: both indices are positions of rendered cards. */
    method HandleDragOver(store: ApplicationStore, index: int)
      requires 0 <= index < |Ranked(store.applications)|
      requires draggedIndex.Some? ==> 0 <= draggedIndex.value < |Ranked(store.applications)|
      modifies this, store
      ensures old(draggedIndex).None? || old(draggedIndex) == Some(index) ==>
        store.applications == old(store.applications) && draggedIndex == old(draggedIndex)
      ensures old(draggedIndex).Some? && old(draggedIndex) != Some(index) ==>
        && store.applications == Reordered(old(store.applications),
             DragOrder(Ranked(old(store.applications)), old(draggedIndex).value, index))
        && draggedIndex == Some(index)
      ensures old(store.Valid()) ==> store.Valid()
      ensures old(UniquePendingIds(store.applications)) ==> UniquePendingIds(store.applications)
    {
      if draggedIndex.None? || draggedIndex == Some(index) {
        return;
      }
      var from := draggedIndex.value;
      var newApplications := Ranked(store.applications);
      var draggedItem := newApplications[from];
      newApplications := Splice(newApplications, from, 1, []);
      newApplications := Splice(newApplications, index, 0, [draggedItem]);
      if UniquePendingIds(store.applications) {
        DragKeepsUniqueIds(store.applications, from, index);
      }
      store.Reorder(newApplications);
      draggedIndex := Some(index);
    }
  }
}
