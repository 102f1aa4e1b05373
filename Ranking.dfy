/**
 * The application-ranking store of a student's session: the ordered list of
 * applications, each pending or cancelled, with a priority rank among the
 * pending ones (1 = highest). New applications join at the end of the
 * ranking; cancellation is a soft delete; the pending subset can be re-ranked
 * from a caller-supplied order or by one adjacent swap up or down.
 */
module Ranking {
  import opened PositionTypes
  import opened Sequences

  // ---------------------------------------------------------------------------
  // Filters over the stored list
  // ---------------------------------------------------------------------------

  /** `apps.filter(app => app.status === st)`: the records with status `st`, in list order. */
  function WithStatus(apps: seq<Application>, st: ApplicationStatus): (r: seq<Application>)
    ensures forall a :: a in r <==> a in apps && a.status == st
    decreases |apps|
  {
    if apps == [] then []
    else if apps[0].status == st then [apps[0]] + WithStatus(apps[1..], st)
    else WithStatus(apps[1..], st)
  }

  /** The filter keeps the order of the records it keeps. */
  lemma {:induction false} WithStatusSubsequence(apps: seq<Application>, st: ApplicationStatus)
    ensures Subsequence(WithStatus(apps, st), apps)
    decreases |apps|
  {
    if apps != [] {
      WithStatusSubsequence(apps[1..], st);
    }
  }

  lemma {:induction false} WithStatusConcat(x: seq<Application>, y: seq<Application>, st: ApplicationStatus)
    ensures WithStatus(x + y, st) == WithStatus(x, st) + WithStatus(y, st)
    decreases |x|
  {
    if x == [] {
      assert x + y == y;
    } else {
      assert (x + y)[0] == x[0] && (x + y)[1..] == x[1..] + y;
      WithStatusConcat(x[1..], y, st);
    }
  }

  /** Filtering a list whose records all have status `st` keeps all of it, and
      filtering it for the other status keeps none. */
  lemma {:induction false} WithStatusUniform(s: seq<Application>, st: ApplicationStatus, other: ApplicationStatus)
    requires forall a :: a in s ==> a.status == st
    requires other != st
    ensures WithStatus(s, st) == s && WithStatus(s, other) == []
    decreases |s|
  {
    if s != [] {
      WithStatusUniform(s[1..], st, other);
    }
  }

  /** The pending and the cancelled records together are exactly the stored records. */
  lemma {:induction false} StatusPartition(apps: seq<Application>)
    ensures multiset(WithStatus(apps, Pending)) + multiset(WithStatus(apps, Cancelled)) == multiset(apps)
    decreases |apps|
  {
    if apps != [] {
      var h, t := apps[0], apps[1..];
      StatusPartition(t);
      assert apps == [h] + t;
      ConsOntoPart(h, WithStatus(t, Pending), WithStatus(t, Cancelled), t);
    }
  }

  /** Putting one more record in front of either part of a split of `t`
      splits `[h] + t`. */
  lemma ConsOntoPart(h: Application, x: seq<Application>, y: seq<Application>, t: seq<Application>)
    requires multiset(x) + multiset(y) == multiset(t)
    ensures multiset([h] + x) + multiset(y) == multiset([h] + t)
    ensures multiset(x) + multiset([h] + y) == multiset([h] + t)
  {
    assert multiset([h] + x) == multiset{h} + multiset(x);
    assert multiset([h] + y) == multiset{h} + multiset(y);
    assert multiset([h] + t) == multiset{h} + multiset(t);
  }

  // ---------------------------------------------------------------------------
  // Ranking by priority (the `.sort((a, b) => a.priority - b.priority)` step)
  // ---------------------------------------------------------------------------

  predicate PrioritySorted(s: seq<Application>) {
    forall i, j :: 0 <= i < j < |s| ==> s[i].priority <= s[j].priority
  }

  /** Inserts `x` in front of the first record whose priority is not below its own. */
  function InsertByPriority(x: Application, s: seq<Application>): (r: seq<Application>)
    requires PrioritySorted(s)
    ensures PrioritySorted(r)
    ensures multiset(r) == multiset(s) + multiset{x}
    decreases |s|
  {
    if s == [] then [x]
    else if x.priority <= s[0].priority then [x] + s
    else
      var t := InsertByPriority(x, s[1..]);
      InsertBehind(x, s, t);
      [s[0]] + t
  }

  lemma InsertBehind(x: Application, s: seq<Application>, t: seq<Application>)
    requires PrioritySorted(s) && s != [] && s[0].priority < x.priority
    requires PrioritySorted(t) && multiset(t) == multiset(s[1..]) + multiset{x}
    ensures PrioritySorted([s[0]] + t)
    ensures multiset([s[0]] + t) == multiset(s) + multiset{x}
  {
    assert s == [s[0]] + s[1..];
    forall j | 0 <= j < |t| ensures s[0].priority <= t[j].priority {
      assert t[j] in multiset(t);
      if t[j] != x {
        assert t[j] in s[1..];
      }
    }
  }

  /** A stable sort by ascending priority: sorted, with the same records. */
  function SortByPriority(s: seq<Application>): (r: seq<Application>)
    ensures PrioritySorted(r)
    ensures multiset(r) == multiset(s)
    decreases |s|
  {
    if s == [] then []
    else
      assert s == [s[0]] + s[1..];
      InsertByPriority(s[0], SortByPriority(s[1..]))
  }

  /** Sorting a list that is already sorted leaves it as it is. */
  lemma {:induction false} SortSortedIsIdentity(s: seq<Application>)
    requires PrioritySorted(s)
    ensures SortByPriority(s) == s
    decreases |s|
  {
    if s != [] {
      SortSortedIsIdentity(s[1..]);
      if |s| > 1 {
        assert s[0].priority <= s[1].priority;
      }
      assert [s[0]] + s[1..] == s;
    }
  }

  /** The pending records in ranking order (highest priority first). This is
      both the list the move operations work on and the list the
      "my applications" view shows. */
  function Ranked(apps: seq<Application>): (r: seq<Application>)
    ensures PrioritySorted(r)
    ensures multiset(r) == multiset(WithStatus(apps, Pending))
    ensures forall a :: a in r <==> a in apps && a.status == Pending
  {
    var p := WithStatus(apps, Pending);
    var r := SortByPriority(p);
    assert forall a :: a in r <==> a in multiset(p);
    r
  }

  // ---------------------------------------------------------------------------
  // Invariants over priorities
  // ---------------------------------------------------------------------------

  /** What every operation of the store keeps: pending priorities are positive
      and no two pending records share one. */
  ghost predicate DistinctRanks(apps: seq<Application>) {
    var p := WithStatus(apps, Pending);
    && (forall i :: 0 <= i < |p| ==> 1 <= p[i].priority)
    && (forall i, j :: 0 <= i < j < |p| ==> p[i].priority != p[j].priority)
  }

  /** The pending priorities are exactly 1..N, N the number of pending records:
      N pairwise different values, each between 1 and N. */
  ghost predicate Contiguous(apps: seq<Application>) {
    var p := WithStatus(apps, Pending);
    && (forall i :: 0 <= i < |p| ==> 1 <= p[i].priority <= |p|)
    && (forall i, j :: 0 <= i < j < |p| ==> p[i].priority != p[j].priority)
  }

  /** The pending records, in list order, carry priorities 1, 2, ..., N. */
  ghost predicate InCallOrder(apps: seq<Application>) {
    var p := WithStatus(apps, Pending);
    forall i :: 0 <= i < |p| ==> p[i].priority == i + 1
  }

  // ---------------------------------------------------------------------------
  // addApplication
  // ---------------------------------------------------------------------------

  /** `Math.max(...s.map(app => app.priority))` on a non-empty list. */
  function MaxPriority(s: seq<Application>): (m: int)
    requires s != []
    ensures exists a :: a in s && a.priority == m
    ensures forall a :: a in s ==> a.priority <= m
    decreases |s|
  {
    if |s| == 1 then s[0].priority
    else
      var m := MaxPriority(s[1..]);
      assert forall a :: a in s[1..] ==> a in s;
      assert forall a :: a in s ==> a == s[0] || a in s[1..];
      if s[0].priority > m then s[0].priority else m
  }

  /** The priority a new application receives: one past the largest pending
      priority, or 1 when nothing is pending. */
  function NextPriority(apps: seq<Application>): (p: int)
    ensures WithStatus(apps, Pending) == [] ==> p == 1
    ensures forall a :: a in apps && a.status == Pending ==> a.priority < p
    ensures WithStatus(apps, Pending) != [] ==>
      exists a :: a in apps && a.status == Pending && a.priority == p - 1
  {
    var pending := WithStatus(apps, Pending);
    if |pending| > 0 then MaxPriority(pending) + 1 else 1
  }

  /** The record `addApplication` builds from the form's draft: every field of
      the draft, the given id, submission time and priority, and status pending. */
  function NewApplication(d: Draft, id: string, at: Timestamp, priority: int): (a: Application)
    ensures a.status == Pending && a.id == id && a.priority == priority && a.submittedAt == at
    ensures a.positionId == d.positionId && a.positionTitle == d.positionTitle
    ensures a.department == d.department && a.category == d.category
    ensures a.section == d.section && a.reason == d.reason
  {
    Application(id, d.positionId, d.positionTitle, d.department, d.category,
                d.section, d.reason, at, Pending, priority)
  }

  /** A list of N distinct values, all between 1 and m, has N <= m. */
  lemma {:induction false} DistinctBoundedLength(xs: seq<int>, m: int)
    requires m >= 0 && NoDuplicates(xs)
    requires forall i :: 0 <= i < |xs| ==> 1 <= xs[i] <= m
    ensures |xs| <= m
    decreases |xs|
  {
    if xs != [] {
      var v := xs[0];
      var ys := seq(|xs| - 1, i requires 0 <= i < |xs| - 1 =>
                  if xs[i + 1] > v then xs[i + 1] - 1 else xs[i + 1]);
      forall i, j | 0 <= i < j < |ys| ensures ys[i] != ys[j] {
        assert xs[i + 1] != xs[j + 1] && xs[i + 1] != v && xs[j + 1] != v;
      }
      forall i | 0 <= i < |ys| ensures 1 <= ys[i] <= m - 1 {
        assert xs[i + 1] != v;
      }
      DistinctBoundedLength(ys, m - 1);
    }
  }

  /** The priorities of a list of records, in order. */
  function Priorities(s: seq<Application>): (ps: seq<int>)
    ensures |ps| == |s| && forall i :: 0 <= i < |s| ==> ps[i] == s[i].priority
  {
    seq(|s|, i requires 0 <= i < |s| => s[i].priority)
  }

  /** With contiguous ranks, the next priority is N + 1: the ranks 1..N are all
      taken, so N itself is the largest. */
  lemma ContiguousNextPriority(apps: seq<Application>)
    requires Contiguous(apps)
    ensures NextPriority(apps) == |WithStatus(apps, Pending)| + 1
  {
    var p := WithStatus(apps, Pending);
    var n := NextPriority(apps);
    if p != [] {
      var top :| top in apps && top.status == Pending && top.priority == n - 1;
      assert top in p;
      if n - 1 < |p| {
        // then every pending priority is at most N - 1, which N distinct values cannot be
        var ps := Priorities(p);
        forall i | 0 <= i < |ps| ensures 1 <= ps[i] <= |p| - 1 {
          assert p[i] in apps;
        }
        DistinctBoundedLength(ps, |p| - 1);
        assert false;
      }
    }
  }

  /** Every pending priority is below the next priority. */
  lemma PendingBelowNext(apps: seq<Application>)
    ensures forall i :: 0 <= i < |WithStatus(apps, Pending)| ==>
      WithStatus(apps, Pending)[i].priority < NextPriority(apps)
  {
    var p := WithStatus(apps, Pending);
    forall i | 0 <= i < |p| ensures p[i].priority < NextPriority(apps) {
      assert p[i] in apps;
    }
  }

  /** An appended pending record joins the end of the pending records. */
  lemma AppendPending(apps: seq<Application>, x: Application)
    requires x.status == Pending
    ensures WithStatus(apps + [x], Pending) == WithStatus(apps, Pending) + [x]
  {
    WithStatusConcat(apps, [x], Pending);
    assert [x][1..] == [];
  }

  /** Appending a record ranked above all others to positive, pairwise
      different ranks keeps them so; with ranks 1..N and the new rank N+1
      the ranks become 1..N+1. */
  lemma AppendAbove(p: seq<Application>, x: Application, bound: int)
    requires forall i :: 0 <= i < |p| ==> 1 <= p[i].priority <= bound
    requires forall i, j :: 0 <= i < j < |p| ==> p[i].priority != p[j].priority
    requires 1 <= x.priority && bound < x.priority
    ensures forall i :: 0 <= i < |p + [x]| ==> 1 <= (p + [x])[i].priority <= x.priority
    ensures forall i, j :: 0 <= i < j < |p + [x]| ==> (p + [x])[i].priority != (p + [x])[j].priority
  {
    var q := p + [x];
    forall i | 0 <= i < |q| ensures 1 <= q[i].priority <= x.priority {
      if i < |p| {
        assert q[i] == p[i];
      }
    }
    forall i, j | 0 <= i < j < |q| ensures q[i].priority != q[j].priority {
      assert q[i] == p[i];
      if j < |p| {
        assert q[j] == p[j];
      }
    }
  }

  /** Adding to contiguous ranks keeps them contiguous. */
  lemma AddKeepsContiguous(apps: seq<Application>, d: Draft, id: string, at: Timestamp)
    requires Contiguous(apps)
    ensures Contiguous(apps + [NewApplication(d, id, at, NextPriority(apps))])
  {
    var x := NewApplication(d, id, at, NextPriority(apps));
    AppendPending(apps, x);
    ContiguousNextPriority(apps);
    var p := WithStatus(apps, Pending);
    AppendAbove(p, x, |p|);
  }

  /** Adding keeps pending priorities positive and pairwise different. */
  lemma AddKeepsDistinctRanks(apps: seq<Application>, d: Draft, id: string, at: Timestamp)
    requires DistinctRanks(apps)
    ensures DistinctRanks(apps + [NewApplication(d, id, at, NextPriority(apps))])
  {
    var x := NewApplication(d, id, at, NextPriority(apps));
    AppendPending(apps, x);
    PendingBelowNext(apps);
    NextPriorityPositive(apps);
    AppendAbove(WithStatus(apps, Pending), x, x.priority - 1);
  }

  /** With positive ranks, the next priority is positive too. */
  lemma NextPriorityPositive(apps: seq<Application>)
    requires DistinctRanks(apps)
    ensures NextPriority(apps) >= 1
  {
    var p := WithStatus(apps, Pending);
    if p != [] {
      PendingBelowNext(apps);
      assert 1 <= p[0].priority < NextPriority(apps);
    }
  }

  /** Starting from no pending records, a run of additions with no
      cancellation numbers the pending records 1, 2, ..., N in call order. */
  lemma AddKeepsCallOrder(apps: seq<Application>, d: Draft, id: string, at: Timestamp)
    requires InCallOrder(apps)
    ensures InCallOrder(apps + [NewApplication(d, id, at, NextPriority(apps))])
    ensures NextPriority(apps) == |WithStatus(apps, Pending)| + 1
  {
    var x := NewApplication(d, id, at, NextPriority(apps));
    var p := WithStatus(apps, Pending);
    AppendPending(apps, x);
    if p != [] {
      PendingBelowNext(apps);
      var top :| top in apps && top.status == Pending && top.priority == NextPriority(apps) - 1;
      assert top in p;
      var k :| 0 <= k < |p| && p[k] == top;
      assert p[|p| - 1].priority < NextPriority(apps);
    }
  }

  // ---------------------------------------------------------------------------
  // cancelApplication
  // ---------------------------------------------------------------------------

  /** `prev.map(app => app.id === id ? { ...app, status: "cancelled" } : app)` */
  function CancelMatching(apps: seq<Application>, id: string): (r: seq<Application>)
    ensures |r| == |apps|
    ensures forall i :: 0 <= i < |apps| ==>
      r[i] == if apps[i].id == id then apps[i].(status := Cancelled) else apps[i]
  {
    seq(|apps|, i requires 0 <= i < |apps| =>
      if apps[i].id == id then apps[i].(status := Cancelled) else apps[i])
  }

  /** An id that matches no record leaves the list as it is. */
  lemma CancelUnknownIsNoOp(apps: seq<Application>, id: string)
    requires forall a :: a in apps ==> a.id != id
    ensures CancelMatching(apps, id) == apps
  {
    var r := CancelMatching(apps, id);
    assert forall i :: 0 <= i < |apps| ==> r[i] == apps[i];
  }

  /** After a cancel, the pending records are the former pending records
      without the cancelled id, in the same order; every other record keeps
      all its fields, priority included. */
  lemma {:induction false} CancelPending(apps: seq<Application>, id: string)
    ensures WithStatus(CancelMatching(apps, id), Pending) == Without(WithStatus(apps, Pending), id)
    decreases |apps|
  {
    if apps != [] {
      var r := CancelMatching(apps, id);
      CancelPending(apps[1..], id);
      assert r[1..] == CancelMatching(apps[1..], id);
    }
  }

  /** The records whose id differs from `id`, in order. */
  function Without(s: seq<Application>, id: string): (r: seq<Application>)
    ensures forall a :: a in r <==> a in s && a.id != id
    ensures Subsequence(r, s)
    decreases |s|
  {
    if s == [] then []
    else if s[0].id == id then Without(s[1..], id)
    else [s[0]] + Without(s[1..], id)
  }

  /** A cancelled id never shows up among the pending records afterwards. */
  lemma CancelRemovesFromRanking(apps: seq<Application>, id: string)
    ensures forall a :: a in Ranked(CancelMatching(apps, id)) ==> a.id != id
  {
    CancelPending(apps, id);
  }

  lemma CancelKeepsDistinctRanks(apps: seq<Application>, id: string)
    requires DistinctRanks(apps)
    ensures DistinctRanks(CancelMatching(apps, id))
  {
    CancelPending(apps, id);
    var p := WithStatus(apps, Pending);
    var q := Without(p, id);
    SubsequenceKeepsDistinctRanks(q, p);
  }

  lemma {:induction false} SubsequenceKeepsDistinctRanks(q: seq<Application>, p: seq<Application>)
    requires Subsequence(q, p)
    requires forall i :: 0 <= i < |p| ==> 1 <= p[i].priority
    requires forall i, j :: 0 <= i < j < |p| ==> p[i].priority != p[j].priority
    ensures forall i :: 0 <= i < |q| ==> 1 <= q[i].priority
    ensures forall i, j :: 0 <= i < j < |q| ==> q[i].priority != q[j].priority
    decreases |p|
  {
    if q != [] {
      assert p != [];
      forall i | 0 <= i < |q| ensures 1 <= q[i].priority {
        SubsequenceElements(q, p, q[i]);
      }
      if q[0] == p[0] && Subsequence(q[1..], p[1..]) {
        SubsequenceKeepsDistinctRanks(q[1..], p[1..]);
        forall j | 0 < j < |q| ensures q[0].priority != q[j].priority {
          SubsequenceElements(q[1..], p[1..], q[j]);
          var k :| 0 <= k < |p[1..]| && p[1..][k] == q[j];
          assert p[k + 1] == q[j];
        }
      } else {
        SubsequenceKeepsDistinctRanks(q, p[1..]);
      }
    }
  }

  // ---------------------------------------------------------------------------
  // getAppliedCategories and hasAppliedToPosition
  // ---------------------------------------------------------------------------

  /** The pending records for one position, in list order. */
  function ActiveFor(apps: seq<Application>, positionId: string): (r: seq<Application>)
    ensures forall a :: a in r <==> a in apps && a.positionId == positionId && a.status == Pending
    decreases |apps|
  {
    if apps == [] then []
    else if apps[0].positionId == positionId && apps[0].status == Pending then
      [apps[0]] + ActiveFor(apps[1..], positionId)
    else ActiveFor(apps[1..], positionId)
  }

  lemma {:induction false} ActiveForSubsequence(apps: seq<Application>, positionId: string)
    ensures Subsequence(ActiveFor(apps, positionId), apps)
    decreases |apps|
  {
    if apps != [] {
      ActiveForSubsequence(apps[1..], positionId);
    }
  }

  /** The categories of the given records, in order, skipping those without one. */
  function DefinedCategories(s: seq<Application>): (r: seq<Category>)
    ensures forall c :: c in r <==> exists a :: a in s && a.category == Some(c)
    ensures |r| <= |s|
    decreases |s|
  {
    if s == [] then []
    else
      var rest := DefinedCategories(s[1..]);
      assert forall a :: a in s ==> a == s[0] || a in s[1..];
      match s[0].category
      case Some(c) => [c] + rest
      case None => rest
  }

  /** `getAppliedCategories(positionId)`: the categories of the pending
      applications to that position, in list order. A category is listed
      exactly when some pending record for the position carries it. */
  function AppliedCategories(apps: seq<Application>, positionId: string): (r: seq<Category>)
    ensures forall c :: c in r <==>
      exists a :: a in apps && a.positionId == positionId && a.status == Pending && a.category == Some(c)
    ensures |r| <= |ActiveFor(apps, positionId)|
  {
    DefinedCategories(ActiveFor(apps, positionId))
  }

  /** `hasAppliedToPosition(positionId, category)`. The category argument is a
      string; the empty string stands for both "" and `undefined`, which the
      program treats alike. With a category, true exactly when that category is
      among the applied categories of the position; without one, true exactly
      when some pending record for the position exists. */
  function HasAppliedToPosition(apps: seq<Application>, positionId: string, category: string): (r: bool)
    ensures category != "" ==>
      (r <==> exists c :: c in AppliedCategories(apps, positionId) && CategoryName(c) == category)
    ensures category == "" ==>
      (r <==> exists a :: a in apps && a.positionId == positionId && a.status == Pending)
  {
    var active := ActiveFor(apps, positionId);
    if category != "" then
      var r := exists a :: a in active && a.category.Some? && CategoryName(a.category.value) == category;
      assert r ==> exists c :: c in AppliedCategories(apps, positionId) && CategoryName(c) == category by {
        if r {
          var a :| a in active && a.category.Some? && CategoryName(a.category.value) == category;
          assert a.category.value in AppliedCategories(apps, positionId);
        }
      }
      r
    else
      assert |active| > 0 ==> active[0] in active;
      |active| > 0
  }

  // ---------------------------------------------------------------------------
  // reorderApplications
  // ---------------------------------------------------------------------------

  /** `reordered.map((app, index) => ({ ...app, priority: index + 1 }))`. */
  function Renumber(s: seq<Application>): (r: seq<Application>)
    ensures |r| == |s|
    ensures forall i :: 0 <= i < |s| ==> r[i] == s[i].(priority := i + 1)
  {
    seq(|s|, i requires 0 <= i < |s| => s[i].(priority := i + 1))
  }

  /** The list `reorderApplications(reordered)` stores: the caller's list
      renumbered 1..N, followed by the previously cancelled records. */
  function Reordered(apps: seq<Application>, reordered: seq<Application>): (r: seq<Application>)
    ensures |r| == |reordered| + |WithStatus(apps, Cancelled)|
    ensures forall i :: 0 <= i < |reordered| ==> r[i] == reordered[i].(priority := i + 1)
    ensures r[|reordered|..] == WithStatus(apps, Cancelled)
  {
    Renumber(reordered) + WithStatus(apps, Cancelled)
  }

  /** A renumbered list of pending records is its own ranking. */
  lemma RenumberedPendingRanking(s: seq<Application>, cancelled: seq<Application>)
    requires forall a :: a in s ==> a.status == Pending
    requires forall a :: a in cancelled ==> a.status == Cancelled
    ensures WithStatus(Renumber(s) + cancelled, Pending) == Renumber(s)
    ensures WithStatus(Renumber(s) + cancelled, Cancelled) == cancelled
    ensures Ranked(Renumber(s) + cancelled) == Renumber(s)
    ensures Contiguous(Renumber(s) + cancelled)
  {
    var r := Renumber(s);
    RenumberedSplit(s, cancelled);
    assert PrioritySorted(r);
    SortSortedIsIdentity(r);
  }

  /** Filtering a renumbered pending list followed by cancelled records
      separates the two parts again. */
  lemma RenumberedSplit(s: seq<Application>, cancelled: seq<Application>)
    requires forall a :: a in s ==> a.status == Pending
    requires forall a :: a in cancelled ==> a.status == Cancelled
    ensures WithStatus(Renumber(s) + cancelled, Pending) == Renumber(s)
    ensures WithStatus(Renumber(s) + cancelled, Cancelled) == cancelled
  {
    var r := Renumber(s);
    RenumberKeepsPending(s);
    WithStatusConcat(r, cancelled, Pending);
    WithStatusConcat(r, cancelled, Cancelled);
    WithStatusUniform(r, Pending, Cancelled);
    WithStatusUniform(cancelled, Cancelled, Pending);
    assert r + [] == r && [] + cancelled == cancelled;
  }

  lemma RenumberKeepsPending(s: seq<Application>)
    requires forall a :: a in s ==> a.status == Pending
    ensures forall a :: a in Renumber(s) ==> a.status == Pending
  {
    var r := Renumber(s);
    forall a | a in r ensures a.status == Pending {
      var i :| 0 <= i < |r| && r[i] == a;
      assert s[i] in s;
    }
  }

  /** When the caller passes pending records only (the drag-and-drop view
      passes a permutation of the ranking), the new ranking is exactly the
      caller's order with priorities 1..N, and the cancelled records are kept. */
  lemma ReorderRanksInGivenOrder(apps: seq<Application>, reordered: seq<Application>)
    requires forall a :: a in reordered ==> a.status == Pending
    ensures Ranked(Reordered(apps, reordered)) == Renumber(reordered)
    ensures forall i :: 0 <= i < |reordered| ==> Ranked(Reordered(apps, reordered))[i].priority == i + 1
    ensures WithStatus(Reordered(apps, reordered), Cancelled) == WithStatus(apps, Cancelled)
    ensures Contiguous(Reordered(apps, reordered))
  {
    RenumberedPendingRanking(reordered, WithStatus(apps, Cancelled));
  }

  /** Every pending record after a reorder is one of the caller's records,
      renumbered: pending records the caller left out are dropped. */
  lemma ReorderDropsUnlisted(apps: seq<Application>, reordered: seq<Application>)
    ensures forall a :: a in Reordered(apps, reordered) && a.status == Pending ==>
      exists i :: 0 <= i < |reordered| && a == reordered[i].(priority := i + 1)
  {
    var r := Reordered(apps, reordered);
    forall a | a in r && a.status == Pending
      ensures exists i :: 0 <= i < |reordered| && a == reordered[i].(priority := i + 1)
    {
      var k :| 0 <= k < |r| && r[k] == a;
      assert k < |reordered|;
    }
  }

  /** Reordering always leaves positive, pairwise different pending priorities. */
  lemma ReorderKeepsDistinctRanks(apps: seq<Application>, reordered: seq<Application>)
    ensures DistinctRanks(Reordered(apps, reordered))
  {
    var rn := Renumber(reordered);
    var c := WithStatus(apps, Cancelled);
    WithStatusConcat(rn, c, Pending);
    WithStatusUniform(c, Cancelled, Pending);
    assert rn + c == Reordered(apps, reordered);
    assert WithStatus(rn + c, Pending) == WithStatus(rn, Pending) + [];
    RenumberedDistinct(rn);
    WithStatusSubsequence(rn, Pending);
    SubsequenceKeepsDistinctRanks(WithStatus(rn, Pending), rn);
  }

  lemma RenumberedDistinct(rn: seq<Application>)
    requires forall i :: 0 <= i < |rn| ==> rn[i].priority == i + 1
    ensures forall i :: 0 <= i < |rn| ==> 1 <= rn[i].priority
    ensures forall i, j :: 0 <= i < j < |rn| ==> rn[i].priority != rn[j].priority
  {
  }

  // ---------------------------------------------------------------------------
  // moveApplicationUp / moveApplicationDown
  // ---------------------------------------------------------------------------

  /** `findIndex(app => app.id === id)`: the first index holding `id`, or -1. */
  function IndexOfId(s: seq<Application>, id: string): (k: int)
    ensures -1 <= k < |s|
    ensures 0 <= k ==> s[k].id == id && forall j :: 0 <= j < k ==> s[j].id != id
    ensures k == -1 ==> forall j :: 0 <= j < |s| ==> s[j].id != id
    decreases |s|
  {
    if s == [] then -1
    else if s[0].id == id then 0
    else
      var k := IndexOfId(s[1..], id);
      assert forall j :: 1 <= j < |s| ==> s[j] == s[1..][j - 1];
      if k == -1 then -1 else k + 1
  }

  /** Loop form of `findIndex`, as the move operations run it. */
  method FindIndex(s: seq<Application>, id: string) returns (k: int)
    ensures k == IndexOfId(s, id)
  {
    k := 0;
    while k < |s| && s[k].id != id
      invariant 0 <= k <= |s|
      invariant forall j :: 0 <= j < k ==> s[j].id != id
    {
      k := k + 1;
    }
    if k == |s| {
      k := -1;
    }
  }

  /** The list with the records at `i` and `i + 1` exchanged. */
  function SwapAdjacent(s: seq<Application>, i: int): (r: seq<Application>)
    requires 0 <= i < |s| - 1
    ensures |r| == |s| && r[i] == s[i + 1] && r[i + 1] == s[i]
    ensures forall j :: 0 <= j < |s| && j != i && j != i + 1 ==> r[j] == s[j]
    ensures multiset(r) == multiset(s)
  {
    s[i := s[i + 1]][i + 1 := s[i]]
  }

  /** The destructuring swap of the move operations: exchanges slots `i` and
      `i + 1` of a fresh array copy of `s`. */
  method SwapOnCopy(s: seq<Application>, i: int) returns (r: seq<Application>)
    requires 0 <= i < |s| - 1
    ensures r == SwapAdjacent(s, i)
  {
    var slots := new Application[|s|](j requires 0 <= j < |s| => s[j]);
    slots[i], slots[i + 1] := slots[i + 1], slots[i];
    r := slots[..];
  }

  /** The list `moveApplicationUp(id)` stores. */
  function MovedUp(apps: seq<Application>, id: string): seq<Application>
  {
    var ranked := Ranked(apps);
    var k := IndexOfId(ranked, id);
    if k <= 0 then apps
    else Renumber(SwapAdjacent(ranked, k - 1)) + WithStatus(apps, Cancelled)
  }

  /** The list `moveApplicationDown(id)` stores. */
  function MovedDown(apps: seq<Application>, id: string): seq<Application>
  {
    var ranked := Ranked(apps);
    var k := IndexOfId(ranked, id);
    if k < 0 || k >= |ranked| - 1 then apps
    else Renumber(SwapAdjacent(ranked, k)) + WithStatus(apps, Cancelled)
  }

  /** Moving up changes nothing when the id is not pending, or when the first
      record of the ranking already has it. */
  lemma MoveUpNoOp(apps: seq<Application>, id: string)
    requires (forall a :: a in apps && a.status == Pending ==> a.id != id)
          || (Ranked(apps) != [] && Ranked(apps)[0].id == id)
    ensures MovedUp(apps, id) == apps
  {
    var ranked := Ranked(apps);
    if forall a :: a in apps && a.status == Pending ==> a.id != id {
      assert forall j :: 0 <= j < |ranked| ==> ranked[j] in ranked;
    }
  }

  /** Moving down changes nothing when the id is not pending, or when the last
      record of the ranking already has it. */
  lemma MoveDownNoOp(apps: seq<Application>, id: string)
    requires (forall a :: a in apps && a.status == Pending ==> a.id != id)
          || (Ranked(apps) != [] && Ranked(apps)[|Ranked(apps)| - 1].id == id
              && forall j :: 0 <= j < |Ranked(apps)| - 1 ==> Ranked(apps)[j].id != id)
    ensures MovedDown(apps, id) == apps
  {
    var ranked := Ranked(apps);
    if forall a :: a in apps && a.status == Pending ==> a.id != id {
      assert forall j :: 0 <= j < |ranked| ==> ranked[j] in ranked;
    }
  }

  /** A move that applies swaps the target with the record ranked just above
      it; the new ranking is the old one with that single adjacent exchange,
      renumbered 1..N; the cancelled records are appended unchanged. */
  lemma MoveUpSwapsWithPredecessor(apps: seq<Application>, id: string)
    requires IndexOfId(Ranked(apps), id) > 0
    ensures var k := IndexOfId(Ranked(apps), id);
      && Ranked(MovedUp(apps, id)) == Renumber(SwapAdjacent(Ranked(apps), k - 1))
      && Ranked(MovedUp(apps, id))[k - 1].id == id
      && Ranked(MovedUp(apps, id))[k].id == Ranked(apps)[k - 1].id
      && WithStatus(MovedUp(apps, id), Cancelled) == WithStatus(apps, Cancelled)
      && Contiguous(MovedUp(apps, id))
  {
    var ranked := Ranked(apps);
    var k := IndexOfId(ranked, id);
    var swapped := SwapAdjacent(ranked, k - 1);
    assert forall a :: a in swapped ==> a in multiset(ranked);
    RenumberedPendingRanking(swapped, WithStatus(apps, Cancelled));
  }

  /** The mirror image of MoveUpSwapsWithPredecessor for moving down. */
  lemma MoveDownSwapsWithSuccessor(apps: seq<Application>, id: string)
    requires 0 <= IndexOfId(Ranked(apps), id) < |Ranked(apps)| - 1
    ensures var k := IndexOfId(Ranked(apps), id);
      && Ranked(MovedDown(apps, id)) == Renumber(SwapAdjacent(Ranked(apps), k))
      && Ranked(MovedDown(apps, id))[k + 1].id == id
      && Ranked(MovedDown(apps, id))[k].id == Ranked(apps)[k + 1].id
      && WithStatus(MovedDown(apps, id), Cancelled) == WithStatus(apps, Cancelled)
      && Contiguous(MovedDown(apps, id))
  {
    var ranked := Ranked(apps);
    var k := IndexOfId(ranked, id);
    var swapped := SwapAdjacent(ranked, k);
    assert forall a :: a in swapped ==> a in multiset(ranked);
    RenumberedPendingRanking(swapped, WithStatus(apps, Cancelled));
  }

  lemma ContiguousIsDistinct(apps: seq<Application>)
    requires Contiguous(apps)
    ensures DistinctRanks(apps)
  {
  }

  /** A move leaves the pending priorities positive and pairwise different:
      unchanged when it does not apply, 1..N when it does. */
  lemma MoveUpKeepsDistinctRanks(apps: seq<Application>, id: string)
    ensures DistinctRanks(apps) ==> DistinctRanks(MovedUp(apps, id))
  {
    if IndexOfId(Ranked(apps), id) > 0 {
      MoveUpSwapsWithPredecessor(apps, id);
      ContiguousIsDistinct(MovedUp(apps, id));
    }
  }

  lemma MoveDownKeepsDistinctRanks(apps: seq<Application>, id: string)
    ensures DistinctRanks(apps) ==> DistinctRanks(MovedDown(apps, id))
  {
    if 0 <= IndexOfId(Ranked(apps), id) < |Ranked(apps)| - 1 {
      MoveDownSwapsWithSuccessor(apps, id);
      ContiguousIsDistinct(MovedDown(apps, id));
    }
  }

  // ---------------------------------------------------------------------------
  // Unique ids among the pending records
  // ---------------------------------------------------------------------------

  /** No two records of `s` share an id. */
  predicate UniqueIds(s: seq<Application>) {
    forall j, k :: 0 <= j < k < |s| ==> s[j].id != s[k].id
  }

  /** No two pending records share an id, so an id names one card of the ranking. */
  ghost predicate UniquePendingIds(apps: seq<Application>) {
    UniqueIds(Ranked(apps))
  }

  /** Deleting records keeps the ids unique. */
  lemma {:induction false} UniqueIdsSubsequence(q: seq<Application>, p: seq<Application>)
    requires Subsequence(q, p) && UniqueIds(p)
    ensures UniqueIds(q)
    decreases |p|
  {
    if q != [] {
      if q[0] == p[0] && Subsequence(q[1..], p[1..]) {
        assert UniqueIds(p[1..]) by {
          forall j, k | 0 <= j < k < |p[1..]| ensures p[1..][j].id != p[1..][k].id {
            assert p[1..][j] == p[j + 1] && p[1..][k] == p[k + 1];
          }
        }
        UniqueIdsSubsequence(q[1..], p[1..]);
        forall k | 0 < k < |q| ensures q[0].id != q[k].id {
          SubsequenceElements(q[1..], p[1..], q[k]);
          var m :| 0 <= m < |p[1..]| && p[1..][m] == q[k];
          assert p[m + 1] == q[k];
        }
      } else {
        assert UniqueIds(p[1..]) by {
          forall j, k | 0 <= j < k < |p[1..]| ensures p[1..][j].id != p[1..][k].id {
            assert p[1..][j] == p[j + 1] && p[1..][k] == p[k + 1];
          }
        }
        UniqueIdsSubsequence(q, p[1..]);
      }
    }
  }

  /** Reordering the records keeps the ids unique. */
  lemma UniqueIdsPermutation(s: seq<Application>, t: seq<Application>)
    requires multiset(s) == multiset(t) && UniqueIds(s)
    ensures UniqueIds(t)
  {
    NoDuplicatesPermutation(s, t);
    forall j, k | 0 <= j < k < |t| ensures t[j].id != t[k].id {
      assert t[j] in multiset(s) && t[k] in multiset(s);
      var a :| 0 <= a < |s| && s[a] == t[j];
      var b :| 0 <= b < |s| && s[b] == t[k];
      assert a != b;
    }
  }

  /** Renumbering leaves every id where it was. */
  lemma UniqueIdsRenumber(s: seq<Application>)
    requires UniqueIds(s)
    ensures UniqueIds(Renumber(s))
  {
    var r := Renumber(s);
    forall j, k | 0 <= j < k < |r| ensures r[j].id != r[k].id {
      assert r[j].id == s[j].id && r[k].id == s[k].id;
    }
  }

  /** The ranking and the pending records in list order hold the same records. */
  lemma UniquePendingInListOrder(apps: seq<Application>)
    ensures UniquePendingIds(apps) <==> UniqueIds(WithStatus(apps, Pending))
  {
    var p := WithStatus(apps, Pending);
    if UniqueIds(p) {
      UniqueIdsPermutation(p, Ranked(apps));
    }
    if UniquePendingIds(apps) {
      UniqueIdsPermutation(Ranked(apps), p);
    }
  }

  /** Adding a record under an id no record uses keeps pending ids unique. */
  lemma AddKeepsUniqueIds(apps: seq<Application>, d: Draft, id: string, at: Timestamp)
    requires UniquePendingIds(apps)
    requires forall a :: a in apps ==> a.id != id
    ensures UniquePendingIds(apps + [NewApplication(d, id, at, NextPriority(apps))])
  {
    var x := NewApplication(d, id, at, NextPriority(apps));
    var p := WithStatus(apps, Pending);
    AppendPending(apps, x);
    UniquePendingInListOrder(apps);
    UniqueIdsAppend(p, x);
    UniquePendingInListOrder(apps + [x]);
  }

  /** A record whose id no record of `p` has can be appended to `p`. */
  lemma UniqueIdsAppend(p: seq<Application>, x: Application)
    requires UniqueIds(p) && forall a :: a in p ==> a.id != x.id
    ensures UniqueIds(p + [x])
  {
    var q := p + [x];
    forall j, k | 0 <= j < k < |q| ensures q[j].id != q[k].id {
      assert q[j] == p[j] && q[j] in p;
      if k < |p| {
        assert q[k] == p[k];
      }
    }
  }

  /** A cancel only takes records out of the ranking. */
  lemma CancelKeepsUniqueIds(apps: seq<Application>, id: string)
    requires UniquePendingIds(apps)
    ensures UniquePendingIds(CancelMatching(apps, id))
  {
    var p := WithStatus(apps, Pending);
    CancelPending(apps, id);
    UniquePendingInListOrder(apps);
    UniqueIdsSubsequence(Without(p, id), p);
    UniquePendingInListOrder(CancelMatching(apps, id));
  }

  /** Storing a permutation of the ranking, renumbered, followed by the
      cancelled records keeps the pending ids unique. */
  lemma PermutedRankingKeepsUniqueIds(apps: seq<Application>, order: seq<Application>)
    requires UniquePendingIds(apps)
    requires multiset(order) == multiset(Ranked(apps))
    ensures UniquePendingIds(Renumber(order) + WithStatus(apps, Cancelled))
  {
    assert forall a :: a in order ==> a in multiset(Ranked(apps));
    RenumberedPendingRanking(order, WithStatus(apps, Cancelled));
    UniqueIdsPermutation(Ranked(apps), order);
    UniqueIdsRenumber(order);
  }

  /** A move permutes the ranking and renumbers it. */
  lemma MoveUpKeepsUniqueIds(apps: seq<Application>, id: string)
    requires UniquePendingIds(apps)
    ensures UniquePendingIds(MovedUp(apps, id))
  {
    var k := IndexOfId(Ranked(apps), id);
    if k > 0 {
      PermutedRankingKeepsUniqueIds(apps, SwapAdjacent(Ranked(apps), k - 1));
    }
  }

  lemma MoveDownKeepsUniqueIds(apps: seq<Application>, id: string)
    requires UniquePendingIds(apps)
    ensures UniquePendingIds(MovedDown(apps, id))
  {
    var k := IndexOfId(Ranked(apps), id);
    if 0 <= k < |Ranked(apps)| - 1 {
      PermutedRankingKeepsUniqueIds(apps, SwapAdjacent(Ranked(apps), k));
    }
  }

  // ---------------------------------------------------------------------------
  // The store
  // ---------------------------------------------------------------------------

  /** The session's application list; each operation replaces it. */
  class ApplicationStore {
    var applications: seq<Application>

    ghost predicate Valid()
      reads this
    {
      DistinctRanks(applications)
    }

    constructor ()
      ensures applications == [] && Valid()
    {
      applications := [];
    }

    /** `addApplication`: the id and the submission time are supplied by the
        caller; the id must not be in use. */
    method Add(draft: Draft, id: string, submittedAt: Timestamp)
      requires forall a :: a in applications ==> a.id != id
      modifies this
      ensures applications == old(applications) + [NewApplication(draft, id, submittedAt, NextPriority(old(applications)))]
      ensures old(Valid()) ==> Valid()
    {
      ghost var before := applications;
      var pending := WithStatus(applications, Pending);
      var next := if |pending| > 0 then MaxPriority(pending) + 1 else 1;
      assert next == NextPriority(before);
      applications := applications + [NewApplication(draft, id, submittedAt, next)];
      if DistinctRanks(before) {
        AddKeepsDistinctRanks(before, draft, id, submittedAt);
      }
    }

    /** `cancelApplication`: soft-cancels every record with the id. */
    method Cancel(id: string)
      modifies this
      ensures |applications| == |old(applications)|
      ensures forall i :: 0 <= i < |applications| ==>
        applications[i] == if old(applications)[i].id == id
                           then old(applications)[i].(status := Cancelled)
                           else old(applications)[i]
      ensures old(Valid()) ==> Valid()
      ensures old(UniquePendingIds(applications)) ==> UniquePendingIds(applications)
    {
      if old(Valid()) {
        CancelKeepsDistinctRanks(applications, id);
      }
      if old(UniquePendingIds(applications)) {
        CancelKeepsUniqueIds(applications, id);
      }
      applications := CancelMatching(applications, id);
    }

    /** `reorderApplications`. */
    method Reorder(reordered: seq<Application>)
      modifies this
      ensures applications == Reordered(old(applications), reordered)
      ensures Valid()
    {
      ReorderKeepsDistinctRanks(applications, reordered);
      applications := Renumber(reordered) + WithStatus(applications, Cancelled);
    }

    /** `moveApplicationUp`. */
    method MoveUp(id: string)
      modifies this
      ensures applications == MovedUp(old(applications), id)
      ensures old(Valid()) ==> Valid()
      ensures old(UniquePendingIds(applications)) ==> UniquePendingIds(applications)
    {
      ghost var before := applications;
      var ranked := Ranked(applications);
      var k := FindIndex(ranked, id);
      if k <= 0 {
        return;
      }
      var swapped := SwapOnCopy(ranked, k - 1);
      applications := Renumber(swapped) + WithStatus(applications, Cancelled);
      assert applications == MovedUp(before, id);
      MoveUpKeepsDistinctRanks(before, id);
      if UniquePendingIds(before) {
        MoveUpKeepsUniqueIds(before, id);
      }
    }

    /** `moveApplicationDown`. */
    method MoveDown(id: string)
      modifies this
      ensures applications == MovedDown(old(applications), id)
      ensures old(Valid()) ==> Valid()
      ensures old(UniquePendingIds(applications)) ==> UniquePendingIds(applications)
    {
      ghost var before := applications;
      var ranked := Ranked(applications);
      var k := FindIndex(ranked, id);
      if k < 0 || k >= |ranked| - 1 {
        return;
      }
      var swapped := SwapOnCopy(ranked, k);
      applications := Renumber(swapped) + WithStatus(applications, Cancelled);
      assert applications == MovedDown(before, id);
      MoveDownKeepsDistinctRanks(before, id);
      if UniquePendingIds(before) {
        MoveDownKeepsUniqueIds(before, id);
      }
    }
  }
}
