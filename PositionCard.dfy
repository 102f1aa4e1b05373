/**
 * The card of one position in the catalog: whether the student has applied to
 * every category of the position, whether the apply button is enabled and
 * which label it shows.
 */
module PositionCard {
  import opened PositionTypes
  import opened Sequences
  import opened Ranking
  import opened ApplicationModal

  /** `isFullyApplied`: with categories, as many applied categories as the
      position lists; without, any pending application to the position. */
  predicate IsFullyApplied(p: Position, apps: seq<Application>) {
    if p.HasCategories() then |AppliedCategories(apps, p.id)| == |p.categories.value|
    else HasAppliedToPosition(apps, p.id, "")
  }

  /** `canApply`. */
  predicate CanApply(p: Position, apps: seq<Application>) {
    p.status == Open && !IsFullyApplied(p, apps)
  }

  /** The text of the card's button. */
  function ButtonLabel(p: Position, apps: seq<Application>): string {
    if p.status != Open then "No Disponible"
    else if IsFullyApplied(p, apps) then "Ya Postulado"
    else "Postular"
  }

  /** A closed position can never be applied to, and its button says so. */
  lemma ClosedNeverApplicable(p: Position, apps: seq<Application>)
    requires p.status == Closed
    ensures !CanApply(p, apps) && ButtonLabel(p, apps) == "No Disponible"
  {
  }

  /** The button is enabled exactly when it reads "Postular"; an open position
      that cannot be applied to reads "Ya Postulado". */
  lemma LabelMatchesButton(p: Position, apps: seq<Application>)
    ensures CanApply(p, apps) <==> ButtonLabel(p, apps) == "Postular"
    ensures p.status == Open && !CanApply(p, apps) ==> ButtonLabel(p, apps) == "Ya Postulado"
  {
  }

  /** Without categories, the position is fully applied exactly when a pending
      application to it exists, whatever its category field holds. */
  lemma FullyAppliedWithoutCategories(p: Position, apps: seq<Application>)
    requires !p.HasCategories()
    ensures IsFullyApplied(p, apps) <==> exists a :: a in apps && a.positionId == p.id && a.status == Pending
  {
  }

  /** The elements of a duplicate-free sequence form a set of the same size. */
  lemma {:induction false} DistinctCard(s: seq<Category>)
    requires NoDuplicates(s)
    ensures |(set c | c in s)| == |s|
    decreases |s|
  {
    if s != [] {
      assert NoDuplicates(s[1..]) by {
        forall i, j | 0 <= i < j < |s[1..]| ensures s[1..][i] != s[1..][j] {
          assert s[1..][i] == s[i + 1] && s[1..][j] == s[j + 1];
        }
      }
      DistinctCard(s[1..]);
      assert s[0] !in s[1..] by {
        forall j | 0 <= j < |s[1..]| ensures s[1..][j] != s[0] {
          assert s[1..][j] == s[j + 1];
        }
      }
      assert (set c | c in s) == (set c | c in s[1..]) + {s[0]};
    }
  }

  /** A subset as large as the whole set is the whole set. */
  lemma {:induction false} SubsetOfSameSize(a: set<Category>, b: set<Category>)
    requires a <= b && |a| == |b|
    ensures a == b
    decreases |b|
  {
    if a != b {
      var x :| x in b && x !in a;
      assert a <= b - {x};
      SubsetSize(a, b - {x});
    }
  }

  lemma {:induction false} SubsetSize(a: set<Category>, b: set<Category>)
    requires a <= b
    ensures |a| <= |b|
    decreases |b|
  {
    if a != {} {
      var x :| x in a;
      SubsetSize(a - {x}, b - {x});
    }
  }

  /** A duplicate-free list inside another duplicate-free list is as long as
      it exactly when it holds every element of it. */
  lemma SameLengthIffCovers(cats: seq<Category>, applied: seq<Category>)
    requires NoDuplicates(cats) && NoDuplicates(applied)
    requires forall c :: c in applied ==> c in cats
    ensures |applied| == |cats| <==> forall c :: c in cats ==> c in applied
  {
    DistinctCard(cats);
    DistinctCard(applied);
    var A := set c | c in applied;
    var C := set c | c in cats;
    assert A <= C;
    if |applied| == |cats| {
      SubsetOfSameSize(A, C);
      forall c | c in cats ensures c in applied {
        assert c in C;
      }
    }
    if forall c :: c in cats ==> c in applied {
      assert C <= A;
      SubsetSize(C, A);
      SubsetSize(A, C);
    }
  }

  /** Nothing is left unapplied exactly when every category is applied. */
  lemma {:induction false} UnappliedEmpty(cats: seq<Category>, applied: seq<Category>)
    ensures Unapplied(cats, applied) == [] <==> forall c :: c in cats ==> c in applied
  {
    var r := Unapplied(cats, applied);
    if r != [] {
      assert r[0] in r;
    }
  }

  /** When the applied categories of a position are consistent and its
      categories are listed once each, the card shows "fully applied" exactly
      when the form has no category left to offer. */
  lemma FullyAppliedIffNoneAvailable(p: Position, apps: seq<Application>)
    requires p.HasCategories() && NoDuplicates(p.categories.value)
    requires AppliedConsistent(apps, p)
    ensures IsFullyApplied(p, apps) <==> AvailableCategories(Some(p), apps) == []
  {
    var cats := p.categories.value;
    var applied := AppliedCategories(apps, p.id);
    SameLengthIffCovers(cats, applied);
    UnappliedEmpty(cats, applied);
  }

  /** The stale category of the form misleads the card: once Catedra has been
      submitted twice for p1, the card counts two applied categories and shows
      "Ya Postulado" although Corrector was never applied to. */
  lemma StaleCategoryMarksFullyApplied()
    ensures
      var p := Position("p1", "Calculo", "Matematica", Some([Catedra, Corrector]), Open, "", []);
      var a1 := Application("a1", "p1", "Calculo", "Matematica", Some(Catedra), S200, "x", 0, Pending, 1);
      var a2 := Application("a2", "p1", "Calculo", "Matematica", Some(Catedra), S200, "y", 1, Pending, 2);
      && ButtonLabel(p, [a1, a2]) == "Ya Postulado"
      && Corrector !in AppliedCategories([a1, a2], "p1")
  {
    var p := Position("p1", "Calculo", "Matematica", Some([Catedra, Corrector]), Open, "", []);
    var a1 := Application("a1", "p1", "Calculo", "Matematica", Some(Catedra), S200, "x", 0, Pending, 1);
    var a2 := Application("a2", "p1", "Calculo", "Matematica", Some(Catedra), S200, "y", 1, Pending, 2);
    var apps := [a1, a2];
    assert apps[1..] == [a2] && apps[1..][1..] == [];
    assert ActiveFor([], "p1") == [];
    assert ActiveFor([a2], "p1") == [a2];
    assert ActiveFor(apps, "p1") == [a1, a2];
    assert AppliedCategories(apps, "p1") == [Catedra, Catedra];
  }
}
