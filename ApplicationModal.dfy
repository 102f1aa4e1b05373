/**
 * The application form: it offers the categories of the chosen position that
 * the student has not applied to yet, runs its checks in order when the form
 * is submitted, hands a draft to the store and resets itself.
 */
module ApplicationModal {
  import opened PositionTypes
  import opened Sequences
  import opened Text
  import opened Ranking

  /** `cats.filter(cat => !applied.includes(cat))` */
  function Unapplied(cats: seq<Category>, applied: seq<Category>): (r: seq<Category>)
    ensures forall c :: c in r <==> c in cats && c !in applied
    ensures Subsequence(r, cats)
    decreases |cats|
  {
    if cats == [] then []
    else if cats[0] in applied then Unapplied(cats[1..], applied)
    else [cats[0]] + Unapplied(cats[1..], applied)
  }

  /** `availableCategories`: nothing without a position or when the position
      lists no categories; otherwise its categories that are not among the
      applied ones, in the position's order. */
  function AvailableCategories(position: Option<Position>, apps: seq<Application>): (r: seq<Category>)
    ensures position.None? || !position.value.HasCategories() ==> r == []
    ensures position.Some? && position.value.HasCategories() ==>
      && Subsequence(r, position.value.categories.value)
      && forall c :: c in r <==>
           c in position.value.categories.value && c !in AppliedCategories(apps, position.value.id)
  {
    if position.None? || !position.value.HasCategories() then []
    else Unapplied(position.value.categories.value, AppliedCategories(apps, position.value.id))
  }

  datatype SubmitOutcome =
    | NoPosition            // the form is not showing a position
    | EmptyReason           // "Por favor ingresa un motivo de postulación"
    | MissingCategory       // "Por favor selecciona una categoría"
    | AllCategoriesApplied  // "Ya has postulado a todas las categorías disponibles"
    | CategoryNotOffered    // the selected category is not one the form offers
    | Submitted(draft: Draft)

  /** The checks of `handleSubmit` as the program runs them, in order: each
      rejection happens exactly when its own condition holds and the earlier
      checks passed; otherwise the draft carries the trimmed reason, the
      selected section and the selected category, if any. */
  function SubmitCheck(position: Option<Position>, reason: string, category: Option<Category>,
                       section: Section, apps: seq<Application>): (r: SubmitOutcome)
    ensures r == NoPosition <==> position.None?
    ensures r == EmptyReason <==> position.Some? && Trim(reason) == ""
    ensures r == MissingCategory <==>
      position.Some? && Trim(reason) != "" && position.value.HasCategories() && category.None?
    ensures r == AllCategoriesApplied <==>
      && position.Some? && Trim(reason) != "" && position.value.HasCategories() && category.Some?
      && AvailableCategories(position, apps) == []
    ensures r != CategoryNotOffered
    ensures r.Submitted? ==>
      && Trim(reason) != ""
      && r.draft == Draft(position.value.id, position.value.title, position.value.department,
                          category, section, Trim(reason))
  {
    if position.None? then NoPosition
    else if Trim(reason) == "" then EmptyReason
    else if position.value.HasCategories() && category.None? then MissingCategory
    else if position.value.HasCategories() && |AvailableCategories(position, apps)| == 0 then AllCategoriesApplied
    else Submitted(Draft(position.value.id, position.value.title, position.value.department,
                         category, section, Trim(reason)))
  }

  /** The form keeps its selected category when it is closed without
      submitting, so a category picked for one position can still be selected
      when another position is opened. The checks of `handleSubmit` then let an
      already-applied category through: here Catedra is applied to p1 and is
      submitted again. */
  lemma StaleCategoryResubmitted()
    ensures
      var p := Position("p1", "Calculo", "Matematica", Some([Catedra, Corrector]), Open, "", []);
      var apps := [Application("a1", "p1", "Calculo", "Matematica", Some(Catedra), S200, "x", 0, Pending, 1)];
      var r := SubmitCheck(Some(p), "y", Some(Catedra), S200, apps);
      && r.Submitted?
      && r.draft.category == Some(Catedra)
      && Catedra in AppliedCategories(apps, "p1")
  {
    var p := Position("p1", "Calculo", "Matematica", Some([Catedra, Corrector]), Open, "", []);
    var apps := [Application("a1", "p1", "Calculo", "Matematica", Some(Catedra), S200, "x", 0, Pending, 1)];
    assert apps[0] in apps;
    assert Corrector in AvailableCategories(Some(p), apps);
    assert !IsWhitespace("y"[0]);
  }

  /** The submission checks with the selected category confined to what the
      form offers: a position with categories must get one of its available
      categories, and a position without categories gets none. */
  function GuardedSubmitCheck(position: Option<Position>, reason: string, category: Option<Category>,
                              section: Section, apps: seq<Application>): (r: SubmitOutcome)
    ensures !SubmitCheck(position, reason, category, section, apps).Submitted? ==>
      r == SubmitCheck(position, reason, category, section, apps)
    ensures r == CategoryNotOffered <==>
      && SubmitCheck(position, reason, category, section, apps).Submitted?
      && position.value.HasCategories()
      && category.value !in AvailableCategories(position, apps)
    ensures (SubmitCheck(position, reason, category, section, apps).Submitted? &&
             (position.value.HasCategories() ==> category.value in AvailableCategories(position, apps))) ==>
      && r.Submitted?
      && r.draft == SubmitCheck(position, reason, category, section, apps).draft.(
           category := if position.value.HasCategories() then category else None)
    ensures r.Submitted? ==>
      && position.Some?
      && r.draft.reason == Trim(reason) != ""
      && r.draft.section == section
      && r.draft.positionId == position.value.id
      && (position.value.HasCategories() ==>
            r.draft.category == category && category.Some?
            && category.value in AvailableCategories(position, apps))
      && (!position.value.HasCategories() ==> r.draft.category.None?)
  {
    match SubmitCheck(position, reason, category, section, apps)
    case Submitted(d) =>
      if position.value.HasCategories() then
        if category.value in AvailableCategories(position, apps) then Submitted(d) else CategoryNotOffered
      else Submitted(d.(category := None))
    case other => other
  }

  /** The applied categories of a position are pairwise different and all
      belong to the position. */
  ghost predicate AppliedConsistent(apps: seq<Application>, p: Position) {
    ConsistentCategories(AppliedCategories(apps, p.id), p)
  }

  ghost predicate ConsistentCategories(applied: seq<Category>, p: Position) {
    && NoDuplicates(applied)
    && (p.categories.Some? ==> forall c :: c in applied ==> c in p.categories.value)
    && (p.categories.None? ==> applied == [])
  }

  /** With the guarded checks, submitting keeps the applied categories of the
      position consistent: a category is never applied twice. */
  lemma GuardedSubmitKeepsConsistent(p: Position, reason: string, category: Option<Category>,
                                     section: Section, apps: seq<Application>, id: string, at: Timestamp)
    requires AppliedConsistent(apps, p)
    requires GuardedSubmitCheck(Some(p), reason, category, section, apps).Submitted?
    ensures AppliedConsistent(apps + [NewApplication(GuardedSubmitCheck(Some(p), reason, category, section, apps).draft,
                                                     id, at, NextPriority(apps))], p)
  {
    var d := GuardedSubmitCheck(Some(p), reason, category, section, apps).draft;
    var x := NewApplication(d, id, at, NextPriority(apps));
    AppliedCategoriesAppend(apps, x, p.id);
    var applied := AppliedCategories(apps, p.id);
    if d.category.Some? {
      ExtendConsistent(applied, d.category.value, p);
    } else {
      assert applied + [] == applied;
    }
  }

  /** A category of the position that is not yet applied can be added. */
  lemma ExtendConsistent(applied: seq<Category>, c: Category, p: Position)
    requires ConsistentCategories(applied, p)
    requires p.categories.Some? && c in p.categories.value && c !in applied
    ensures ConsistentCategories(applied + [c], p)
  {
    var r := applied + [c];
    forall i, j | 0 <= i < j < |r| ensures r[i] != r[j] {
      assert r[i] == applied[i];
      if j < |applied| {
        assert r[j] == applied[j];
      }
    }
  }

  /** Appending a record adds its category, if it is pending, for this
      position and has one, at the end of the applied categories. */
  lemma AppliedCategoriesAppend(apps: seq<Application>, x: Application, positionId: string)
    ensures AppliedCategories(apps + [x], positionId) ==
      AppliedCategories(apps, positionId) +
      (if x.positionId == positionId && x.status == Pending && x.category.Some? then [x.category.value] else [])
  {
    ActiveForAppend(apps, x, positionId);
    var active := ActiveFor(apps, positionId);
    if x.positionId == positionId && x.status == Pending {
      DefinedCategoriesAppend(active, x);
    } else {
      assert active + [] == active;
    }
  }

  lemma {:induction false} ActiveForAppend(apps: seq<Application>, x: Application, positionId: string)
    ensures ActiveFor(apps + [x], positionId) ==
      ActiveFor(apps, positionId) + (if x.positionId == positionId && x.status == Pending then [x] else [])
    decreases |apps|
  {
    if apps == [] {
      assert apps + [x] == [x];
      assert [x][1..] == [];
    } else {
      assert (apps + [x])[0] == apps[0] && (apps + [x])[1..] == apps[1..] + [x];
      ActiveForAppend(apps[1..], x, positionId);
    }
  }

  lemma {:induction false} DefinedCategoriesAppend(s: seq<Application>, x: Application)
    ensures DefinedCategories(s + [x]) ==
      DefinedCategories(s) + (if x.category.Some? then [x.category.value] else [])
    decreases |s|
  {
    if s == [] {
      assert s + [x] == [x];
      assert [x][1..] == [];
    } else {
      assert (s + [x])[0] == s[0] && (s + [x])[1..] == s[1..] + [x];
      DefinedCategoriesAppend(s[1..], x);
    }
  }

  /** The form's state: reason text, selected category ("" is None) and section. */
  class ApplicationForm {
    var reason: string
    var category: Option<Category>
    var section: Section

    constructor ()
      ensures reason == "" && category == None && section == S200
    {
      reason, category, section := "", None, S200;
    }

    /** `handleSubmit`, with the category guard of GuardedSubmitCheck. On
        success the store receives the draft and the form is reset; on a
        rejection nothing changes. */
    method HandleSubmit(store: ApplicationStore, position: Option<Position>, id: string, now: Timestamp)
      returns (outcome: SubmitOutcome)
      requires forall a :: a in store.applications ==> a.id != id
      modifies this, store
      ensures outcome == GuardedSubmitCheck(position, old(reason), old(category), old(section), old(store.applications))
      ensures !outcome.Submitted? ==>
        && store.applications == old(store.applications)
        && reason == old(reason) && category == old(category) && section == old(section)
      ensures outcome.Submitted? ==>
        && store.applications == old(store.applications) +
             [NewApplication(outcome.draft, id, now, NextPriority(old(store.applications)))]
        && reason == "" && category == None && section == S200
      ensures old(DistinctRanks(store.applications)) ==> DistinctRanks(store.applications)
    {
      outcome := GuardedSubmitCheck(position, reason, category, section, store.applications);
      if outcome.Submitted? {
        store.Add(outcome.draft, id, now);
        reason, category, section := "", None, S200;
      }
    }
  }
}
