/**
 * The catalog and application records of the teaching-assistant ("ayudantia")
 * portal: positions that students can apply to and the applications they submit.
 */
module PositionTypes {

  datatype Option<+T> = None | Some(value: T)

  /** The three kinds of assistantship a position may offer. */
  datatype Category = Catedra | Corrector | Laboratorio

  /** The two course sections a student may apply for. */
  datatype Section = S200 | S201

  datatype PositionStatus = Open | Closed

  /** An application starts pending and can only be soft-cancelled. */
  datatype ApplicationStatus = Pending | Cancelled

  /** Submission time: an opaque value supplied by the caller. */
  type Timestamp = int

  /** The string a category takes in the user interface and in filters. */
  function CategoryName(c: Category): (name: string)
    ensures name != "" && name != "all"
  {
    match c
    case Catedra => "catedra"
    case Corrector => "corrector"
    case Laboratorio => "laboratorio"
  }

  function StatusName(s: PositionStatus): (name: string)
    ensures name != "all"
  {
    match s
    case Open => "open"
    case Closed => "closed"
  }

  datatype Position = Position(
    id: string,
    title: string,
    department: string,
    categories: Option<seq<Category>>,  // absent when the position has no categories
    status: PositionStatus,
    description: string,
    requirements: seq<string>)
  {
    /** The category list is present and non-empty. */
    predicate HasCategories() {
      categories.Some? && |categories.value| > 0
    }
  }

  /** What the submission form hands to the store: an application without the
      fields the store fills in (id, submission time, status and priority). */
  datatype Draft = Draft(
    positionId: string,
    positionTitle: string,
    department: string,
    category: Option<Category>,
    section: Section,
    reason: string)

  datatype Application = Application(
    id: string,
    positionId: string,
    positionTitle: string,
    department: string,
    category: Option<Category>,
    section: Section,
    reason: string,
    submittedAt: Timestamp,
    status: ApplicationStatus,
    priority: int)
}
