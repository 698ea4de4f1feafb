/**
 * The data model of the task list: the closed `Category` enum and the
 * `Task` record (types.ts).
 */
module Types {
  import opened Wrappers

  /** The five task categories, a closed string enum. */
  datatype Category = Business | School | Personal | Work | Health

  /** The members in declaration order, the order in which the enum is iterated. */
  const AllCategories: seq<Category> := [Business, School, Personal, Work, Health]

  /** The string value of an enum member; every member's value is its own name. */
  function Value(c: Category): (v: string)
    ensures v in {"Business", "School", "Personal", "Work", "Health"}
    ensures v != ""
  {
    match c
    case Business => "Business"
    case School => "School"
    case Personal => "Personal"
    case Work => "Work"
    case Health => "Health"
  }

  /** The enum member whose string value is `s`, if there is one. */
  function Parse(s: string): (r: Option<Category>)
    ensures r.Some? ==> Value(r.value) == s
  {
    if s == "Business" then Some(Business)
    else if s == "School" then Some(School)
    else if s == "Personal" then Some(Personal)
    else if s == "Work" then Some(Work)
    else if s == "Health" then Some(Health)
    else None
  }

  /** The string values of the five members. */
  function CategoryValues(): (vs: set<string>)
    ensures forall c: Category :: Value(c) in vs
    ensures forall v :: v in vs ==> Parse(v).Some?
    ensures |vs| == 5
  {
    {"Business", "School", "Personal", "Work", "Health"}
  }

  /** Parsing inverts `Value`: the enum and its string values are in one-to-one correspondence. */
  lemma ParseValue(c: Category)
    ensures Parse(Value(c)) == Some(c)
  {
  }

  /** Two categories are equal exactly when their string values are. */
  lemma ValueInjective(a: Category, b: Category)
    ensures Value(a) == Value(b) <==> a == b
  {
    ParseValue(a);
    ParseValue(b);
  }

  /** `AllCategories` lists every member exactly once. */
  lemma AllCategoriesEnumerates()
    ensures |AllCategories| == 5
    ensures forall c: Category :: c in AllCategories
    ensures forall i, j :: 0 <= i < j < |AllCategories| ==> AllCategories[i] != AllCategories[j]
  {
    forall c: Category ensures c in AllCategories {
      match c
      case Business => assert AllCategories[0] == c;
      case School => assert AllCategories[1] == c;
      case Personal => assert AllCategories[2] == c;
      case Work => assert AllCategories[3] == c;
      case Health => assert AllCategories[4] == c;
    }
  }

  /**
   * A task. `category` holds the enum's string value: the list is read back
   * from storage without type checks, so a stored task may carry any string.
   */
  datatype Task = Task(id: string, title: string, category: string, completed: bool, createdAt: int)

  /** The task's category is one of the five enum values. */
  predicate WellTyped(t: Task)
  {
    t.category in CategoryValues()
  }
}
