/**
 * Rows of the four database tables (users, subjects, study_plans,
 * quiz_attempts) and the properties of whole tables that the handlers keep.
 * Every id is an AUTO_INCREMENT key.
 */
module Tables {
  import opened Wrappers
  import opened Text
  import opened Http

  datatype User = User(id: nat, name: string, email: string, password: string)

  /** `level` is NULL when the older add handler stored no level. */
  datatype Subject = Subject(
    id: nat, userId: nat, name: string, level: Option<string>, updatedAt: int, lastStudied: Option<int>)

  /**
   * `summary` is what its TEXT column holds (a string or null); `roadmap` and
   * `quizQuestions` are kept as the decoded values the JSON text in the table
   * stands for.
   */
  datatype Plan = Plan(id: nat, subjectId: nat, userId: nat, summary: Json, roadmap: Json, quizQuestions: Json)

  /** `planId`, `score` and `total` are the integers the INT columns hold after MySQL converts the submitted values. */
  datatype Attempt = Attempt(id: nat, userId: nat, planId: int, answers: Json, score: int, total: int)

  // -----------------------------------------------------------------------
  // What the database driver makes of a value handed to it unconverted
  // -----------------------------------------------------------------------

  /** The driver converts null, booleans, numbers and strings; an array or an object makes the query fail. */
  predicate DriverAccepts(v: Json) {
    !(v.JArr? || v.JObj?)
  }

  /** A value a TEXT column can give back: a string or null. */
  predicate IsColumnText(v: Json) {
    v.JStr? || v.JNull?
  }

  function Digit(d: nat): (c: char)
    requires d < 10
    ensures IsAsciiDigit(c) && c as int - '0' as int == d
  {
    ('0' as int + d) as char
  }

  /** `str(n)` for a natural number: its decimal digits. */
  function NatText(n: nat): (t: string)
    ensures t != [] && All(t, IsAsciiDigit)
  {
    if n < 10 then [Digit(n)]
    else
      var t := NatText(n / 10) + [Digit(n % 10)];
      assert forall i :: 0 <= i < |t| - 1 ==> t[i] == NatText(n / 10)[i];
      t
  }

  /** Reading the digits back gives the number. */
  lemma {:induction false} NatTextValue(n: nat)
    ensures IsDecimal(NatText(n)) && DecimalValue(NatText(n)) == n
  {
    var t := NatText(n);
    if n < 10 {
      assert t[..0] == [];
    } else {
      NatTextValue(n / 10);
      assert t[..|t| - 1] == NatText(n / 10);
    }
  }

  /**
   * What a TEXT column holds once the driver has converted a value: a string
   * as itself, null as NULL, a number as its decimal text, a boolean as "1"
   * or "0". None when the driver refuses the value.
   */
  function ColumnText(v: Json): (r: Option<Json>)
    ensures r.Some? <==> DriverAccepts(v)
    ensures r.Some? ==> IsColumnText(r.value)
    ensures IsColumnText(v) ==> r == Some(v)
    ensures v.JBool? ==> r == Some(JStr(if v.b then "1" else "0"))
    ensures v.JNum? && v.n < 0 ==> r == Some(JStr("-" + NatText(-v.n)))
    ensures v.JNum? && v.n >= 0 ==> r == Some(JStr(NatText(v.n)))
  {
    match v
    case JNull => Some(JNull)
    case JBool(b) => Some(JStr(if b then "1" else "0"))
    case JNum(n) => Some(JStr(if n < 0 then "-" + NatText(-n) else NatText(n)))
    case JStr(_) => Some(v)
    case _ => None
  }

  /** Storing what a TEXT column gave back stores it unchanged. */
  lemma ColumnTextIdempotent(v: Json)
    requires DriverAccepts(v)
    ensures ColumnText(ColumnText(v).value) == ColumnText(v)
  {
  }

  /** A non-negative number stored as text reads back, as MySQL reads an integer out of a string, as itself. */
  lemma NumberTextReadsBack(n: nat)
    ensures ColumnText(JNum(n)).value.JStr? && IsDecimal(ColumnText(JNum(n)).value.s)
    ensures DecimalValue(ColumnText(JNum(n)).value.s) == n
  {
    NatTextValue(n);
  }

  // -----------------------------------------------------------------------
  // Whole-table properties
  // -----------------------------------------------------------------------

  /** No two user rows share an id. */
  ghost predicate UserIdsDistinct(rows: seq<User>) {
    forall i, j :: 0 <= i < j < |rows| ==> rows[i].id != rows[j].id
  }

  /** No two subject rows share an id. */
  ghost predicate SubjectIdsDistinct(rows: seq<Subject>) {
    forall i, j :: 0 <= i < j < |rows| ==> rows[i].id != rows[j].id
  }

  /** Each (user, subject name) pair names at most one subject. */
  ghost predicate SubjectNamesUnique(rows: seq<Subject>) {
    forall i, j :: 0 <= i < j < |rows| && rows[i].userId == rows[j].userId ==> rows[i].name != rows[j].name
  }

  /** No two plan rows share an id. */
  ghost predicate PlanIdsDistinct(plans: seq<Plan>) {
    forall i, j :: 0 <= i < j < |plans| ==> plans[i].id != plans[j].id
  }

  /** Each subject has at most one study plan. */
  ghost predicate OnePlanPerSubject(plans: seq<Plan>) {
    forall i, j :: 0 <= i < j < |plans| ==> plans[i].subjectId != plans[j].subjectId
  }

  /** Each user has at most one quiz attempt per plan. */
  ghost predicate OneAttemptPerPlan(attempts: seq<Attempt>) {
    forall i, j :: 0 <= i < j < |attempts| ==>
      !(attempts[i].userId == attempts[j].userId && attempts[i].planId == attempts[j].planId)
  }
}
