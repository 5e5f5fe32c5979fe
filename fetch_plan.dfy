/**
 * The older subject handlers, kept beside the current ones but not
 * registered with the application: no trimming, no level default, no plan
 * join and no ordering. They work on the same subjects table.
 */
module FetchPlan {
  import opened Wrappers
  import opened Text
  import opened Http
  import opened Tables
  import opened Subjects

  /** A listed row without the plan column. */
  datatype Row = Row(id: nat, name: string, level: Option<string>, updatedAt: int)

  /** `SELECT id, subject_name, education_level, updated_at FROM subjects WHERE user_id = ?`, in table order. */
  function Project(rows: seq<Subject>): (r: seq<Row>)
    ensures |r| == |rows|
    ensures forall i :: 0 <= i < |rows| ==> r[i] == Row(rows[i].id, rows[i].name, rows[i].level, rows[i].updatedAt)
  {
    seq(|rows|, i requires 0 <= i < |rows| => Row(rows[i].id, rows[i].name, rows[i].level, rows[i].updatedAt))
  }

  /** `get_subjects`: each of the caller's subjects once, and nothing else. */
  function GetSubjects(table: SubjectTable, session: Option<nat>): (r: Reply<seq<Row>>)
    reads table
    ensures session.None? ==> r == Fail(401, Unauthorized, [])
    ensures session.Some? ==>
      && r.Ok? && r.status == 200
      && (forall x :: x in r.value <==>
            exists s :: s in table.rows && s.userId == session.value && x == Row(s.id, s.name, s.level, s.updatedAt))
    ensures session.Some? && table.Valid() ==>
      forall i, j :: 0 <= i < j < |r.value| ==> r.value[i].id != r.value[j].id
  {
    if session.None? then Fail(401, Unauthorized, [])
    else
      var own := OwnRows(table.rows, session.value);
      var listed := Project(own);
      assert forall x :: x in listed ==> exists k :: 0 <= k < |own| && x == listed[k];
      assert table.Valid() ==> SubjectIdsDistinct(own) by {
        if table.Valid() {
          OwnRowsKeepsDistinct(table.rows, session.value);
        }
      }
      Ok(200, listed)
  }

  /** What the older `add_subject` does once the caller is known. */
  datatype LegacyOutcome = Store(name: string, level: Option<string>) | Reject(status: int, error: string)

  /**
   * Only a truthy name is demanded, and it is used as sent; the level is
   * stored as sent, null when missing; an exact (user, name) match is refused.
   */
  function LegacyAddDecision(rows: seq<Subject>, user: nat, name: Field, level: Field): (d: LegacyOutcome)
    ensures d.Store? <==> Given(name) && !NameTaken(rows, user, name.s)
    ensures d.Store? ==> d.name == name.s && d.level == (if level.Str? then Some(level.s) else None)
    ensures d == Reject(400, NameRequired) <==> !Given(name)
    ensures d == Reject(400, AlreadyExists) <==> Given(name) && NameTaken(rows, user, name.s)
  {
    if !Given(name) then Reject(400, NameRequired)
    else if HasName(rows, user, name.s) then Reject(400, AlreadyExists)
    else Store(name.s, if level.Str? then Some(level.s) else None)
  }

  /** Unlike the current handler, a name of spaces is stored, spaces and all. */
  lemma LegacyStoresBlankName(rows: seq<Subject>, user: nat)
    requires !NameTaken(rows, user, "  ")
    ensures LegacyAddDecision(rows, user, Str("  "), Absent) == Store("  ", None)
    ensures AddDecision(rows, user, Str("  "), Absent) == Refuse(400, NameRequired)
  {
    assert Strip("  ") == [] by {
      assert All("  ", IsSpace);
    }
  }

  /** `add_subject`. */
  method AddSubject(table: SubjectTable, session: Option<nat>, name: Field, level: Field, now: int)
    returns (r: Reply<string>)
    requires table.Valid()
    modifies table
    ensures table.Valid()
    ensures session.None? ==>
      r == Fail(401, Unauthorized, []) && table.rows == old(table.rows) && table.nextId == old(table.nextId)
    ensures session.Some? ==>
      match LegacyAddDecision(old(table.rows), session.value, name, level)
      case Reject(status, error) =>
        r == Fail(status, error, []) && table.rows == old(table.rows) && table.nextId == old(table.nextId)
      case Store(n, l) =>
        && r == Ok(201, Added)
        && table.rows == old(table.rows) + [Subject(old(table.nextId), session.value, n, l, now, None)]
        && table.nextId == old(table.nextId) + 1
    ensures SubjectNamesUnique(old(table.rows)) ==> SubjectNamesUnique(table.rows)
  {
    if session.None? {
      return Fail(401, Unauthorized, []);
    }
    match LegacyAddDecision(table.rows, session.value, name, level)
    case Reject(status, error) =>
      r := Fail(status, error, []);
    case Store(n, l) =>
      var row := Subject(table.nextId, session.value, n, l, now, None);
      if SubjectNamesUnique(table.rows) {
        InsertKeepsNamesUnique(table.rows, row);
      }
      table.InsertRow(row);
      r := Ok(201, Added);
  }

  /** `delete_subject`: the same statement as the current handler. */
  method DeleteSubject(table: SubjectTable, session: Option<nat>, id: nat) returns (r: Reply<string>)
    requires table.Valid()
    modifies table
    ensures table.Valid() && table.nextId == old(table.nextId)
    ensures session.None? ==> r == Fail(401, Unauthorized, []) && table.rows == old(table.rows)
    ensures session.Some? ==> r == Ok(200, Deleted) && table.rows == Without(old(table.rows), id, session.value)
  {
    r := table.DeleteSubject(session, id);
  }

  /** `edit_subject`: the same statement as the current handler. */
  method EditSubject(table: SubjectTable, session: Option<nat>, id: nat, name: Field, now: int) returns (r: Reply<string>)
    requires table.Valid()
    modifies table
    ensures table.Valid() && table.nextId == old(table.nextId)
    ensures session.None? ==> r == Fail(401, Unauthorized, []) && table.rows == old(table.rows)
    ensures session.Some? && !Given(name) ==> r == Fail(400, EditNameRequired, []) && table.rows == old(table.rows)
    ensures session.Some? && Given(name) ==>
      r == Ok(200, Updated) && table.rows == Renamed(old(table.rows), id, session.value, name.s, now)
  {
    r := table.EditSubject(session, id, name, now);
  }
}
