/**
 * The subject handlers: listing with the plan join and ordering, add with
 * trimming, the level default and the duplicate check, owner-scoped delete
 * and edit. The subjects table is the field of a SubjectTable.
 */
module Subjects {
  import opened Wrappers
  import opened Text
  import opened Http
  import opened Tables

  const Unauthorized := "Unauthorized"
  const NameRequired := "Subject name required"
  const AlreadyExists := "Subject already exists"
  const Added := "Subject added successfully"
  const Deleted := "Subject deleted"
  const EditNameRequired := "Name required"
  const Updated := "Subject updated"

  /** The level stored when the request has no "level" key. */
  const DefaultLevel := "General"

  // ---------------------------------------------------------------------
  // Listing
  // ---------------------------------------------------------------------

  /** One row of the listing: the subject's columns and the id of a joined plan, or null. */
  datatype Listed = Listed(id: nat, name: string, level: Option<string>, updatedAt: int, planId: Option<nat>)

  function Entry(s: Subject, planId: Option<nat>): Listed {
    Listed(s.id, s.name, s.level, s.updatedAt, planId)
  }

  /** The caller's rows, in table order. */
  function OwnRows(rows: seq<Subject>, user: nat): (own: seq<Subject>)
    ensures |own| <= |rows|
    ensures forall s :: s in own <==> s in rows && s.userId == user
    ensures forall s :: multiset(own)[s] == if s.userId == user then multiset(rows)[s] else 0
  {
    if rows == [] then []
    else
      assert rows == [rows[0]] + rows[1..];
      (if rows[0].userId == user then [rows[0]] else []) + OwnRows(rows[1..], user)
  }

  /** Filtering keeps distinct ids distinct. */
  lemma {:induction false} OwnRowsKeepsDistinct(rows: seq<Subject>, user: nat)
    requires SubjectIdsDistinct(rows)
    ensures SubjectIdsDistinct(OwnRows(rows, user))
  {
    if rows != [] {
      var rest := OwnRows(rows[1..], user);
      DistinctTail(rows);
      OwnRowsKeepsDistinct(rows[1..], user);
      HeadIdNotInRest(rows, user);
      if rows[0].userId == user {
        DistinctCons(rows[0], rest);
      }
    }
  }

  lemma DistinctCons(x: Subject, rest: seq<Subject>)
    requires SubjectIdsDistinct(rest)
    requires forall k :: 0 <= k < |rest| ==> rest[k].id != x.id
    ensures SubjectIdsDistinct([x] + rest)
  {
    var all := [x] + rest;
    forall i, j | 0 <= i < j < |all| ensures all[i].id != all[j].id {
      assert all[j] == rest[j - 1];
      if i > 0 {
        assert all[i] == rest[i - 1];
      }
    }
  }

  lemma DistinctTail(rows: seq<Subject>)
    requires rows != [] && SubjectIdsDistinct(rows)
    ensures SubjectIdsDistinct(rows[1..])
  {
    forall i, j | 0 <= i < j < |rows[1..]| ensures rows[1..][i].id != rows[1..][j].id {
      assert rows[1..][i] == rows[i + 1] && rows[1..][j] == rows[j + 1];
    }
  }

  lemma HeadIdNotInRest(rows: seq<Subject>, user: nat)
    requires rows != [] && SubjectIdsDistinct(rows)
    ensures forall k :: 0 <= k < |OwnRows(rows[1..], user)| ==> OwnRows(rows[1..], user)[k].id != rows[0].id
  {
    var rest := OwnRows(rows[1..], user);
    forall k | 0 <= k < |rest| ensures rest[k].id != rows[0].id {
      assert rest[k] in rows[1..];
      var m :| 0 <= m < |rows[1..]| && rows[1..][m] == rest[k];
      assert rows[m + 1] == rest[k];
    }
  }

  /** The ids of the plans whose subject is `subjectId`. */
  function PlanIdsFor(plans: seq<Plan>, subjectId: nat): (ids: seq<nat>)
    ensures forall id :: id in ids <==> exists i :: 0 <= i < |plans| && plans[i].subjectId == subjectId && plans[i].id == id
    ensures ids == [] <==> forall i :: 0 <= i < |plans| ==> plans[i].subjectId != subjectId
  {
    if plans == [] then []
    else
      var rest := PlanIdsFor(plans[1..], subjectId);
      assert forall i :: 0 < i < |plans| ==> plans[i] == plans[1..][i - 1];
      (if plans[0].subjectId == subjectId then [plans[0].id] else []) + rest
  }

  /** `LEFT JOIN study_plans sp ON s.id = sp.subject_id` for one subject: one row per plan, or one with null. */
  function JoinRow(s: Subject, ids: seq<nat>): (out: seq<Listed>)
    ensures ids == [] ==> out == [Entry(s, None)]
    ensures ids != [] ==> |out| == |ids| && forall k :: 0 <= k < |ids| ==> out[k] == Entry(s, Some(ids[k]))
  {
    if ids == [] then [Entry(s, None)]
    else seq(|ids|, k requires 0 <= k < |ids| => Entry(s, Some(ids[k])))
  }

  /** The join restricted to `s.user_id = ?`, before ordering. */
  function Join(rows: seq<Subject>, plans: seq<Plan>): seq<Listed> {
    if rows == [] then []
    else JoinRow(rows[0], PlanIdsFor(plans, rows[0].id)) + Join(rows[1..], plans)
  }

  /** Every listed row is one of the given subjects, with a plan of that subject or with null when it has none. */
  lemma {:induction false} JoinRowsComeFromSubjects(rows: seq<Subject>, plans: seq<Plan>)
    ensures forall x :: x in Join(rows, plans) ==>
      exists s :: s in rows && x == Entry(s, x.planId)
        && (x.planId.None? <==> PlanIdsFor(plans, s.id) == [])
        && (x.planId.Some? ==> x.planId.value in PlanIdsFor(plans, s.id))
  {
    if rows != [] {
      JoinRowsComeFromSubjects(rows[1..], plans);
      forall x | x in Join(rows, plans)
        ensures exists s :: (s in rows && x == Entry(s, x.planId)
          && (x.planId.None? <==> PlanIdsFor(plans, s.id) == [])
          && (x.planId.Some? ==> x.planId.value in PlanIdsFor(plans, s.id)))
      {
        var head := JoinRow(rows[0], PlanIdsFor(plans, rows[0].id));
        if x in head {
          var ids := PlanIdsFor(plans, rows[0].id);
          if ids != [] {
            var k :| 0 <= k < |head| && head[k] == x;
            assert x == Entry(rows[0], Some(ids[k]));
          }
          assert rows[0] in rows;
        } else {
          assert x in Join(rows[1..], plans);
          var s :| s in rows[1..] && x == Entry(s, x.planId)
            && (x.planId.None? <==> PlanIdsFor(plans, s.id) == [])
            && (x.planId.Some? ==> x.planId.value in PlanIdsFor(plans, s.id));
          assert s in rows;
        }
      }
    }
  }

  /** With at most one plan per subject, the join has exactly one row per subject. */
  lemma {:induction false} JoinOneRowPerSubject(rows: seq<Subject>, plans: seq<Plan>)
    requires OnePlanPerSubject(plans)
    ensures |Join(rows, plans)| == |rows|
  {
    if rows != [] {
      AtMostOnePlanId(plans, rows[0].id);
      JoinOneRowPerSubject(rows[1..], plans);
    }
  }

  lemma {:induction false} AtMostOnePlanId(plans: seq<Plan>, subjectId: nat)
    requires OnePlanPerSubject(plans)
    ensures |PlanIdsFor(plans, subjectId)| <= 1
  {
    if plans != [] {
      assert OnePlanPerSubject(plans[1..]) by {
        forall i, j | 0 <= i < j < |plans[1..]| ensures plans[1..][i].subjectId != plans[1..][j].subjectId {
          assert plans[1..][i] == plans[i + 1] && plans[1..][j] == plans[j + 1];
        }
      }
      AtMostOnePlanId(plans[1..], subjectId);
      if plans[0].subjectId == subjectId {
        forall i | 0 <= i < |plans[1..]| ensures plans[1..][i].subjectId != subjectId {
          assert plans[1..][i] == plans[i + 1];
        }
      }
    }
  }

  /** Newest first: `ORDER BY s.updated_at DESC`, stated on neighbours. */
  predicate NewestFirst(xs: seq<Listed>) {
    |xs| < 2 || (xs[0].updatedAt >= xs[1].updatedAt && NewestFirst(xs[1..]))
  }

  /** Ordered neighbours order every pair. */
  lemma {:induction false} NewestFirstPairwise(xs: seq<Listed>)
    requires NewestFirst(xs)
    ensures forall i, j :: 0 <= i < j < |xs| ==> xs[i].updatedAt >= xs[j].updatedAt
  {
    if |xs| >= 2 {
      NewestFirstPairwise(xs[1..]);
      forall i, j | 0 <= i < j < |xs| ensures xs[i].updatedAt >= xs[j].updatedAt {
        assert xs[j] == xs[1..][j - 1];
        if i > 0 {
          assert xs[i] == xs[1..][i - 1];
        }
      }
    }
  }

  function InsertByUpdated(x: Listed, xs: seq<Listed>): (r: seq<Listed>)
    requires NewestFirst(xs)
    ensures NewestFirst(r)
    ensures multiset(r) == multiset(xs) + multiset{x}
    ensures |r| == |xs| + 1
    ensures xs != [] ==> r[0] == x || r[0] == xs[0]
  {
    if xs == [] then [x]
    else if x.updatedAt >= xs[0].updatedAt then [x] + xs
    else
      var rest := InsertByUpdated(x, xs[1..]);
      assert xs == [xs[0]] + xs[1..];
      assert ([xs[0]] + rest)[1..] == rest;
      [xs[0]] + rest
  }

  /** The listing's order; rows with equal `updated_at` keep no particular order in the query. */
  function SortByUpdated(xs: seq<Listed>): (r: seq<Listed>)
    ensures NewestFirst(r)
    ensures multiset(r) == multiset(xs)
  {
    if xs == [] then []
    else
      assert xs == [xs[0]] + xs[1..];
      InsertByUpdated(xs[0], SortByUpdated(xs[1..]))
  }

  /** The rows `get_subjects` returns for a user. */
  function Listing(rows: seq<Subject>, plans: seq<Plan>, user: nat): (r: seq<Listed>)
    ensures NewestFirst(r)
    ensures multiset(r) == multiset(Join(OwnRows(rows, user), plans))
  {
    SortByUpdated(Join(OwnRows(rows, user), plans))
  }

  /** Only the caller's subjects are listed, each with a plan of its own or with null when it has none. */
  lemma ListingIsOwnSubjects(rows: seq<Subject>, plans: seq<Plan>, user: nat)
    ensures forall x :: x in Listing(rows, plans, user) ==>
      exists s :: s in rows && s.userId == user && x == Entry(s, x.planId)
        && (x.planId.None? <==> PlanIdsFor(plans, s.id) == [])
        && (x.planId.Some? ==> x.planId.value in PlanIdsFor(plans, s.id))
  {
    var own := OwnRows(rows, user);
    JoinRowsComeFromSubjects(own, plans);
    var listed := Listing(rows, plans, user);
    forall x | x in listed
      ensures exists s :: (s in rows && s.userId == user && x == Entry(s, x.planId)
        && (x.planId.None? <==> PlanIdsFor(plans, s.id) == [])
        && (x.planId.Some? ==> x.planId.value in PlanIdsFor(plans, s.id)))
    {
      assert x in multiset(listed);
      assert x in Join(own, plans);
    }
  }

  /** With at most one plan per subject, the listing has one row per subject of the caller. */
  lemma ListingOneRowPerSubject(rows: seq<Subject>, plans: seq<Plan>, user: nat)
    requires OnePlanPerSubject(plans)
    ensures |Listing(rows, plans, user)| == |OwnRows(rows, user)|
  {
    var own := OwnRows(rows, user);
    var listed := Listing(rows, plans, user);
    JoinOneRowPerSubject(own, plans);
    assert |listed| == |multiset(listed)| == |Join(own, plans)|;
  }

  // ---------------------------------------------------------------------
  // Add
  // ---------------------------------------------------------------------

  /** The user already has a subject of this name. */
  predicate NameTaken(rows: seq<Subject>, user: nat, name: string) {
    exists i :: 0 <= i < |rows| && rows[i].userId == user && rows[i].name == name
  }

  /** `SELECT id FROM subjects WHERE user_id = ? AND subject_name = ?`: whether a row comes back. */
  function HasName(rows: seq<Subject>, user: nat, name: string): (found: bool)
    ensures found <==> NameTaken(rows, user, name)
  {
    if rows == [] then false
    else if rows[0].userId == user && rows[0].name == name then true
    else
      var found := HasName(rows[1..], user, name);
      assert found ==> NameTaken(rows, user, name) by {
        if found {
          var i :| 0 <= i < |rows[1..]| && rows[1..][i].userId == user && rows[1..][i].name == name;
          assert rows[i + 1] == rows[1..][i];
        }
      }
      assert NameTaken(rows, user, name) ==> found by {
        if NameTaken(rows, user, name) {
          var i :| 0 <= i < |rows| && rows[i].userId == user && rows[i].name == name;
          assert rows[1..][i - 1] == rows[i];
        }
      }
      found
  }

  /** What `add_subject` does with a request once the caller is known. */
  datatype AddOutcome = Insert(name: string, level: string) | Refuse(status: int, error: string)

  /**
   * `data.get("name", "").strip()` and `data.get("level", "General").strip()`:
   * a missing key takes the default, a null value fails on `strip`.
   */
  function Stripped(f: Field, default: string): Option<string> {
    match f
    case Absent => Some(Strip(default))
    case Null => None
    case Str(s) => Some(Strip(s))
  }

  /**
   * `add_subject` as its authors meant it: a null name or level is a server
   * error, an empty trimmed name 400, an existing (user, trimmed name) 400,
   * otherwise the trimmed name and level are inserted.
   */
  function AddDecision(rows: seq<Subject>, user: nat, name: Field, level: Field): (d: AddOutcome)
    ensures d.Insert? <==>
      && name.Str? && !level.Null? && Strip(name.s) != []
      && !NameTaken(rows, user, Strip(name.s))
    ensures d.Insert? ==> d.name == Strip(name.s) && d.level == (if level.Absent? then DefaultLevel else Strip(level.s))
    ensures d == Refuse(400, NameRequired) <==> !name.Null? && !level.Null? && Stripped(name, "") == Some([])
    ensures d == Refuse(400, AlreadyExists) <==>
      name.Str? && !level.Null? && Strip(name.s) != [] && NameTaken(rows, user, Strip(name.s))
    ensures d.Refuse? && d.status == 500 <==> name.Null? || level.Null?
  {
    var n := Stripped(name, "");
    var l := Stripped(level, DefaultLevel);
    StripDefaultLevel();
    StripEmpty();
    if n.None? || l.None? then Refuse(500, ServerError)
    else if n.value == [] then Refuse(400, NameRequired)
    else if HasName(rows, user, n.value) then Refuse(400, AlreadyExists)
    else Insert(n.value, l.value)
  }

  lemma StripDefaultLevel()
    ensures Strip(DefaultLevel) == DefaultLevel
  {
    assert DefaultLevel[0] == 'G' && DefaultLevel[|DefaultLevel| - 1] == 'l';
    TrimKeepsWord(DefaultLevel, IsSpace);
  }

  lemma StripEmpty()
    ensures Strip("") == ""
  {
  }

  /**
   * `add_subject` as written: `cursor` and `conn` are first bound after the
   * name check, so returning the 400 for an empty name runs the `finally`
   * block's `if cursor:` on an unbound name and the request ends in a 500.
   */
  function AddDecisionAsWritten(rows: seq<Subject>, user: nat, name: Field, level: Field): (d: AddOutcome)
    ensures d == Refuse(400, NameRequired) ==> false
    ensures d != AddDecision(rows, user, name, level) ==> d == Refuse(500, ServerError)
  {
    var decided := AddDecision(rows, user, name, level);
    if decided == Refuse(400, NameRequired) then Refuse(500, ServerError) else decided
  }

  /** The two differ exactly on a name that is empty once trimmed. */
  lemma {:induction false} AsWrittenDiffersOnEmptyName(rows: seq<Subject>, user: nat, name: Field, level: Field)
    ensures AddDecisionAsWritten(rows, user, name, level) != AddDecision(rows, user, name, level) <==>
      !name.Null? && !level.Null? && Stripped(name, "") == Some([])
  {
  }

  /** A name of two spaces: the intended reply is 400, the handler as written answers 500. */
  lemma BlankNameIsServerError()
    ensures AddDecision([], 1, Str("  "), Absent) == Refuse(400, NameRequired)
    ensures AddDecisionAsWritten([], 1, Str("  "), Absent) == Refuse(500, ServerError)
  {
    assert Strip("  ") == [] by {
      assert All("  ", IsSpace);
    }
  }

  /** A row that adds a new (user, name) pair keeps names unique. */
  lemma InsertKeepsNamesUnique(rows: seq<Subject>, row: Subject)
    requires SubjectNamesUnique(rows) && !NameTaken(rows, row.userId, row.name)
    ensures SubjectNamesUnique(rows + [row])
  {
    var all := rows + [row];
    forall i, j | 0 <= i < j < |all| && all[i].userId == all[j].userId
      ensures all[i].name != all[j].name
    {
      if j == |rows| {
        assert all[i] == rows[i];
      } else {
        assert all[i] == rows[i] && all[j] == rows[j];
      }
    }
  }

  // ---------------------------------------------------------------------
  // Delete and edit
  // ---------------------------------------------------------------------

  predicate Targets(s: Subject, id: nat, user: nat) {
    s.id == id && s.userId == user
  }

  /** `DELETE FROM subjects WHERE id = ? AND user_id = ?`. */
  function Without(rows: seq<Subject>, id: nat, user: nat): (r: seq<Subject>)
    ensures forall s :: s in r <==> s in rows && !Targets(s, id, user)
    ensures |r| <= |rows|
    ensures SubjectIdsDistinct(rows) ==> SubjectIdsDistinct(r)
  {
    if rows == [] then []
    else
      var rest := Without(rows[1..], id, user);
      if Targets(rows[0], id, user) then rest
      else
        assert SubjectIdsDistinct(rows) ==> SubjectIdsDistinct(rows[1..]) by {
          if SubjectIdsDistinct(rows) {
            forall i, j | 0 <= i < j < |rows[1..]| ensures rows[1..][i].id != rows[1..][j].id {
              assert rows[1..][i] == rows[i + 1] && rows[1..][j] == rows[j + 1];
            }
          }
        }
        assert SubjectIdsDistinct(rows) ==> forall s :: s in rest ==> s.id != rows[0].id by {
          if SubjectIdsDistinct(rows) {
            forall s | s in rest ensures s.id != rows[0].id {
              var k :| 0 <= k < |rows[1..]| && rows[1..][k] == s;
              assert rows[k + 1] == s;
            }
          }
        }
        [rows[0]] + rest
  }

  /** `UPDATE subjects SET subject_name = ?, last_studied = ? WHERE id = ? AND user_id = ?`. */
  function Renamed(rows: seq<Subject>, id: nat, user: nat, name: string, now: int): (r: seq<Subject>)
    ensures |r| == |rows|
    ensures forall i :: 0 <= i < |rows| ==>
      r[i] == if Targets(rows[i], id, user) then rows[i].(name := name, lastStudied := Some(now)) else rows[i]
  {
    seq(|rows|, i requires 0 <= i < |rows| =>
      if Targets(rows[i], id, user) then rows[i].(name := name, lastStudied := Some(now)) else rows[i])
  }

  /** Renaming keeps every id, every owner and every other column, so ids stay distinct. */
  lemma RenamedKeepsIds(rows: seq<Subject>, id: nat, user: nat, name: string, now: int)
    ensures forall i :: 0 <= i < |rows| ==>
      && Renamed(rows, id, user, name, now)[i].id == rows[i].id
      && Renamed(rows, id, user, name, now)[i].userId == rows[i].userId
      && Renamed(rows, id, user, name, now)[i].level == rows[i].level
      && Renamed(rows, id, user, name, now)[i].updatedAt == rows[i].updatedAt
    ensures SubjectIdsDistinct(rows) ==> SubjectIdsDistinct(Renamed(rows, id, user, name, now))
  {
  }

  /** Edit does not look for a clash: renaming one subject to another's name breaks uniqueness. */
  lemma EditCanDuplicateName()
    ensures var rows := [Subject(1, 7, "Math", Some("General"), 0, None), Subject(2, 7, "Physics", Some("General"), 0, None)];
      && SubjectNamesUnique(rows)
      && !SubjectNamesUnique(Renamed(rows, 2, 7, "Math", 1))
  {
    var rows := [Subject(1, 7, "Math", Some("General"), 0, None), Subject(2, 7, "Physics", Some("General"), 0, None)];
    var renamed := Renamed(rows, 2, 7, "Math", 1);
    assert renamed[0].name == "Math" && renamed[1].name == "Math";
    assert renamed[0].userId == renamed[1].userId;
  }

  // ---------------------------------------------------------------------
  // The table
  // ---------------------------------------------------------------------

  /** The subjects table. */
  class SubjectTable {
    var rows: seq<Subject>
    var nextId: nat

    /** Ids are distinct and below the next AUTO_INCREMENT value. */
    ghost predicate Valid()
      reads this
    {
      (forall i :: 0 <= i < |rows| ==> rows[i].id < nextId) && SubjectIdsDistinct(rows)
    }

    constructor ()
      ensures Valid() && rows == [] && nextId == 1
    {
      rows, nextId := [], 1;
    }

    /** `get_subjects`: the caller's subjects with their plan ids, newest first. */
    function GetSubjects(session: Option<nat>, plans: seq<Plan>): (r: Reply<seq<Listed>>)
      reads this
      ensures session.None? ==> r == Fail(401, Unauthorized, [])
      ensures session.Some? ==>
        && r.Ok? && r.status == 200
        && NewestFirst(r.value) && multiset(r.value) == multiset(Join(OwnRows(rows, session.value), plans))
    {
      if session.None? then Fail(401, Unauthorized, [])
      else Ok(200, Listing(rows, plans, session.value))
    }

    /** `INSERT INTO subjects`, with the next id. */
    method InsertRow(row: Subject)
      requires Valid() && row.id == nextId
      modifies this
      ensures Valid()
      ensures rows == old(rows) + [row] && nextId == old(nextId) + 1
    {
      rows := rows + [row];
      nextId := nextId + 1;
    }

    /**
     * `add_subject`, as it behaves once the empty-name reply no longer trips
     * over the unbound cursor. `now` is the time the row is written.
     */
    method AddSubject(session: Option<nat>, name: Field, level: Field, now: int) returns (r: Reply<string>)
      requires Valid()
      modifies this
      ensures Valid()
      ensures session.None? ==> r == Fail(401, Unauthorized, []) && rows == old(rows) && nextId == old(nextId)
      ensures session.Some? ==>
        match AddDecision(old(rows), session.value, name, level)
        case Refuse(status, error) =>
          r == Fail(status, error, []) && rows == old(rows) && nextId == old(nextId)
        case Insert(n, l) =>
          && r == Ok(201, Added)
          && rows == old(rows) + [Subject(old(nextId), session.value, n, Some(l), now, None)]
          && nextId == old(nextId) + 1
      ensures SubjectNamesUnique(old(rows)) ==> SubjectNamesUnique(rows)
    {
      if session.None? {
        return Fail(401, Unauthorized, []);
      }
      match AddDecision(rows, session.value, name, level)
      case Refuse(status, error) =>
        r := Fail(status, error, []);
      case Insert(n, l) =>
        var row := Subject(nextId, session.value, n, Some(l), now, None);
        if SubjectNamesUnique(rows) {
          InsertKeepsNamesUnique(rows, row);
        }
        InsertRow(row);
        r := Ok(201, Added);
    }

    /** `delete_subject`: removes the caller's row with that id, if any, and reports success either way. */
    method DeleteSubject(session: Option<nat>, id: nat) returns (r: Reply<string>)
      requires Valid()
      modifies this
      ensures Valid() && nextId == old(nextId)
      ensures session.None? ==> r == Fail(401, Unauthorized, []) && rows == old(rows)
      ensures session.Some? ==> r == Ok(200, Deleted) && rows == Without(old(rows), id, session.value)
    {
      if session.None? {
        return Fail(401, Unauthorized, []);
      }
      var kept := Without(rows, id, session.value);
      assert forall i :: 0 <= i < |kept| ==> kept[i] in rows;
      rows := kept;
      r := Ok(200, Deleted);
    }

    /** `edit_subject`: renames the caller's row with that id and stamps `last_studied` with `now`. */
    method EditSubject(session: Option<nat>, id: nat, name: Field, now: int) returns (r: Reply<string>)
      requires Valid()
      modifies this
      ensures Valid() && nextId == old(nextId)
      ensures session.None? ==> r == Fail(401, Unauthorized, []) && rows == old(rows)
      ensures session.Some? && !Given(name) ==> r == Fail(400, EditNameRequired, []) && rows == old(rows)
      ensures session.Some? && Given(name) ==>
        r == Ok(200, Updated) && rows == Renamed(old(rows), id, session.value, name.s, now)
    {
      if session.None? {
        return Fail(401, Unauthorized, []);
      }
      if !Given(name) {
        return Fail(400, EditNameRequired, []);
      }
      RenamedKeepsIds(rows, id, session.value, name.s, now);
      rows := Renamed(rows, id, session.value, name.s, now);
      r := Ok(200, Updated);
    }
  }

  /** Deleting or editing leaves every row of another user as it was. */
  lemma OtherUsersUntouched(rows: seq<Subject>, id: nat, user: nat, other: nat, name: string, now: int)
    requires other != user
    ensures OwnRows(Without(rows, id, user), other) == OwnRows(rows, other)
    ensures OwnRows(Renamed(rows, id, user, name, now), other) == OwnRows(rows, other)
  {
    WithoutKeepsOthers(rows, id, user, other);
    RenamedKeepsOthers(rows, id, user, other, name, now);
  }

  lemma {:induction false} WithoutKeepsOthers(rows: seq<Subject>, id: nat, user: nat, other: nat)
    requires other != user
    ensures OwnRows(Without(rows, id, user), other) == OwnRows(rows, other)
  {
    if rows != [] {
      WithoutKeepsOthers(rows[1..], id, user, other);
      if !Targets(rows[0], id, user) {
        assert ([rows[0]] + Without(rows[1..], id, user))[1..] == Without(rows[1..], id, user);
      }
    }
  }

  lemma {:induction false} RenamedKeepsOthers(rows: seq<Subject>, id: nat, user: nat, other: nat, name: string, now: int)
    requires other != user
    ensures OwnRows(Renamed(rows, id, user, name, now), other) == OwnRows(rows, other)
  {
    if rows != [] {
      var r := Renamed(rows, id, user, name, now);
      assert r[1..] == Renamed(rows[1..], id, user, name, now);
      RenamedKeepsOthers(rows[1..], id, user, other, name, now);
      assert r[0].userId == rows[0].userId;
      assert r[0].userId == other ==> r[0] == rows[0];
    }
  }
}
