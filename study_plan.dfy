/**
 * The plan and quiz handlers: get-or-create of one study plan per subject,
 * the owner-scoped read of a saved plan, and submit-once quiz attempts.
 * The study_plans and quiz_attempts tables are the fields of a PlanStore;
 * the subjects table is read only, so the handlers take its rows.
 */
module StudyPlan {
  import opened Wrappers
  import opened Text
  import opened Http
  import opened Tables
  import opened ReplyCleanup

  /** The JSON object a plan handler answers with. */
  datatype PlanView = PlanView(
    id: nat, subject: string, level: Option<string>, summary: Json, roadmap: Json, quizQuestions: Json)

  /** The body of a successful quiz submission. */
  datatype Receipt = Receipt(score: Json, total: Json)

  const NotLoggedIn := "User not logged in"
  const Unauthorized := "Unauthorized"
  const SubjectLevelRequired := "Subject and level are required"
  const SubjectNotFound := "Subject not found for this user"
  const UpstreamError := "Gemini API failed"
  const ServerErrorPrefix := "Server error"
  const PlanNotFound := "Plan not found or access denied"
  const MissingFields := "Missing required fields"
  const AlreadySubmitted := "Quiz already submitted"
  const SaveFailed := "Failed to save quiz results"

  // ---------------------------------------------------------------------
  // Queries over the tables
  // ---------------------------------------------------------------------

  predicate SubjectMatches(row: Subject, name: string, level: string, user: nat) {
    row.name == name && row.level == Some(level) && row.userId == user
  }

  /** `SELECT id FROM subjects WHERE subject_name = ? AND education_level = ? AND user_id = ?`, first row. */
  function FindSubject(subjects: seq<Subject>, name: string, level: string, user: nat): (r: Option<nat>)
    ensures r.Some? ==> r.value < |subjects| && SubjectMatches(subjects[r.value], name, level, user)
    ensures r.Some? ==> forall k :: 0 <= k < r.value ==> !SubjectMatches(subjects[k], name, level, user)
    ensures r.None? ==> forall k :: 0 <= k < |subjects| ==> !SubjectMatches(subjects[k], name, level, user)
  {
    if subjects == [] then None
    else if SubjectMatches(subjects[0], name, level, user) then Some(0)
    else match FindSubject(subjects[1..], name, level, user)
      case None => None
      case Some(k) => Some(k + 1)
  }

  /** `SELECT ... FROM study_plans WHERE subject_id = ?`, first row. */
  function FindPlan(plans: seq<Plan>, subjectId: nat): (r: Option<nat>)
    ensures r.Some? ==> r.value < |plans| && plans[r.value].subjectId == subjectId
    ensures r.Some? ==> forall k :: 0 <= k < r.value ==> plans[k].subjectId != subjectId
    ensures r.None? ==> forall k :: 0 <= k < |plans| ==> plans[k].subjectId != subjectId
  {
    if plans == [] then None
    else if plans[0].subjectId == subjectId then Some(0)
    else match FindPlan(plans[1..], subjectId)
      case None => None
      case Some(k) => Some(k + 1)
  }

  /** The subject row that owns a plan: its id is the plan's subject and its user is the caller. */
  function OwnerRow(subjects: seq<Subject>, subjectId: nat, user: nat): (r: Option<nat>)
    ensures r.Some? ==> r.value < |subjects| && subjects[r.value].id == subjectId && subjects[r.value].userId == user
    ensures r.None? ==> forall k :: 0 <= k < |subjects| ==> !(subjects[k].id == subjectId && subjects[k].userId == user)
  {
    if subjects == [] then None
    else if subjects[0].id == subjectId && subjects[0].userId == user then Some(0)
    else match OwnerRow(subjects[1..], subjectId, user)
      case None => None
      case Some(k) => Some(k + 1)
  }

  /** Plan row `i` has id `planId` and belongs, through subject row `k`, to `user`. */
  predicate Owns(plans: seq<Plan>, subjects: seq<Subject>, planId: nat, user: nat, i: int, k: int) {
    && 0 <= i < |plans| && 0 <= k < |subjects|
    && plans[i].id == planId && subjects[k].id == plans[i].subjectId && subjects[k].userId == user
  }

  /** A plan seen through the subject that owns it. */
  function SavedView(plan: Plan, subject: Subject): PlanView {
    PlanView(plan.id, subject.name, subject.level, plan.summary, plan.roadmap, plan.quizQuestions)
  }

  /** An answer as a later read of its row gives it back: the summary as its TEXT column holds it. */
  function AsStored(view: PlanView): PlanView
    requires DriverAccepts(view.summary)
  {
    view.(summary := ColumnText(view.summary).value)
  }

  /**
   * The join in `get_saved_plan`: study_plans with subjects on the subject
   * id, restricted to the plan id and the caller's subjects.
   */
  function SavedPlan(plans: seq<Plan>, subjects: seq<Subject>, planId: nat, user: nat): (r: Option<PlanView>)
    ensures r.Some? ==> exists i, k :: Owns(plans, subjects, planId, user, i, k) && r.value == SavedView(plans[i], subjects[k])
    ensures r.None? ==> forall i, k :: !Owns(plans, subjects, planId, user, i, k)
  {
    if plans == [] then None
    else
      var owner := if plans[0].id == planId then OwnerRow(subjects, plans[0].subjectId, user) else None;
      if owner.Some? then
        assert Owns(plans, subjects, planId, user, 0, owner.value);
        Some(SavedView(plans[0], subjects[owner.value]))
      else
        var rest := SavedPlan(plans[1..], subjects, planId, user);
        if rest.Some? then
          var i, k :| Owns(plans[1..], subjects, planId, user, i, k) && rest.value == SavedView(plans[1..][i], subjects[k]);
          assert Owns(plans, subjects, planId, user, i + 1, k);
          rest
        else
          assert forall i, k :: Owns(plans, subjects, planId, user, i, k) ==> i > 0 && Owns(plans[1..], subjects, planId, user, i - 1, k);
          None
  }

  /** A row exists for this user and plan. */
  predicate Attempted(attempts: seq<Attempt>, user: nat, planId: int) {
    exists i :: 0 <= i < |attempts| && attempts[i].userId == user && attempts[i].planId == planId
  }

  /** `SELECT id FROM quiz_attempts WHERE user_id = ? AND plan_id = ?`: whether a row comes back. */
  function HasAttempt(attempts: seq<Attempt>, user: nat, planId: int): (found: bool)
    ensures found <==> Attempted(attempts, user, planId)
  {
    if attempts == [] then false
    else if attempts[0].userId == user && attempts[0].planId == planId then true
    else
      var found := HasAttempt(attempts[1..], user, planId);
      assert found ==> Attempted(attempts, user, planId) by {
        if found {
          var i :| 0 <= i < |attempts[1..]| && attempts[1..][i].userId == user && attempts[1..][i].planId == planId;
          assert attempts[i + 1] == attempts[1..][i];
        }
      }
      assert Attempted(attempts, user, planId) ==> found by {
        if Attempted(attempts, user, planId) {
          var i :| 0 <= i < |attempts| && attempts[i].userId == user && attempts[i].planId == planId;
          assert attempts[1..][i - 1] == attempts[i];
        }
      }
      found
  }

  // ---------------------------------------------------------------------
  // The quiz submission body
  // ---------------------------------------------------------------------

  /** `data.get("total_questions") or data.get("total")`. */
  function TotalOf(body: map<string, Json>): Json {
    if Truthy(Lookup(body, "total_questions")) then Lookup(body, "total_questions") else Lookup(body, "total")
  }

  /** `all([plan_id, answers, score is not None, total])`. */
  predicate SubmissionComplete(body: map<string, Json>) {
    && Truthy(Lookup(body, "plan_id"))
    && Truthy(Lookup(body, "answers"))
    && Lookup(body, "score") != JNull
    && Truthy(TotalOf(body))
  }

  /**
   * The integer an INT column (plan_id, score, total_questions) receives:
   * numbers and booleans as themselves, a string of decimal digits as its
   * value. Anything else makes the query fail.
   */
  function IntColumn(v: Json): (key: Option<int>)
    ensures v.JNum? ==> key == Some(v.n)
    ensures v.JBool? ==> key == Some(if v.b then 1 else 0)
    ensures v.JStr? ==> (key.Some? <==> IsDecimal(v.s))
    ensures v.JStr? && IsDecimal(v.s) ==> key == Some(DecimalValue(v.s))
    ensures v.JArr? || v.JObj? || v.JNull? ==> key.None?
  {
    match v
    case JNum(n) => Some(n)
    case JBool(b) => Some(if b then 1 else 0)
    case JStr(s) => if IsDecimal(s) then Some(DecimalValue(s)) else None
    case _ => None
  }

  /** A score of 0 is accepted: only a missing or null score is refused. */
  lemma ZeroScoreIsComplete(body: map<string, Json>)
    requires Truthy(Lookup(body, "plan_id")) && Truthy(Lookup(body, "answers")) && Truthy(TotalOf(body))
    requires Lookup(body, "score") == JNum(0)
    ensures SubmissionComplete(body)
  {
  }

  /** `total` is read only when `total_questions` is missing or falsy. */
  lemma {:induction false} TotalPrefersTotalQuestions(body: map<string, Json>)
    ensures "total_questions" in body && Truthy(body["total_questions"]) ==> TotalOf(body) == body["total_questions"]
    ensures !("total_questions" in body && Truthy(body["total_questions"])) ==> TotalOf(body) == Lookup(body, "total")
  {
  }

  /** Appending a plan for a subject that had none makes it the subject's plan; other lookups are unchanged. */
  lemma {:induction false} FindPlanAfterInsert(plans: seq<Plan>, plan: Plan, subjectId: nat)
    ensures FindPlan(plans, plan.subjectId).None? ==> FindPlan(plans + [plan], plan.subjectId) == Some(|plans|)
    ensures FindPlan(plans, subjectId).Some? ==> FindPlan(plans + [plan], subjectId) == FindPlan(plans, subjectId)
  {
    if plans != [] {
      assert (plans + [plan])[1..] == plans[1..] + [plan];
      FindPlanAfterInsert(plans[1..], plan, subjectId);
    }
  }

  /**
   * With distinct plan ids and distinct subject ids, the saved-plan join
   * finds a plan exactly through the subject row that owns it.
   */
  lemma SavedPlanOfOwner(plans: seq<Plan>, subjects: seq<Subject>, i: nat, k: nat, user: nat)
    requires PlanIdsDistinct(plans) && SubjectIdsDistinct(subjects)
    requires i < |plans| && k < |subjects|
    requires subjects[k].id == plans[i].subjectId && subjects[k].userId == user
    ensures SavedPlan(plans, subjects, plans[i].id, user) == Some(SavedView(plans[i], subjects[k]))
  {
    assert Owns(plans, subjects, plans[i].id, user, i, k);
    var r := SavedPlan(plans, subjects, plans[i].id, user);
    var i', k' :| Owns(plans, subjects, plans[i].id, user, i', k') && r.value == SavedView(plans[i'], subjects[k']);
    assert i' == i;
    assert k' == k;
  }

  /** A user appended with an attempt for a plan has attempted it; other pairs are as before. */
  lemma AttemptedAfterInsert(attempts: seq<Attempt>, a: Attempt, user: nat, planId: int)
    ensures Attempted(attempts + [a], user, planId) <==>
      Attempted(attempts, user, planId) || (a.userId == user && a.planId == planId)
  {
    var all := attempts + [a];
    if Attempted(all, user, planId) && !(a.userId == user && a.planId == planId) {
      var i :| 0 <= i < |all| && all[i].userId == user && all[i].planId == planId;
      assert i < |attempts| && attempts[i] == all[i];
    }
    if Attempted(attempts, user, planId) {
      var i :| 0 <= i < |attempts| && attempts[i].userId == user && attempts[i].planId == planId;
      assert all[i] == attempts[i];
    }
    if a.userId == user && a.planId == planId {
      assert all[|attempts|] == a;
    }
  }

  // ---------------------------------------------------------------------
  // The store
  // ---------------------------------------------------------------------

  /** The study_plans and quiz_attempts tables. */
  class PlanStore {
    var plans: seq<Plan>
    var attempts: seq<Attempt>
    var nextPlanId: nat
    var nextAttemptId: nat

    /**
     * Ids are below the next AUTO_INCREMENT value and distinct; every summary
     * is what a TEXT column holds; one plan per subject; one attempt per user
     * and plan.
     */
    ghost predicate Valid()
      reads this
    {
      && (forall i :: 0 <= i < |plans| ==> plans[i].id < nextPlanId)
      && PlanIdsDistinct(plans)
      && (forall i :: 0 <= i < |plans| ==> IsColumnText(plans[i].summary))
      && (forall i :: 0 <= i < |attempts| ==> attempts[i].id < nextAttemptId)
      && OnePlanPerSubject(plans)
      && OneAttemptPerPlan(attempts)
    }

    constructor ()
      ensures Valid()
      ensures plans == [] && attempts == [] && nextPlanId == 1 && nextAttemptId == 1
    {
      plans, attempts := [], [];
      nextPlanId, nextAttemptId := 1, 1;
    }

    /**
     * `generate_plan`. The reply of the model is an input: it is used only
     * when the caller's subject has no plan yet, and a plan row is added only
     * when the reply parsed into a JSON object whose summary the driver
     * accepts. The row holds the summary as its TEXT column converts it; the
     * answer echoes the summary as the model gave it.
     */
    method GeneratePlan(
      session: Option<nat>, subject: Field, level: Field, subjects: seq<Subject>,
      reply: UpstreamReply, loads: string -> Option<Json>)
      returns (r: Reply<PlanView>)
      requires Valid()
      modifies this
      ensures Valid()
      ensures attempts == old(attempts) && nextAttemptId == old(nextAttemptId)
      ensures session.None? ==>
        r == Fail(401, NotLoggedIn, []) && plans == old(plans) && nextPlanId == old(nextPlanId)
      ensures session.Some? && !(Given(subject) && Given(level)) ==>
        r == Fail(400, SubjectLevelRequired, []) && plans == old(plans) && nextPlanId == old(nextPlanId)
      ensures (session.Some? && Given(subject) && Given(level)
               && FindSubject(subjects, subject.s, level.s, session.value).None?) ==>
        r == Fail(404, SubjectNotFound, []) && plans == old(plans) && nextPlanId == old(nextPlanId)
      ensures (session.Some? && Given(subject) && Given(level)
               && FindSubject(subjects, subject.s, level.s, session.value).Some?) ==>
        var sid := subjects[FindSubject(subjects, subject.s, level.s, session.value).value].id;
        && (FindPlan(old(plans), sid).Some? ==>
              var p := old(plans)[FindPlan(old(plans), sid).value];
              && r == Ok(200, PlanView(p.id, subject.s, Some(level.s), p.summary, p.roadmap, p.quizQuestions))
              && plans == old(plans) && nextPlanId == old(nextPlanId))
        && (FindPlan(old(plans), sid).None? ==>
              match ReadReply(reply, loads)
              case UpstreamFailed(status, details) =>
                r == Fail(status, UpstreamError, [details]) && plans == old(plans) && nextPlanId == old(nextPlanId)
              case Unusable =>
                r == Fail(500, ServerErrorPrefix, []) && plans == old(plans) && nextPlanId == old(nextPlanId)
              case Fields(summary, roadmap, quiz) =>
                && (!DriverAccepts(summary) ==>
                      r == Fail(500, ServerErrorPrefix, []) && plans == old(plans) && nextPlanId == old(nextPlanId))
                && (DriverAccepts(summary) ==>
                      && r == Ok(200, PlanView(old(nextPlanId), subject.s, Some(level.s), summary, roadmap, quiz))
                      && plans == old(plans) + [Plan(old(nextPlanId), sid, session.value,
                                                     ColumnText(summary).value, roadmap, quiz)]
                      && nextPlanId == old(nextPlanId) + 1))
      ensures r.Ok? ==>
        && session.Some? && Given(subject) && Given(level)
        && FindSubject(subjects, subject.s, level.s, session.value).Some?
        && DriverAccepts(r.value.summary)
        && var sid := subjects[FindSubject(subjects, subject.s, level.s, session.value).value].id;
           && FindPlan(plans, sid).Some?
           && (FindPlan(old(plans), sid).Some? ==> plans == old(plans))
           && (FindPlan(old(plans), sid).None? ==> |plans| == |old(plans)| + 1 && plans[..|old(plans)|] == old(plans))
           && var p := plans[FindPlan(plans, sid).value];
              AsStored(r.value) == PlanView(p.id, subject.s, Some(level.s), p.summary, p.roadmap, p.quizQuestions)
    {
      if session.None? {
        return Fail(401, NotLoggedIn, []);
      }
      var user := session.value;
      if !Given(subject) || !Given(level) {
        return Fail(400, SubjectLevelRequired, []);
      }
      var row := FindSubject(subjects, subject.s, level.s, user);
      if row.None? {
        return Fail(404, SubjectNotFound, []);
      }
      var sid := subjects[row.value].id;
      var existing := FindPlan(plans, sid);
      if existing.Some? {
        var p := plans[existing.value];
        return Ok(200, PlanView(p.id, subject.s, Some(level.s), p.summary, p.roadmap, p.quizQuestions));
      }
      match ReadReply(reply, loads)
      case UpstreamFailed(status, details) =>
        r := Fail(status, UpstreamError, [details]);
      case Unusable =>
        r := Fail(500, ServerErrorPrefix, []);
      case Fields(summary, roadmap, quiz) =>
        var column := ColumnText(summary);
        if column.None? {
          r := Fail(500, ServerErrorPrefix, []);
        } else {
          var id := nextPlanId;
          FindPlanAfterInsert(plans, Plan(id, sid, user, column.value, roadmap, quiz), sid);
          InsertPlan(Plan(id, sid, user, column.value, roadmap, quiz));
          assert plans[..|old(plans)|] == old(plans);
          r := Ok(200, PlanView(id, subject.s, Some(level.s), summary, roadmap, quiz));
        }
    }

    /** `INSERT INTO study_plans`, for a subject that has no plan yet. */
    method InsertPlan(plan: Plan)
      requires Valid()
      requires plan.id == nextPlanId && FindPlan(plans, plan.subjectId).None? && IsColumnText(plan.summary)
      modifies this
      ensures Valid()
      ensures plans == old(plans) + [plan] && nextPlanId == old(nextPlanId) + 1
      ensures attempts == old(attempts) && nextAttemptId == old(nextAttemptId)
    {
      plans := plans + [plan];
      nextPlanId := nextPlanId + 1;
    }

    /** `get_saved_plan`: the plan, if its subject belongs to the caller. */
    function GetSavedPlan(session: Option<nat>, planId: nat, subjects: seq<Subject>): (r: Reply<PlanView>)
      reads this
      ensures session.None? || session == Some(0) ==> r == Fail(401, Unauthorized, [])
      ensures r.Ok? ==>
        && r.status == 200 && session.Some?
        && exists i, k :: Owns(plans, subjects, planId, session.value, i, k) && r.value == SavedView(plans[i], subjects[k])
      ensures session.Some? && session.value != 0 && (forall i, k :: !Owns(plans, subjects, planId, session.value, i, k)) ==>
        r == Fail(404, PlanNotFound, [])
      ensures session.Some? && session.value != 0 ==>
        (r.Ok? <==> SavedPlan(plans, subjects, planId, session.value).Some?)
    {
      if session.None? || session.value == 0 then Fail(401, Unauthorized, [])
      else match SavedPlan(plans, subjects, planId, session.value)
        case None => Fail(404, PlanNotFound, [])
        case Some(view) => Ok(200, view)
    }

    /** `get_quiz_result`: whether the caller has an attempt for the plan. */
    function GetQuizResult(session: Option<nat>, planId: nat): (r: Reply<bool>)
      reads this
      ensures session.None? ==> r == Fail(401, Unauthorized, [])
      ensures session.Some? ==> r.Ok? && r.status == 200 && (r.value <==> Attempted(attempts, session.value, planId))
    {
      if session.None? then Fail(401, Unauthorized, [])
      else Ok(200, HasAttempt(attempts, session.value, planId))
    }

    /**
     * `submit_quiz`: at most one attempt per user and plan. The values are
     * stored as their INT columns convert them and echoed as submitted; a
     * score or total those columns cannot take makes the insert fail.
     */
    method SubmitQuiz(session: Option<nat>, body: map<string, Json>) returns (r: Reply<Receipt>)
      requires Valid()
      modifies this
      ensures Valid()
      ensures plans == old(plans) && nextPlanId == old(nextPlanId)
      ensures session.None? ==>
        r == Fail(401, Unauthorized, []) && attempts == old(attempts) && nextAttemptId == old(nextAttemptId)
      ensures session.Some? && !SubmissionComplete(body) ==>
        r == Fail(400, MissingFields, []) && attempts == old(attempts) && nextAttemptId == old(nextAttemptId)
      ensures session.Some? && SubmissionComplete(body) && IntColumn(Lookup(body, "plan_id")).None? ==>
        r == Fail(500, SaveFailed, []) && attempts == old(attempts) && nextAttemptId == old(nextAttemptId)
      ensures session.Some? && SubmissionComplete(body) && IntColumn(Lookup(body, "plan_id")).Some? ==>
        var key := IntColumn(Lookup(body, "plan_id")).value;
        && (Attempted(old(attempts), session.value, key) ==>
              r == Fail(409, AlreadySubmitted, []) && attempts == old(attempts) && nextAttemptId == old(nextAttemptId))
        && (!Attempted(old(attempts), session.value, key)
            && (IntColumn(Lookup(body, "score")).None? || IntColumn(TotalOf(body)).None?) ==>
              r == Fail(500, SaveFailed, []) && attempts == old(attempts) && nextAttemptId == old(nextAttemptId))
        && (!Attempted(old(attempts), session.value, key)
            && IntColumn(Lookup(body, "score")).Some? && IntColumn(TotalOf(body)).Some? ==>
              && r == Ok(200, Receipt(Lookup(body, "score"), TotalOf(body)))
              && attempts == old(attempts) + [Attempt(old(nextAttemptId), session.value, key,
                                                      Lookup(body, "answers"), IntColumn(Lookup(body, "score")).value,
                                                      IntColumn(TotalOf(body)).value)]
              && nextAttemptId == old(nextAttemptId) + 1)
    {
      if session.None? {
        return Fail(401, Unauthorized, []);
      }
      var user := session.value;
      if !SubmissionComplete(body) {
        return Fail(400, MissingFields, []);
      }
      var key := IntColumn(Lookup(body, "plan_id"));
      if key.None? {
        return Fail(500, SaveFailed, []);
      }
      if HasAttempt(attempts, user, key.value) {
        return Fail(409, AlreadySubmitted, []);
      }
      var score, total := Lookup(body, "score"), TotalOf(body);
      var scoreColumn, totalColumn := IntColumn(score), IntColumn(total);
      if scoreColumn.None? || totalColumn.None? {
        return Fail(500, SaveFailed, []);
      }
      attempts := attempts + [Attempt(nextAttemptId, user, key.value, Lookup(body, "answers"), scoreColumn.value, totalColumn.value)];
      nextAttemptId := nextAttemptId + 1;
      r := Ok(200, Receipt(score, total));
    }
  }

  /**
   * Asking twice for the same subject gives the same plan, whatever the model
   * replies the second time: the first call keeps the old rows and adds at
   * most the subject's plan, and the second call adds no row and answers
   * with that plan as stored.
   */
  method GenerateTwice(
    store: PlanStore, session: Option<nat>, subject: Field, level: Field, subjects: seq<Subject>,
    reply: UpstreamReply, secondReply: UpstreamReply, loads: string -> Option<Json>)
    returns (first: Reply<PlanView>, second: Reply<PlanView>)
    requires store.Valid()
    modifies store
    ensures store.Valid()
    ensures first.Ok? ==>
      && |old(store.plans)| <= |store.plans| <= |old(store.plans)| + 1
      && store.plans[..|old(store.plans)|] == old(store.plans)
      && store.attempts == old(store.attempts)
    ensures first.Ok? ==> DriverAccepts(first.value.summary) && second == Ok(200, AsStored(first.value))
    ensures first.Ok? && IsColumnText(first.value.summary) ==> second == first
  {
    first := store.GeneratePlan(session, subject, level, subjects, reply, loads);
    ghost var middle := store.plans;
    second := store.GeneratePlan(session, subject, level, subjects, secondReply, loads);
    if first.Ok? {
      assert store.plans == middle;
    }
  }

  /**
   * A plan handed out by generation is the one the saved-plan read returns to
   * its owner, with the summary as its TEXT column holds it.
   */
  method GenerateThenRead(
    store: PlanStore, user: nat, subject: Field, level: Field, subjects: seq<Subject>,
    reply: UpstreamReply, loads: string -> Option<Json>)
    returns (generated: Reply<PlanView>, saved: Reply<PlanView>)
    requires store.Valid() && SubjectIdsDistinct(subjects) && user != 0
    modifies store
    ensures generated.Ok? ==> DriverAccepts(generated.value.summary) && saved == Ok(200, AsStored(generated.value))
    ensures generated.Ok? && IsColumnText(generated.value.summary) ==> saved == generated
  {
    generated := store.GeneratePlan(Some(user), subject, level, subjects, reply, loads);
    if generated.Ok? {
      var k := FindSubject(subjects, subject.s, level.s, user).value;
      var i := FindPlan(store.plans, subjects[k].id).value;
      SavedPlanOfOwner(store.plans, subjects, i, k, user);
      saved := store.GetSavedPlan(Some(user), generated.value.id, subjects);
    } else {
      saved := generated;
    }
  }

  /** Once a submission for a plan is accepted or refused as a duplicate, the result read reports it attempted. */
  method SubmitThenCheck(store: PlanStore, user: nat, body: map<string, Json>, planId: nat)
    returns (submitted: Reply<Receipt>, result: Reply<bool>)
    requires store.Valid()
    requires IntColumn(Lookup(body, "plan_id")) == Some(planId)
    modifies store
    ensures submitted.status == 200 || submitted.status == 409 ==> result == Ok(200, true)
    ensures submitted.Fail? && submitted.status != 409 ==> store.attempts == old(store.attempts)
  {
    submitted := store.SubmitQuiz(Some(user), body);
    if submitted.Ok? {
      AttemptedAfterInsert(old(store.attempts), store.attempts[|store.attempts| - 1], user, planId);
    }
    result := store.GetQuizResult(Some(user), planId);
  }
}
