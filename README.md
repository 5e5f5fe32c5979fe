# studyAiBudy, modelled in Dafny

studyAiBudy is a study-plan service. A user signs up, registers subjects, asks an
AI model for a study plan and quiz per subject and level, and submits each quiz
once. This project models the deterministic logic behind that:

- **Plans and quiz attempts** (`study_plan.py`), in modules `ReplyCleanup` and `StudyPlan`:
  - `generate_plan` is get-or-create, keyed by subject. It cleans the model's reply of code
    fences, reads three keys with defaults, and inserts one row.
  - `submit_quiz` accepts at most one attempt per user and plan.
  - `get_quiz_result` reports whether an attempt exists.
  - `get_saved_plan` returns a plan only to the owner of its subject.

  The class `StudyPlan.PlanStore` holds the `study_plans` and `quiz_attempts` tables as
  sequences of rows. Its methods change them the way the handlers' INSERTs do.
- **Subjects** (`subjects.py`), in module `Subjects`:
  - add: trims, defaults the level, and refuses a duplicate name;
  - delete and edit: scoped to the owner;
  - listing: a join with `study_plans` for the plan id, ordered by `updated_at` descending.

  The class `Subjects.SubjectTable` holds the `subjects` table.
- **The older subject handlers** (`fetch_plan.py`, not registered with the app), in module
  `FetchPlan`. They use the same table, with no trimming, no level default, no join and no
  ordering.
- **Sign-up** (`register.py`), in module `Register`:
  - the three validators, with each regular expression written as a predicate on strings;
  - the ordered list of error messages;
  - the duplicate-email check and the insert into `Register.UserTable`.
- **The quiz page** (`frontend/js/study_plan.js`), in module `QuizClient`. The class
  `QuizSession` holds `currentQIndex` and `userAnswers`:
  - `renderQuestion` and `checkAnswer` step through the questions;
  - the correct-answer count;
  - the request body and the status mapping of `saveQuizAnswers`.

Shared modules:
- `Text`: Python's `str.strip` and `isspace`, JavaScript's `trim`, ASCII case mapping.
- `Http`: decoded JSON values, request fields that may be absent, null or a string, and replies.
- `Tables`: the rows of the four tables and the invariants over whole tables.

Each handler is one call. The session's user id, the request body, the model's reply, the
JSON decoder and the clock are its parameters.

Some facts about the code that the model keeps:
- Plan generation calls the model once and parses its reply once. There is no retry and no fallback plan.
- The reply is not cut down to its outermost braces, and trailing commas are not repaired.
- No schema or count check (7 weeks, 10 questions) is made on the parsed plan.
- A non-200 status from the model is passed on to the client as an error.
- A duplicate subject gives 400.

## Model

| member | source | states |
|---|---|---|
| Text.Trim | backend/register.py:33-39 | The stripped text begins and ends with a non-blank character, and is empty exactly when the whole text is blank. |
| Text.TrimKeepsMiddle | backend/register.py:33-39 | The stripped text is the text less a prefix and a suffix that are wholly blank. |
| Text.TrimBounds | backend/register.py:33-39 | Names that blank prefix and blank suffix: the text is prefix, stripped text and suffix, in that order. |
| Text.TrimIgnoresPadding | backend/register.py:33-39 | Blank padding on either side of a text does not change what strip returns. |
| Text.TrimIdempotent | backend/study_plan.py:183-188 | Stripping an already stripped text changes nothing. |
| Text.Any | backend/register.py:22-28 | A one-class `re.search` succeeds exactly when some character is in the class. |
| Text.AsciiLower | backend/register.py:98 | Lower-casing keeps the length, maps each ASCII capital to its small letter and leaves every other character alone. |
| Text.AsciiUpper | frontend/js/study_plan.js:161 | Upper-casing keeps the length, maps each ASCII small letter to its capital and leaves every other character alone. |
| Register.MatchEmailIsEmailShape | backend/register.py:13-14 | The deterministic matcher accepts exactly the strings made of: a local part, "@", a domain, ".", and two or more letters. |
| Register.IsValidEmail | backend/register.py:9-14 | An email is valid exactly when it has the shape, or is the shape followed by one "\n"; the empty string is refused. |
| Register.ShapeEndsInLetters | backend/register.py:13 | A matching address ends in at least two ASCII letters. |
| Register.EmailAdmitsTrailingNewline | backend/register.py:13-14 | "ab@cd.ef\n" is accepted, because `$` matches before a final newline. |
| Register.EmailRefusesTwoNewlines | backend/register.py:13-14 | "ab@cd.ef\n\n" is refused. |
| Register.EmailRefusesOneLetterDomain | backend/register.py:13 | A one-letter top-level domain is refused. |
| Register.ValidEmailIsAscii | backend/register.py:98 | A valid email is all ASCII, so the ASCII lower-casing of the model is all of `lower()` on it. |
| Register.IsStrongPassword | backend/register.py:16-30 | A password is strong exactly when it has at least 8 characters, including a lower-case letter, a capital, a digit and one of the special characters. |
| Register.IsValidName | backend/register.py:32-39 | A name is valid exactly when its stripped form has 2 to 100 characters, each an ASCII letter, whitespace, a hyphen or an apostrophe. |
| Register.IsValidNameIgnoresPadding | backend/register.py:32-39 | Surrounding whitespace never changes the name verdict. |
| Register.SameStripSameVerdict | backend/register.py:32-39 | The name verdict depends only on the stripped name. |
| Register.SignupErrorsInOrder | backend/register.py:56-74 | The error list is empty exactly when all three fields pass. It holds one message per failing field, in the order name, email, password: "required" for a missing field, the format message otherwise. |
| Register.UserTable.Signup | backend/register.py:42-106 | Any validation message gives 400 with every message and no change. An email already stored gives 409 and no change. Otherwise exactly one user is appended, with the next id, the stripped name and the lower-cased email, and 201 is returned. |
| Register.UserTable.Insert | backend/register.py:96-100 | One row is appended with the next AUTO_INCREMENT id; ids stay below the counter and distinct. |
| ReplyCleanup.DropLeadingFence | backend/study_plan.py:186 | Without a fence at the very start the text is unchanged; the substitution never lengthens it. |
| ReplyCleanup.LeadingFenceRemoved | backend/study_plan.py:186 | After a leading fence, what is removed is exactly the fence, the "json" tag when it follows, and then only whitespace; what remains does not begin with whitespace. |
| ReplyCleanup.LeadingFenceOfWrapped | backend/study_plan.py:186 | A "```json" or bare "```" fence, any whitespace after it and any whitespace after that are removed together, and nothing more. |
| ReplyCleanup.DropTrailingFence | backend/study_plan.py:187 | The trailing substitution removes only a suffix. |
| ReplyCleanup.DropsClosingFence | backend/study_plan.py:187 | A closing fence at the very end is removed and nothing before it. |
| ReplyCleanup.CleanReply | backend/study_plan.py:183-188 | The cleaned text is no longer than the reply and does not begin or end with whitespace. |
| ReplyCleanup.CleanUnfenced | backend/study_plan.py:183-188 | A reply with no fence at either end, once stripped, comes out as the stripped reply. |
| ReplyCleanup.StrippedLacksNewlineFence | backend/study_plan.py:187 | After the first strip, the "fence then newline" case of `$` cannot arise. |
| ReplyCleanup.StripKeepsBackticks | backend/study_plan.py:183-185 | Stripping leaves alone a reply that begins and ends with a backtick. |
| ReplyCleanup.BlankBodyThenFence | backend/study_plan.py:186-187 | Whitespace before a fence is all removed, leaving the fence alone. |
| ReplyCleanup.TextThenFence | backend/study_plan.py:186-187 | With a non-blank body, the closing fence goes and the whitespace before it stays until the final strip. |
| ReplyCleanup.StripBodyPadding | backend/study_plan.py:188 | The final strip removes that whitespace and the body's own padding. |
| ReplyCleanup.CleanFenced | backend/study_plan.py:183-188 | A body wrapped in a "```json" or "```" fence and a closing "```", with any whitespace between fences and body, comes out as the stripped body. |
| ReplyCleanup.CleanOpenedOnly | backend/study_plan.py:183-188 | A body after an opening fence that is never closed comes out as the stripped body, unless that body itself ends in a fence. |
| ReplyCleanup.CleanClosedOnly | backend/study_plan.py:183-188 | A body before a closing fence that was never opened comes out as the stripped body, unless that body itself starts with a fence. |
| ReplyCleanup.TickRun | backend/study_plan.py:186-187 | A text not opened by a fence looks opened once a fence follows only when it is one or two backticks with nothing after them. |
| ReplyCleanup.ClosedTicks | backend/study_plan.py:183-188 | In that case the leading substitution takes the fence and the trailing one leaves the ticks: the reply comes out as those ticks. |
| ReplyCleanup.ReadReply | backend/study_plan.py:177-194 | A non-200 status is passed on together with the model's response body. Fields are read exactly when the status is 200, there is candidate text, and it decodes to a JSON object; any other 200 reply is unusable. A missing summary, roadmap or quiz_questions key reads as "", [] or [] respectively; a present key reads as its value. |
| Tables.NatText | backend/db.py:69 | The decimal text of a number the driver sends is non-empty and all ASCII digits. |
| Tables.NatTextValue | backend/db.py:69 | Reading that text back as a decimal gives the number. |
| Tables.ColumnText | backend/db.py:66-86 | The driver refuses exactly arrays and objects, and the query then fails. A string or null is stored as itself, a number as its decimal text and a boolean as "1" or "0"; the result is always a string or null. |
| Tables.ColumnTextIdempotent | backend/db.py:66-86 | Storing what a TEXT column gave back stores it unchanged. |
| Tables.NumberTextReadsBack | backend/study_plan.py:197-207 | A non-negative number stored in a TEXT column comes back as digits whose decimal value is that number. |
| StudyPlan.FindSubject | backend/study_plan.py:98-104 | Finds the first subject row matching name, level and user, or reports that none matches. |
| StudyPlan.FindPlan | backend/study_plan.py:109-119 | Finds the first plan row of the subject, or reports that none exists. |
| StudyPlan.OwnerRow | backend/study_plan.py:237-245 | Finds a subject row with the plan's subject id and the caller as owner, or reports that none exists. |
| StudyPlan.SavedPlan | backend/study_plan.py:237-248 | The join finds a plan exactly when a plan row with that id belongs, through its subject, to the caller. The result is that plan seen through that subject. |
| StudyPlan.HasAttempt | backend/study_plan.py:308-312 | The lookup finds a row exactly when an attempt exists for the user and plan. |
| StudyPlan.IntColumn | backend/study_plan.py:327-334 | What an INT column (plan_id, score, total_questions) receives. A number is stored as itself and a boolean as 1 or 0. A string is stored exactly when it is all decimal digits, as its value. An array, object or null cannot be stored. |
| StudyPlan.ZeroScoreIsComplete | backend/study_plan.py:300-304 | A score of 0 passes the field check; only a missing or null score is refused. |
| StudyPlan.TotalPrefersTotalQuestions | backend/study_plan.py:301 | `total` is read only when `total_questions` is missing or falsy. |
| StudyPlan.FindPlanAfterInsert | backend/study_plan.py:197-210 | After a plan is inserted for a subject that had none, it is that subject's plan; other subjects' lookups are unchanged. |
| StudyPlan.SavedPlanOfOwner | backend/study_plan.py:237-267 | With distinct ids, the saved-plan read returns a plan to the owner of its subject. |
| StudyPlan.AttemptedAfterInsert | backend/study_plan.py:326-334 | After an attempt row is added, exactly the added (user, plan) pair has become attempted. |
| StudyPlan.PlanStore.GeneratePlan | backend/study_plan.py:83-225 | The replies: 401 without a session; 400 when subject or level is missing or empty; 404 when no subject row matches. An existing plan is returned unchanged with no insert. Otherwise a non-200 model status is passed on with the model's response body as details, and an unusable reply gives 500, both with no insert. A parsed object whose summary is an array or object gives 500 with no insert. Any other parsed object inserts exactly one row, holding the summary as its TEXT column converts it, and the answer echoes the summary as the model gave it. Every Ok answer names the subject's plan row: the row holds the answer's id, roadmap, quiz and converted summary. The plan-per-subject invariant is kept, stored summaries are strings or null, and attempts are untouched. |
| StudyPlan.PlanStore.InsertPlan | backend/study_plan.py:197-210 | One plan row is appended with the next id, keeping ids distinct and one plan per subject. |
| StudyPlan.PlanStore.GetSavedPlan | backend/study_plan.py:231-267 | A missing or zero user id gives 401. For a signed-in caller the read succeeds exactly when the join finds the plan; success returns a plan owned by the caller through its subject, and 404 is returned when the caller owns no plan with that id. |
| StudyPlan.PlanStore.GetQuizResult | backend/study_plan.py:270-284 | 401 without a session; otherwise `attempted` is true exactly when an attempt row exists for the caller and plan. |
| StudyPlan.PlanStore.SubmitQuiz | backend/study_plan.py:290-349 | 401 without a session; 400 unless the field check passes. A plan id its INT column cannot take gives 500 "Failed to save quiz results" and no change. 409 and no change when the caller already has an attempt for the plan. A score or total its INT column cannot take gives 500 "Failed to save quiz results" and no change. Otherwise exactly one attempt is appended, holding plan id, score and total as their INT columns convert them, and score and total are echoed as submitted. Plans are untouched, and there is at most one attempt per user and plan. |
| StudyPlan.GenerateTwice | backend/study_plan.py:108-137 | After a successful generation, a second one for the same subject returns that plan as stored, whatever the model replies: the same answer when the summary was a string or null, and the summary converted to text otherwise. Over both calls the old plan rows are kept as a prefix, at most one row is added, and the attempts table is as it was. |
| StudyPlan.GenerateThenRead | backend/study_plan.py:231-267 | A plan returned by generation is what the saved-plan read returns to its owner, with the summary as its TEXT column holds it. When the summary was a string or null, the read returns exactly the generated answer. |
| StudyPlan.SubmitThenCheck | backend/study_plan.py:270-345 | After a submission is accepted or refused as a duplicate, the result read reports the plan attempted; other failures change nothing. |
| Subjects.OwnRows | backend/subjects.py:51 | Keeps exactly the caller's rows, each as many times as it occurs in the table. |
| Subjects.OwnRowsKeepsDistinct | backend/subjects.py:51 | Filtering by owner keeps distinct subject ids distinct. |
| Subjects.PlanIdsFor | backend/subjects.py:50 | Returns the ids of the subject's plans; the list is empty exactly when the subject has no plan. |
| Subjects.JoinRow | backend/subjects.py:42-50 | The LEFT JOIN gives one row per plan of the subject, or one row with a null plan id. |
| Subjects.JoinRowsComeFromSubjects | backend/subjects.py:42-55 | Every joined row is one of the given subjects. Its plan id is null exactly when the subject has no plan; otherwise it is the id of one of the subject's plans. |
| Subjects.AtMostOnePlanId | backend/subjects.py:50 | With one plan per subject, a subject has at most one plan id. |
| Subjects.JoinOneRowPerSubject | backend/subjects.py:42-55 | With one plan per subject, the join has exactly one row per subject. |
| Subjects.NewestFirstPairwise | backend/subjects.py:52 | In a newest-first listing, every row has an `updated_at` no smaller than every later row's. |
| Subjects.InsertByUpdated | backend/subjects.py:52 | Inserting into a newest-first list keeps it newest first and adds exactly that row. |
| Subjects.SortByUpdated | backend/subjects.py:52 | The sort is newest first and a permutation of its input. |
| Subjects.Listing | backend/subjects.py:42-55 | The listing is newest first and a permutation of the caller's joined rows. |
| Subjects.ListingIsOwnSubjects | backend/subjects.py:42-55 | Only the caller's subjects are listed. A row's plan id is null exactly when its subject has no plan, and otherwise is the id of one of that subject's plans. |
| Subjects.ListingOneRowPerSubject | backend/subjects.py:42-55 | With one plan per subject, the listing has exactly one row per subject of the caller. |
| Subjects.HasName | backend/subjects.py:89-94 | The lookup finds a row exactly when the caller already has a subject with that name. |
| Subjects.AddDecision | backend/subjects.py:77-104 | Trims name and level. The level defaults to "General" only when the key is missing, and an explicit "" stays "". An empty trimmed name gives 400 "Subject name required". An existing (user, name) gives 400 "Subject already exists". A null name or level is a server error. Otherwise the trimmed pair is inserted. |
| Subjects.AddDecisionAsWritten | backend/subjects.py:73-114 | As written, the 400 for an empty name never comes out; it differs from the intended decision only by turning into a 500. |
| Subjects.AsWrittenDiffersOnEmptyName | backend/subjects.py:83-84 | The code as written and the intended decision differ exactly when the trimmed name is empty. |
| Subjects.BlankNameIsServerError | backend/subjects.py:79-84 | For a name of two spaces, the intended reply is 400, and the handler as written answers 500. |
| Subjects.InsertKeepsNamesUnique | backend/subjects.py:89-103 | Appending a row whose (user, name) pair is new keeps (user, name) unique. |
| Subjects.Without | backend/subjects.py:129-132 | The DELETE removes exactly the rows with that id and owner, and keeps ids distinct. |
| Subjects.Renamed | backend/subjects.py:162-165 | The UPDATE sets the name and `last_studied` of exactly the rows with that id and owner; every other row is unchanged. |
| Subjects.RenamedKeepsIds | backend/subjects.py:162-165 | Renaming keeps every id, owner, level and `updated_at`, so ids stay distinct. |
| Subjects.EditCanDuplicateName | backend/subjects.py:154-167 | Edit makes no uniqueness check: renaming one subject to another's name breaks (user, name) uniqueness. |
| Subjects.SubjectTable.GetSubjects | backend/subjects.py:26-68 | 401 without a session; otherwise the caller's joined rows, newest first. |
| Subjects.SubjectTable.InsertRow | backend/subjects.py:99-103 | One row is appended with the next id; ids stay distinct. |
| Subjects.SubjectTable.AddSubject | backend/subjects.py:71-114 | 401 and no change without a session. Otherwise the table follows the intended decision `Subjects.AddDecision`, with 400 for a blank name; the handler as written answers 500 there instead, which is `Subjects.AddDecisionAsWritten`. A refusal changes nothing, and an insert appends exactly one row and gives 201. (user, name) uniqueness is kept. |
| Subjects.SubjectTable.DeleteSubject | backend/subjects.py:117-141 | 401 and no change without a session; otherwise only the caller's row with that id is removed, and 200 is reported even when nothing matched. |
| Subjects.SubjectTable.EditSubject | backend/subjects.py:144-174 | 401 without a session; 400 and no change without a name; otherwise only the caller's row with that id is renamed and stamped. |
| Subjects.OtherUsersUntouched | backend/subjects.py:117-174 | Delete and edit leave every other user's rows exactly as they were. |
| Subjects.WithoutKeepsOthers | backend/subjects.py:129-132 | Deleting leaves every other user's rows as they were. |
| Subjects.RenamedKeepsOthers | backend/subjects.py:162-165 | Editing leaves every other user's rows as they were. |
| FetchPlan.Project | backend/fetch_plan.py:40-44 | Each listed row carries its subject's id, name, level and `updated_at`, in table order. |
| FetchPlan.GetSubjects | backend/fetch_plan.py:25-56 | 401 without a session. Otherwise exactly the caller's subjects, with no plan id, each listed once: in a table with distinct ids, no id is listed twice. |
| FetchPlan.LegacyAddDecision | backend/fetch_plan.py:68-94 | A truthy name is required and used as sent. An existing (user, name) is refused with 400. The level is stored as sent, or null when missing. |
| FetchPlan.LegacyStoresBlankName | backend/fetch_plan.py:69-74 | A name of spaces is stored by the older handler and refused by the current one. |
| FetchPlan.AddSubject | backend/fetch_plan.py:59-101 | 401 and no change without a session; otherwise the table follows the legacy decision, and (user, name) uniqueness is kept. |
| FetchPlan.DeleteSubject | backend/fetch_plan.py:104-128 | Same as the current delete: only the caller's row with that id goes. |
| FetchPlan.EditSubject | backend/fetch_plan.py:131-161 | Same as the current edit: a name is required, and only the caller's row with that id changes. |
| QuizClient.Letter | frontend/js/study_plan.js:130-131 | Option i is labelled with the character 65 + i, a capital letter for the first 26 options. |
| QuizClient.LettersDistinct | frontend/js/study_plan.js:130-136 | The first 26 options all have different letters. |
| QuizClient.AnswerIsNormalised | frontend/js/study_plan.js:161 | An answer written " b " is expected as "B", the letter of the second option. |
| QuizClient.PaddedAnswerTrims | frontend/js/study_plan.js:161 | `trim` removes the spaces around a one-letter answer. |
| QuizClient.CorrectCount | frontend/js/study_plan.js:175 | The count is at most the number of records. It equals that number exactly when every record is right, and is 0 exactly when none is. |
| QuizClient.CorrectCountAppend | frontend/js/study_plan.js:164-175 | Each new record adds one to the count exactly when it is right. |
| QuizClient.RecordsFitAppend | frontend/js/study_plan.js:160-166 | A record for the next question, holding one of its option letters and the normalised answer, keeps the records in step with the questions. |
| QuizClient.QuizSession.Render | frontend/js/study_plan.js:116-149 | Results are shown exactly when every question is answered, with the correct count and the total. Otherwise question `currentQIndex` is shown, with option i lettered `Letter(i)`. |
| QuizClient.QuizSession.CheckAnswer | frontend/js/study_plan.js:154-169 | With no selection nothing changes. Otherwise exactly one record is appended (the question index, the chosen letter and the normalised answer), and the index advances by one. The record invariant is kept. |
| QuizClient.Payload | frontend/js/study_plan.js:217-224 | The body has exactly the keys plan_id, answers, score and total_questions. It sends the page's plan id, every record, the correct count as score, and the question count under total_questions. |
| QuizClient.FinishedQuizIsComplete | frontend/js/study_plan.js:174-186 | A finished quiz of at least one question, for a plan id of digits, passes the submit handler's field check even with a score of 0. The handler stores that plan id and the score and total the page counted. |
| QuizClient.EmptyQuizIsRefused | frontend/js/study_plan.js:174-186 | A quiz with no questions sends a body the submit handler refuses. |
| QuizClient.SaveOutcome | frontend/js/study_plan.js:233-246 | Status 409 resolves to "Quiz already submitted". Any other status outside 200-299 rejects. A 2xx status shows the server's message. |

## Left out

- The call to the AI model and its prompt: the reply is an input, made of its status, its body, and the text of the first candidate, which is absent when the body has no candidate. Network errors are not modelled.
- `json.loads` and `json.dumps`: the decoder is a function parameter, and tables store decoded values. `json.loads` on stored text is taken to give back what was stored.
- Exception texts: a 500 whose body is the text of a Python exception carries a fixed message (`Http.ServerError`, or "Server error" for plan generation).
- `LAST_INSERT_ID` on a pooled connection: the echoed plan id is taken to be the inserted row's id.
- Database failures other than the ones named, foreign keys, and `ON DELETE` behaviour of `study_plans` are not modelled.
- Collation: names and emails are compared exactly. MySQL's default collation compares them case-insensitively and ignores trailing spaces.
- Register.UserTable.Signup: the duplicate check uses the email as sent, while the row stores it lower-cased. Both are modelled as written, with exact comparison.
- Subjects.SubjectTable.EditSubject: `updated_at` is left as it was. The schema's ON UPDATE clause is not part of this model.
- StudyPlan.IntColumn: a plan id, score or total given as a string that is not all decimal digits is treated as a failed insert (500), even a signed or padded number such as "-3" or " 5". MySQL accepts those, and in non-strict mode coerces any string to a number.
- Request bodies that are not JSON objects, and string fields that hold non-string JSON values: fields are absent, null or strings.
- Python's `\d` also matches non-ASCII digits, and `lower()` / `toUpperCase()` map non-ASCII letters: the model maps ASCII only. `Register.ValidEmailIsAscii` shows this is exact for stored emails.
- QuizClient.Letter: a code unit in the surrogate range (option 55231 and on) becomes U+FFFD rather than a lone surrogate.
- JSON floats: numbers are integers in the model. A float sent as `score`, `total_questions` or `plan_id` (backend/study_plan.py:300-334) would be rounded by the MySQL INT columns; the model has no floats.
- Malformed quiz entries: every question has a string `answer` and a list of `options`. In the page an entry without `options` throws at frontend/js/study_plan.js:130 and one without a string `answer` throws at frontend/js/study_plan.js:161, and either way the quiz stops there; the model's types rule both out.
- QuizClient.SaveOutcome: a `fetch` that fails on the network, and a body that is not JSON, are not modelled.
- The username lookups, `login.py`, the progress bar percentage, the HTML rendering and the alert are not modelled, and neither are the other pages' scripts.
- ReplyCleanup.CleanReply: its own contract gives only the shape of the result. Its value is pinned down by CleanUnfenced, CleanFenced, CleanOpenedOnly, CleanClosedOnly and ClosedTicks, which cover a reply without fences, with both fences, with only the opening one and with only the closing one. A fence tagged other than "json" (say "```python") is not covered by a lemma: the tag's letters stay in the text.
- Concurrency: requests run one at a time, so check-then-insert races on plans, attempts, subjects and users are not modelled.
- The password hash: `bcrypt` is a foreign call, and its result is a parameter of Signup.

## Findings

| source | as written | input that shows it | evidently intended | confidence | as-written member | corrected member |
|---|---|---|---|---|---|---|
| backend/subjects.py:83-84 | `add_subject` never binds `cursor` or `conn` before the empty-name check. Returning the 400 runs the `finally` block's `if cursor:`, which raises, so the request ends in a 500. | `{"name": "  "}`, or a body without "name" | 400 "Subject name required" | high; not executed | Subjects.AddDecisionAsWritten | Subjects.AddDecision |
