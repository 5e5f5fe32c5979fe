/**
 * Sign-up: the three input validators, the ordered list of validation
 * messages, and the duplicate check and insert into the users table.
 */
module Register {
  import opened Wrappers
  import opened Text
  import opened Http
  import opened Tables

  // ---------------------------------------------------------------------
  // Email: ^[a-zA-Z0-9._%+-]+@[a-zA-Z0-9.-]+\.[a-zA-Z]{2,}$ under re.match
  // ---------------------------------------------------------------------

  predicate IsLocalChar(c: char) {
    IsAsciiLetter(c) || IsAsciiDigit(c) || c == '.' || c == '_' || c == '%' || c == '+' || c == '-'
  }

  predicate IsDomainChar(c: char) {
    IsAsciiLetter(c) || IsAsciiDigit(c) || c == '.' || c == '-'
  }

  /**
   * The pattern read as a shape: a non-empty local part, "@", a non-empty
   * domain, ".", and two or more ASCII letters, covering all of `t`.
   */
  ghost predicate EmailShape(t: string) {
    exists at, dot ::
      && 0 < at && at + 1 < dot && dot + 2 < |t|
      && t[at] == '@' && t[dot] == '.'
      && All(t[..at], IsLocalChar)
      && All(t[at + 1..dot], IsDomainChar)
      && All(t[dot + 1..], IsAsciiLetter)
  }

  /**
   * A deterministic matcher for the same pattern. The local part cannot hold
   * "@", so the "@" is the first one; the letters after the last dot cannot
   * hold ".", so the dot is the last one.
   */
  function MatchEmail(t: string): bool {
    match FirstIndexOf(t, '@')
    case None => false
    case Some(at) =>
      var rest := t[at + 1..];
      match LastIndexOf(rest, '.')
      case None => false
      case Some(dot) =>
        && 0 < at && All(t[..at], IsLocalChar)
        && 0 < dot && All(rest[..dot], IsDomainChar)
        && dot + 2 < |rest| && All(rest[dot + 1..], IsAsciiLetter)
  }

  /** The matcher accepts exactly the strings of the shape. */
  lemma MatchEmailIsEmailShape(t: string)
    ensures MatchEmail(t) <==> EmailShape(t)
  {
    if MatchEmail(t) {
      MatchedIsShape(t);
    }
    if EmailShape(t) {
      var at, dot :|
        && 0 < at && at + 1 < dot && dot + 2 < |t|
        && t[at] == '@' && t[dot] == '.'
        && All(t[..at], IsLocalChar)
        && All(t[at + 1..dot], IsDomainChar)
        && All(t[dot + 1..], IsAsciiLetter);
      ShapeIsMatched(t, at, dot);
    }
  }

  lemma MatchedIsShape(t: string)
    requires MatchEmail(t)
    ensures EmailShape(t)
  {
    var at := FirstIndexOf(t, '@').value;
    var rest := t[at + 1..];
    var dot := LastIndexOf(rest, '.').value;
    var d := at + 1 + dot;
    assert t[at + 1..d] == rest[..dot];
    assert t[d + 1..] == rest[dot + 1..];
    assert t[d] == rest[dot];
    assert 0 < at && at + 1 < d && d + 2 < |t| && t[at] == '@' && t[d] == '.';
    assert All(t[..at], IsLocalChar) && All(t[at + 1..d], IsDomainChar) && All(t[d + 1..], IsAsciiLetter);
  }

  lemma ShapeIsMatched(t: string, at: nat, dot: nat)
    requires 0 < at && at + 1 < dot && dot + 2 < |t|
    requires t[at] == '@' && t[dot] == '.'
    requires All(t[..at], IsLocalChar)
    requires All(t[at + 1..dot], IsDomainChar)
    requires All(t[dot + 1..], IsAsciiLetter)
    ensures MatchEmail(t)
  {
    LocalPartHasNoAt(t, at);
    var rest := t[at + 1..];
    var d := dot - at - 1;
    assert rest[..d] == t[at + 1..dot];
    assert rest[d + 1..] == t[dot + 1..];
    LettersHaveNoDot(rest, d);
  }

  /** The "@" after a local part is the first one. */
  lemma LocalPartHasNoAt(t: string, at: nat)
    requires at < |t| && t[at] == '@' && All(t[..at], IsLocalChar)
    ensures FirstIndexOf(t, '@') == Some(at)
  {
    forall k | 0 <= k < at ensures t[k] != '@' {
      assert t[..at][k] == t[k];
    }
  }

  /** A dot followed only by letters is the last one. */
  lemma LettersHaveNoDot(rest: string, d: nat)
    requires d < |rest| && rest[d] == '.' && All(rest[d + 1..], IsAsciiLetter)
    ensures LastIndexOf(rest, '.') == Some(d)
  {
    forall k | d < k < |rest| ensures rest[k] != '.' {
      assert rest[k] == rest[d + 1..][k - d - 1];
    }
  }

  /**
   * `is_valid_email`: false for the empty string; otherwise the pattern must
   * cover the whole string, except that `$` also matches before one final
   * newline.
   */
  function IsValidEmail(email: string): (r: bool)
    ensures r <==>
      || EmailShape(email)
      || (|email| > 0 && email[|email| - 1] == '\n' && EmailShape(email[..|email| - 1]))
  {
    MatchEmailIsEmailShape(email);
    if email == [] then false
    else
      MatchEmailIsEmailShape(email[..|email| - 1]);
      MatchEmail(email) || (email[|email| - 1] == '\n' && MatchEmail(email[..|email| - 1]))
  }

  /** The last two characters of a matching string are the letters of the top-level domain. */
  lemma ShapeEndsInLetters(t: string)
    requires EmailShape(t)
    ensures |t| >= 2 && IsAsciiLetter(t[|t| - 1]) && IsAsciiLetter(t[|t| - 2])
  {
    var at, dot :|
      && 0 < at && at + 1 < dot && dot + 2 < |t|
      && t[at] == '@' && t[dot] == '.'
      && All(t[..at], IsLocalChar)
      && All(t[at + 1..dot], IsDomainChar)
      && All(t[dot + 1..], IsAsciiLetter);
    assert t[dot + 1..][|t| - dot - 2] == t[|t| - 1];
    assert t[dot + 1..][|t| - dot - 3] == t[|t| - 2];
  }

  /** `$` lets one trailing newline through. */
  lemma EmailAdmitsTrailingNewline()
    ensures IsValidEmail("ab@cd.ef\n")
  {
    var email := "ab@cd.ef\n";
    var plain := email[..|email| - 1];
    assert plain == "ab@cd.ef";
    assert All(plain[..2], IsLocalChar) by { assert plain[..2] == "ab"; }
    assert All(plain[3..5], IsDomainChar) by { assert plain[3..5] == "cd"; }
    assert All(plain[6..], IsAsciiLetter) by { assert plain[6..] == "ef"; }
    assert plain[2] == '@' && plain[5] == '.' && |plain| == 8;
    assert EmailShape(plain);
  }

  /** ... but not two trailing newlines. */
  lemma EmailRefusesTwoNewlines()
    ensures !IsValidEmail("ab@cd.ef\n\n")
  {
    var twice := "ab@cd.ef\n\n";
    var once := twice[..|twice| - 1];
    if EmailShape(twice) { ShapeEndsInLetters(twice); }
    if EmailShape(once) { ShapeEndsInLetters(once); }
  }

  /** A one-letter top-level domain is refused. */
  lemma EmailRefusesOneLetterDomain()
    ensures !IsValidEmail("ab@cd.e")
  {
    var short := "ab@cd.e";
    if EmailShape(short) { ShapeEndsInLetters(short); }
    if EmailShape(short[..|short| - 1]) { ShapeEndsInLetters(short[..|short| - 1]); }
  }

  lemma ShapeIsAscii(t: string)
    requires EmailShape(t)
    ensures All(t, IsAscii)
  {
    var at, dot :|
      && 0 < at && at + 1 < dot && dot + 2 < |t|
      && t[at] == '@' && t[dot] == '.'
      && All(t[..at], IsLocalChar)
      && All(t[at + 1..dot], IsDomainChar)
      && All(t[dot + 1..], IsAsciiLetter);
    forall k | 0 <= k < |t| ensures IsAscii(t[k]) {
      if k < at {
        assert t[..at][k] == t[k];
      } else if at < k < dot {
        assert t[at + 1..dot][k - at - 1] == t[k];
      } else if dot < k {
        assert t[dot + 1..][k - dot - 1] == t[k];
      }
    }
  }

  /** A valid address is ASCII, so ASCII lower-casing is all of Python's `lower()` on it. */
  lemma ValidEmailIsAscii(email: string)
    requires IsValidEmail(email)
    ensures All(email, IsAscii)
  {
    var newline := |email| > 0 && email[|email| - 1] == '\n' && EmailShape(email[..|email| - 1]);
    assert newline || EmailShape(email);
    if newline {
      ShapeThenNewlineIsAscii(email[..|email| - 1], email);
    } else {
      ShapeIsAscii(email);
    }
  }

  lemma ShapeThenNewlineIsAscii(t: string, email: string)
    requires EmailShape(t) && email == t + "\n"
    ensures All(email, IsAscii)
  {
    ShapeIsAscii(t);
    AllAppend(t, "\n", IsAscii);
  }

  // ---------------------------------------------------------------------
  // Password strength
  // ---------------------------------------------------------------------

  /** The class `[!@#$%^&*(),.?":{}|<>]`. */
  predicate IsSpecial(c: char) {
    c in "!@#$%^&*(),.?\":{}|<>"
  }

  /** `is_strong_password`: the checks in the handler's order, each one a way to fail. */
  function IsStrongPassword(password: string): (r: bool)
    ensures |password| < 8 ==> !r
    ensures r <==>
      && |password| >= 8
      && (exists i :: 0 <= i < |password| && IsAsciiLower(password[i]))
      && (exists i :: 0 <= i < |password| && IsAsciiUpper(password[i]))
      && (exists i :: 0 <= i < |password| && IsAsciiDigit(password[i]))
      && (exists i :: 0 <= i < |password| && IsSpecial(password[i]))
  {
    if password == [] then false
    else if |password| < 8 then false
    else if !Any(password, IsAsciiLower) then false
    else if !Any(password, IsAsciiUpper) then false
    else if !Any(password, IsAsciiDigit) then false
    else if !Any(password, IsSpecial) then false
    else true
  }

  // ---------------------------------------------------------------------
  // Full name
  // ---------------------------------------------------------------------

  /** The class `[a-zA-Z\s\-']`. */
  predicate IsNameChar(c: char) {
    IsAsciiLetter(c) || IsSpace(c) || c == '-' || c == '\''
  }

  /** `is_valid_name`: the stripped name has 2 to 100 characters, all from the class. */
  function IsValidName(name: string): (r: bool)
    ensures r ==> 2 <= |Strip(name)| <= 100
    ensures r ==> name != [] && !IsSpace(Strip(name)[0]) && !IsSpace(Strip(name)[|Strip(name)| - 1])
    ensures r <==> 2 <= |Strip(name)| <= 100 && All(Strip(name), IsNameChar)
  {
    if name == [] || |Strip(name)| == 0 then false
    else if |Strip(name)| < 2 || |Strip(name)| > 100 then false
    else All(Strip(name), IsNameChar)
  }

  /** Whitespace around a name never changes the verdict. */
  lemma {:induction false} IsValidNameIgnoresPadding(name: string, before: string, after: string)
    requires All(before, IsSpace) && All(after, IsSpace)
    ensures IsValidName(before + name + after) == IsValidName(name)
  {
    var padded := before + name + after;
    TrimIgnoresPadding(name, before, after, IsSpace);
    assert Strip(padded) == Strip(name);
    SameStripSameVerdict(padded, name);
  }

  /** The verdict depends on the stripped name alone. */
  lemma SameStripSameVerdict(a: string, b: string)
    requires Strip(a) == Strip(b)
    ensures IsValidName(a) == IsValidName(b)
  {
    assert a == [] ==> Strip(a) == [];
    assert b == [] ==> Strip(b) == [];
  }

  // ---------------------------------------------------------------------
  // Sign-up
  // ---------------------------------------------------------------------

  const NameRequired := "Full name is required"
  const NameInvalid := "Name must be 2\U{2013}100 characters and contain only letters, spaces, hyphens, or apostrophes"
  const EmailRequired := "Email is required"
  const EmailInvalid := "Invalid email format"
  const PasswordRequired := "Password is required"
  const PasswordWeak :=
    "Password must be at least 8 characters long and include: "
    + "1 uppercase, 1 lowercase, 1 digit, and 1 special character (!@#$%^&* etc.)"

  predicate NameOk(f: Field) { Given(f) && IsValidName(f.s) }
  predicate EmailOk(f: Field) { Given(f) && IsValidEmail(f.s) }
  predicate PasswordOk(f: Field) { Given(f) && IsStrongPassword(f.s) }

  /** The message for one field: "required" when it is missing or empty, the format message when it fails. */
  function FieldError(f: Field, ok: bool, required: string, invalid: string): seq<string> {
    if !Given(f) then [required] else if !ok then [invalid] else []
  }

  /** The `errors` list of `signup`, built by successive appends. */
  function SignupErrors(fullname: Field, email: Field, password: Field): seq<string> {
    FieldError(fullname, NameOk(fullname), NameRequired, NameInvalid)
    + FieldError(email, EmailOk(email), EmailRequired, EmailInvalid)
    + FieldError(password, PasswordOk(password), PasswordRequired, PasswordWeak)
  }

  /**
   * The list is empty exactly when all three fields pass, holds one message
   * per failing field, and keeps the order name, email, password.
   */
  lemma SignupErrorsInOrder(fullname: Field, email: Field, password: Field)
    ensures var errors := SignupErrors(fullname, email, password);
      && (errors == [] <==> NameOk(fullname) && EmailOk(email) && PasswordOk(password))
      && |errors| == (if NameOk(fullname) then 0 else 1) + (if EmailOk(email) then 0 else 1)
                     + (if PasswordOk(password) then 0 else 1)
      && (!NameOk(fullname) ==> errors[0] == if Given(fullname) then NameInvalid else NameRequired)
      && (!EmailOk(email) ==>
            errors[if NameOk(fullname) then 0 else 1] == if Given(email) then EmailInvalid else EmailRequired)
      && (!PasswordOk(password) ==>
            errors[|errors| - 1] == if Given(password) then PasswordWeak else PasswordRequired)
  {
  }

  /** True when a stored user has exactly this email. */
  predicate EmailTaken(users: seq<User>, email: string) {
    exists i :: 0 <= i < |users| && users[i].email == email
  }

  /** The users table. */
  class UserTable {
    var users: seq<User>
    var nextId: nat

    /** Ids are below the next AUTO_INCREMENT value and distinct. */
    ghost predicate Valid()
      reads this
    {
      && (forall i :: 0 <= i < |users| ==> users[i].id < nextId)
      && UserIdsDistinct(users)
    }

    constructor ()
      ensures Valid() && users == [] && nextId == 1
    {
      users, nextId := [], 1;
    }

    /**
     * `signup`. Any validation message gives 400 with all of them and leaves
     * the table alone; an email already stored gives 409; otherwise one user
     * is added with the stripped name, the lower-cased email and `hashed`,
     * the bcrypt hash of the password, which the caller computes.
     */
    method Signup(fullname: Field, email: Field, password: Field, hashed: string) returns (r: Reply<User>)
      requires Valid()
      modifies this
      ensures Valid()
      ensures SignupErrors(fullname, email, password) != [] ==>
        && r == Fail(400, "Validation failed", SignupErrors(fullname, email, password))
        && users == old(users) && nextId == old(nextId)
      ensures SignupErrors(fullname, email, password) == [] && EmailTaken(old(users), email.s) ==>
        && r == Fail(409, "Email already registered", [])
        && users == old(users) && nextId == old(nextId)
      ensures SignupErrors(fullname, email, password) == [] && !EmailTaken(old(users), email.s) ==>
        && r == Ok(201, User(old(nextId), Strip(fullname.s), AsciiLower(email.s), hashed))
        && users == old(users) + [r.value] && nextId == old(nextId) + 1
    {
      var errors := SignupErrors(fullname, email, password);
      if errors != [] {
        return Fail(400, "Validation failed", errors);
      }
      if EmailTaken(users, email.s) {
        return Fail(409, "Email already registered", []);
      }
      var user := Insert(Strip(fullname.s), AsciiLower(email.s), hashed);
      r := Ok(201, user);
    }

    /** The INSERT: the new row takes the next AUTO_INCREMENT id. */
    method Insert(fullname: string, email: string, hashed: string) returns (user: User)
      requires Valid()
      modifies this
      ensures Valid()
      ensures user == User(old(nextId), fullname, email, hashed)
      ensures users == old(users) + [user] && nextId == old(nextId) + 1
    {
      user := User(nextId, fullname, email, hashed);
      users := users + [user];
      nextId := nextId + 1;
    }
  }
}
