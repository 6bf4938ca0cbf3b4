/** Login credentials and the login decision (`database/auth.py`): the
    username and initial password derived from an employee's email and date
    of birth, the sanitising of a typed username, and the order in which
    `authenticate_user` turns a login attempt away.

    Argon2id hashing is a foreign call: the check of a typed password
    against a stored hash is the parameter `verify`. */
module Auth {
  import opened Wrappers
  import opened Text
  import opened Dates

  /** A row of the `users` table, as far as the login reads it. */
  datatype User = User(
    username: string,
    passwordHash: string,
    userType: string,
    employeeId: Option<string>,
    isActive: int)

  /** What a successful login returns: the stored username, the user type and
      the linked employee id. */
  datatype Login = Login(username: string, userType: string, employeeId: Option<string>)

  // ---------------------------------------------------------------------------
  // Credentials
  // ---------------------------------------------------------------------------

  /** `generate_employee_username`: the whole email, lower-cased. */
  function GenerateUsername(email: string): (r: string)
    ensures |r| == |email|
    ensures forall i :: 0 <= i < |r| ==> !IsUpper(r[i])
    ensures forall i :: 0 <= i < |r| ==> r[i] == email[i] || (IsUpper(email[i]) && r[i] == LowerChar(email[i]))
  {
    Lower(email)
  }

  /** Two emails that differ only in letter case give the same username. */
  lemma UsernameIgnoresCase(email: string)
    ensures GenerateUsername(Lower(email)) == GenerateUsername(email)
  {
    LowerIdempotent(email);
  }

  /** The part of an email before the first `@` (all of it when there is none). */
  function LocalPart(email: string): (r: string)
    ensures '@' !in r
    ensures r == email[..IndexOf(email, '@')]
  {
    SplitJoin(email, '@');
    Split(email, '@')[0]
  }

  /** `generate_employee_password`: the lower-cased local part of the email,
      then the month, day and year fields of the birth date. The unpacking
      of `dob.split("-")` raises unless there are exactly three fields: that
      is `None`. */
  function GeneratePassword(email: string, dob: string): (r: Option<string>)
    ensures r.Some? <==> |Split(dob, '-')| == 3
  {
    var fields := Split(dob, '-');
    if |fields| != 3 then None
    else Some(Lower(LocalPart(email)) + fields[1] + fields[2] + fields[0])
  }

  /** The birth date written back as `YYYY-MM-DD` from the last eight
      characters of a password in the `MMDDYYYY` layout. */
  function BirthDateOf(password: string): (r: string)
    requires |password| >= 8
    ensures |r| == 10
  {
    var n := |password|;
    password[n - 4..] + "-" + password[n - 8..n - 6] + "-" + password[n - 6..n - 4]
  }

  /** A password made from a `YYYY-MM-DD` birth date starts with the
      lower-cased local part of the email and gives the birth date back. */
  lemma {:induction false} PasswordKeepsBirthDate(email: string, dob: string)
    requires |Split(dob, '-')| == 3
    requires |Split(dob, '-')[0]| == 4 && |Split(dob, '-')[1]| == 2 && |Split(dob, '-')[2]| == 2
    ensures GeneratePassword(email, dob).Some?
    ensures var p := GeneratePassword(email, dob).value;
      && |p| == |LocalPart(email)| + 8
      && p[..|LocalPart(email)|] == Lower(LocalPart(email))
      && '@' !in p[..|LocalPart(email)|]
      && BirthDateOf(p) == dob
  {
    var fields := Split(dob, '-');
    var y, m, d := fields[0], fields[1], fields[2];
    SplitJoin(dob, '-');
    assert fields == [y, m, d];
    assert Join(fields, '-') == y + "-" + m + "-" + d by {
      assert fields[1..] == [m, d];
      assert [m, d][1..] == [d];
      assert Join([m, d], '-') == m + ['-'] + d;
    }
    var local := Lower(LocalPart(email));
    var p := local + m + d + y;
    var n := |p|;
    assert p[n - 4..] == y;
    assert p[n - 8..n - 6] == m;
    assert p[n - 6..n - 4] == d;
    assert p[..|local|] == local;
    assert forall i :: 0 <= i < |local| ==> local[i] != '@' by {
      forall i | 0 <= i < |local| ensures local[i] != '@' {
        assert LocalPart(email)[i] != '@';
      }
    }
  }

  /** The initial password of an employee whose birth date is stored in the
      ISO layout: local part, then `MMDDYYYY`. */
  lemma PasswordOfIsoDate(email: string, c: CivilDate)
    requires IsValidDate(c)
    ensures GeneratePassword(email, Format(c)).Some?
    ensures var p := GeneratePassword(email, Format(c)).value;
      |p| >= 8 && BirthDateOf(p) == Format(c)
  {
    var y, m, d := FormatPadded(c.year, 4), FormatPadded(c.month, 2), FormatPadded(c.day, 2);
    FormatPaddedDigits(c.year, 4);
    FormatPaddedDigits(c.month, 2);
    FormatPaddedDigits(c.day, 2);
    assert NoSeparator([y, m, d], '-');
    assert Join([y, m, d], '-') == Format(c) by {
      assert [y, m, d][1..] == [m, d];
      assert [m, d][1..] == [d];
      assert Join([m, d], '-') == m + ['-'] + d;
    }
    JoinSplit([y, m, d], '-');
    PasswordKeepsBirthDate(email, Format(c));
  }

  /** `sanitize_username`: surrounding whitespace removed, then lower-cased. */
  function SanitizeUsername(username: string): (r: string)
    ensures |r| == |Strip(username)| <= |username|
    ensures forall i :: 0 <= i < |r| ==>
      var c := Strip(username)[i];
      if IsUpper(c) then r[i] as int == c as int + 32 else r[i] == c
    ensures forall i :: 0 <= i < |r| ==> !IsUpper(r[i])
    ensures r == [] <==> IsBlank(username)
    ensures r == [] || (!IsSpace(r[0]) && !IsSpace(r[|r| - 1]))
  {
    var t := Strip(username);
    assert t != [] ==> !IsSpace(Lower(t)[0]) && !IsSpace(Lower(t)[|t| - 1]) by {
      if t != [] {
        LowerKeepsSpaces(t, 0);
        LowerKeepsSpaces(t, |t| - 1);
      }
    }
    Lower(t)
  }

  /** Sanitising twice is sanitising once. */
  lemma SanitizeIdempotent(username: string)
    ensures SanitizeUsername(SanitizeUsername(username)) == SanitizeUsername(username)
  {
    var t := Strip(username);
    var r := Lower(t);
    assert IsBlank(r) <==> r == [] by {
      if r != [] {
        LowerKeepsSpaces(t, 0);
      }
    }
    if r != [] {
      assert !IsSpace(r[0]) && !IsSpace(r[|r| - 1]);
      StripClean(r);
    }
    LowerIdempotent(t);
  }

  // ---------------------------------------------------------------------------
  // Login
  // ---------------------------------------------------------------------------

  /** `LOWER(username) = LOWER(?)`. */
  predicate NameMatches(u: User, name: string) {
    Lower(u.username) == Lower(name)
  }

  /** `fetchone()` of the case-insensitive lookup: the index of the first
      matching row in table order. */
  function FindUser(users: seq<User>, name: string): (r: Option<nat>)
    ensures r.None? <==> forall i :: 0 <= i < |users| ==> !NameMatches(users[i], name)
    ensures r.Some? ==> r.value < |users| && NameMatches(users[r.value], name)
    ensures r.Some? ==> forall j :: 0 <= j < r.value ==> !NameMatches(users[j], name)
  {
    if |users| == 0 then None
    else if NameMatches(users[0], name) then Some(0)
    else
      var r := FindUser(users[1..], name);
      assert forall i :: 1 <= i < |users| ==> users[i] == users[1..][i - 1];
      if r.Some? then Some(r.value + 1) else None
  }

  /** `authenticate_user`: the typed name is sanitised first; then the login
      is refused, in this order, when no row matches, when the matching row
      is not active, and when the password does not verify against its hash.
      Otherwise the stored username, user type and employee id come back. */
  function Authenticate(users: seq<User>, username: string, password: string,
                        verify: (string, string) -> bool): (r: Option<Login>)
    ensures FindUser(users, SanitizeUsername(username)).None? ==> r.None?
    ensures r.Some? <==>
      && FindUser(users, SanitizeUsername(username)).Some?
      && users[FindUser(users, SanitizeUsername(username)).value].isActive != 0
      && verify(password, users[FindUser(users, SanitizeUsername(username)).value].passwordHash)
    ensures r.Some? ==> var u := users[FindUser(users, SanitizeUsername(username)).value];
      r.value == Login(u.username, u.userType, u.employeeId)
  {
    var name := SanitizeUsername(username);
    match FindUser(users, name)
    case None => None
    case Some(i) =>
      var u := users[i];
      if u.isActive == 0 then None
      else if !verify(password, u.passwordHash) then None
      else Some(Login(u.username, u.userType, u.employeeId))
  }

  /** An inactive account is refused whatever password is typed. */
  lemma InactiveAccountRefused(users: seq<User>, username: string, password: string,
                               verify: (string, string) -> bool)
    requires FindUser(users, SanitizeUsername(username)).Some?
    requires users[FindUser(users, SanitizeUsername(username)).value].isActive == 0
    ensures Authenticate(users, username, password, verify).None?
  {
  }

  /** Surrounding whitespace and letter case in the typed name do not change
      the outcome. */
  lemma LoginIgnoresCaseAndSpace(users: seq<User>, a: string, b: string, password: string,
                                 verify: (string, string) -> bool)
    requires Lower(Strip(a)) == Lower(Strip(b))
    ensures Authenticate(users, a, password, verify) == Authenticate(users, b, password, verify)
  {
  }

  /** An active employee whose row was created from their email and birth
      date logs in with the email typed in any letter case, given that the
      stored hash verifies the generated password. */
  lemma GeneratedCredentialsLogIn(users: seq<User>, email: string, dob: string,
                                  verify: (string, string) -> bool)
    requires GeneratePassword(email, dob).Some?
    requires Strip(email) == email
    requires FindUser(users, GenerateUsername(email)).Some?
    requires var u := users[FindUser(users, GenerateUsername(email)).value];
      u.username == GenerateUsername(email) && u.isActive != 0
      && verify(GeneratePassword(email, dob).value, u.passwordHash)
    ensures Authenticate(users, email, GeneratePassword(email, dob).value, verify)
      == Some(Login(GenerateUsername(email), users[FindUser(users, GenerateUsername(email)).value].userType,
                    users[FindUser(users, GenerateUsername(email)).value].employeeId))
  {
    LowerIdempotent(email);
    assert SanitizeUsername(email) == GenerateUsername(email);
  }
}
