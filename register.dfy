/** The registration form's validators and its submit gate. Each validator
    reads one field, applies its rules in a fixed order and reports either
    acceptance or the first rule the value breaks. What a validator does to
    the page (error texts, CSS classes) is not modelled; the server's answer
    to the duplicate-id query and the comparison of the birthday with today's
    date come in as parameters. */
module Register {
  import opened JsText

  /** The rule a field breaks; each stands for one error text of the form. */
  datatype Problem =
    | Missing        // the field is empty (after trimming, where the field is trimmed)
    | TooShort
    | TooLong
    | NotNineDigits  // the student id is not exactly nine decimal digits
    | AlreadyTaken   // the server reports the student id as already registered
    | InFuture       // the birthday lies after today
    | WrongDomain    // the e-mail address is not under @bible.ac.kr
    | TooFewKinds    // the password mixes fewer than two kinds of character
    | Mismatch       // the confirmation differs from the password

  datatype Verdict = Accepted | Rejected(problem: Problem)

  const MAX_NAME_LENGTH: nat := 11
  const STUDENT_ID_LENGTH: nat := 9
  const EMAIL_DOMAIN := "@bible.ac.kr"
  const MIN_PASSWORD_LENGTH: nat := 8
  const MAX_PASSWORD_LENGTH: nat := 15
  /** The characters of the password's "special" class, in the order the
      regular expression lists them. */
  const PASSWORD_SPECIALS := "!@#$%^&*()_+-=[]{};':\"\\|,.<>/?"

  // ---------------------------------------------------------------------
  // Name

  /** The trimmed name must be non-empty and at most eleven UTF-16 code
      units long; an all-whitespace name counts as missing. */
  function ValidateName(raw: string): (v: Verdict)
    ensures v == Rejected(Missing) <==> AllSpace(raw)
    ensures v == Rejected(TooLong) <==> !AllSpace(raw) && Utf16Length(Trim(raw)) > MAX_NAME_LENGTH
    ensures v == Accepted <==> !AllSpace(raw) && Utf16Length(Trim(raw)) <= MAX_NAME_LENGTH
  {
    TrimEmptyIffAllSpace(raw);
    var value := Trim(raw);
    if value == [] then Rejected(Missing)
    else if Utf16Length(value) > MAX_NAME_LENGTH then Rejected(TooLong)
    else Accepted
  }

  /** A name of one to eleven Hangul or ASCII characters, with no whitespace
      at either end, is accepted. */
  lemma ShortBmpNameAccepted(name: string)
    requires 0 < |name| <= MAX_NAME_LENGTH && Trimmed(name) && AllBmp(name)
    ensures ValidateName(name) == Accepted
  {
    TrimOfTrimmed(name);
    Utf16LengthOfBmp(name);
  }

  // ---------------------------------------------------------------------
  // Student id

  /** The regular expression /^\d{9}$/. */
  predicate NineDigits(s: string) {
    |s| == STUDENT_ID_LENGTH && AllDigits(s)
  }

  /** The format part of the student-id check: missing, then not nine
      digits. */
  function ValidateStudentIdFormat(raw: string): (v: Verdict)
    ensures v == Rejected(Missing) <==> AllSpace(raw)
    ensures v == Accepted <==> NineDigits(Trim(raw))
    ensures v == Accepted || v == Rejected(Missing) || v == Rejected(NotNineDigits)
  {
    TrimEmptyIffAllSpace(raw);
    var value := Trim(raw);
    if value == [] then Rejected(Missing)
    else if !NineDigits(value) then Rejected(NotNineDigits)
    else Accepted
  }

  /** The whole student-id check: the format first, and only a well-formed
      id is looked up; `taken` is the server's answer to that lookup. */
  function ValidateStudentId(raw: string, taken: bool): (v: Verdict)
    ensures v == Accepted <==> NineDigits(Trim(raw)) && !taken
    ensures v == Rejected(AlreadyTaken) <==> NineDigits(Trim(raw)) && taken
  {
    var format := ValidateStudentIdFormat(raw);
    if format != Accepted then format
    else if taken then Rejected(AlreadyTaken)
    else Accepted
  }

  /** The input filter of the student-id field: every non-digit is removed,
      then the digits are cut to the first nine. */
  function SanitizeStudentId(raw: string): (r: string)
    ensures AllDigits(r) && |r| <= STUDENT_ID_LENGTH
    ensures |r| <= |DigitsOnly(raw)| && r == DigitsOnly(raw)[..|r|]
    ensures |r| < STUDENT_ID_LENGTH ==> r == DigitsOnly(raw)
  {
    var digits := DigitsOnly(raw);
    Utf16LengthOfBmp(digits);
    if Utf16Length(digits) > STUDENT_ID_LENGTH then digits[..STUDENT_ID_LENGTH] else digits
  }

  /** Filtering the field a second time changes nothing. */
  lemma SanitizeIdempotent(raw: string)
    ensures SanitizeStudentId(SanitizeStudentId(raw)) == SanitizeStudentId(raw)
  {
    var once := SanitizeStudentId(raw);
    DigitsOnlyOfDigits(once);
  }

  /** What the user typed is kept unchanged when it is already at most nine
      digits. */
  lemma SanitizeKeepsShortDigitString(raw: string)
    requires AllDigits(raw) && |raw| <= STUDENT_ID_LENGTH
    ensures SanitizeStudentId(raw) == raw
  {
    DigitsOnlyOfDigits(raw);
  }

  /** Once the filtered field holds nine characters (the moment the input
      handler runs the full check), the format check accepts it. */
  lemma SanitizedFullIdHasValidFormat(raw: string)
    requires |SanitizeStudentId(raw)| == STUDENT_ID_LENGTH
    ensures ValidateStudentIdFormat(SanitizeStudentId(raw)) == Accepted
  {
    var id := SanitizeStudentId(raw);
    assert Trimmed(id) by {
      assert IsDigit(id[0]) && IsDigit(id[|id| - 1]);
    }
    TrimOfTrimmed(id);
  }

  // ---------------------------------------------------------------------
  // Birthday, gender, enrolment status

  /** `afterToday` is the outcome of comparing the chosen date with the
      start of today, which the page computes from the clock. */
  function ValidateBirthday(value: string, afterToday: bool): (v: Verdict)
    ensures v == Accepted <==> value != [] && !afterToday
    ensures v == Rejected(InFuture) ==> value != []
  {
    if value == [] then Rejected(Missing)
    else if afterToday then Rejected(InFuture)
    else Accepted
  }

  /** `anyChecked`: whether one of the gender radio buttons is selected. */
  function ValidateGender(anyChecked: bool): (v: Verdict)
    ensures v == Accepted <==> anyChecked
    ensures v != Accepted ==> v == Rejected(Missing)
  {
    if !anyChecked then Rejected(Missing) else Accepted
  }

  function ValidateStatus(value: string): (v: Verdict)
    ensures v == Accepted <==> value != []
    ensures v != Accepted ==> v == Rejected(Missing)
  {
    if value == [] then Rejected(Missing) else Accepted
  }

  // ---------------------------------------------------------------------
  // E-mail

  /** The trimmed address must end with "@bible.ac.kr", letters compared
      without regard to case. The emptiness test comes first but is implied
      by the suffix test, so acceptance depends on the suffix alone. */
  function ValidateEmail(raw: string): (v: Verdict)
    ensures v == Rejected(Missing) <==> AllSpace(raw)
    ensures v == Accepted <==> EndsWithIgnoringAsciiCase(Trim(raw), EMAIL_DOMAIN)
    ensures v == Accepted || v == Rejected(Missing) || v == Rejected(WrongDomain)
  {
    TrimEmptyIffAllSpace(raw);
    var value := Trim(raw);
    if value == [] then Rejected(Missing)
    else if !EndsWithIgnoringAsciiCase(value, EMAIL_DOMAIN) then Rejected(WrongDomain)
    else Accepted
  }

  // ---------------------------------------------------------------------
  // Password

  predicate IsAsciiLetter(c: char) {
    ('a' <= c <= 'z') || ('A' <= c <= 'Z')
  }

  predicate HasLetter(s: string) {
    exists i | 0 <= i < |s| :: IsAsciiLetter(s[i])
  }

  predicate HasDigit(s: string) {
    exists i | 0 <= i < |s| :: IsDigit(s[i])
  }

  predicate HasSpecial(s: string) {
    exists i | 0 <= i < |s| :: s[i] in PASSWORD_SPECIALS
  }

  /** How many of the three kinds (ASCII letter, digit, listed special
      character) occur in `s`. */
  function KindCount(s: string): (n: nat)
    ensures n <= 3
    ensures n == 0 <==> !HasLetter(s) && !HasDigit(s) && !HasSpecial(s)
    ensures n >= 2 <==>
      (HasLetter(s) && HasDigit(s)) || (HasLetter(s) && HasSpecial(s)) || (HasDigit(s) && HasSpecial(s))
    ensures n == 3 <==> HasLetter(s) && HasDigit(s) && HasSpecial(s)
  {
    (if HasLetter(s) then 1 else 0) + (if HasDigit(s) then 1 else 0)
    + (if HasSpecial(s) then 1 else 0)
  }

  /** The password is not trimmed. Rules in order: empty, shorter than 8
      code units, longer than 15, fewer than two kinds of character. */
  function ValidatePassword(value: string): (v: Verdict)
    ensures v == Rejected(Missing) <==> value == []
    ensures v == Rejected(TooShort) <==> 0 < Utf16Length(value) < MIN_PASSWORD_LENGTH
    ensures v == Rejected(TooLong) <==> Utf16Length(value) > MAX_PASSWORD_LENGTH
    ensures v == Rejected(TooFewKinds) <==>
      MIN_PASSWORD_LENGTH <= Utf16Length(value) <= MAX_PASSWORD_LENGTH && KindCount(value) < 2
    ensures v == Accepted <==>
      MIN_PASSWORD_LENGTH <= Utf16Length(value) <= MAX_PASSWORD_LENGTH && KindCount(value) >= 2
  {
    if value == [] then Rejected(Missing)
    else if Utf16Length(value) < MIN_PASSWORD_LENGTH then Rejected(TooShort)
    else if Utf16Length(value) > MAX_PASSWORD_LENGTH then Rejected(TooLong)
    else if KindCount(value) < 2 then Rejected(TooFewKinds)
    else Accepted
  }

  /** An accepted password holds between 4 and 15 characters: a character
      outside the Basic Multilingual Plane counts twice towards the limits. */
  lemma AcceptedPasswordLength(value: string)
    requires ValidatePassword(value) == Accepted
    ensures 4 <= |value| <= MAX_PASSWORD_LENGTH
  {
  }

  /** No ASCII letter or digit is one of the listed special characters. */
  lemma LettersAndDigitsAreNotSpecial(c: char)
    requires IsAsciiLetter(c) || IsDigit(c)
    ensures c !in PASSWORD_SPECIALS
  {
  }

  /** A password made of ASCII letters alone, or of digits alone, is
      rejected whatever its length. */
  lemma SingleKindPasswordRejected(value: string)
    requires (forall i :: 0 <= i < |value| ==> IsAsciiLetter(value[i])) || AllDigits(value)
    ensures ValidatePassword(value) != Accepted
  {
    if forall i :: 0 <= i < |value| ==> IsAsciiLetter(value[i]) {
      assert !HasDigit(value) && !HasSpecial(value) by {
        forall i | 0 <= i < |value| ensures !IsDigit(value[i]) && value[i] !in PASSWORD_SPECIALS {
          LettersAndDigitsAreNotSpecial(value[i]);
        }
      }
    } else {
      assert !HasLetter(value) && !HasSpecial(value) by {
        forall i | 0 <= i < |value| ensures !IsAsciiLetter(value[i]) && value[i] !in PASSWORD_SPECIALS {
          LettersAndDigitsAreNotSpecial(value[i]);
        }
      }
    }
    assert KindCount(value) <= 1;
  }

  // ---------------------------------------------------------------------
  // Password confirmation

  /** The confirmation is not trimmed: empty, then different from the
      password. */
  function ValidatePasswordConfirm(confirm: string, password: string): (v: Verdict)
    ensures v == Accepted <==> confirm != [] && confirm == password
    ensures v == Rejected(Mismatch) <==> confirm != [] && confirm != password
  {
    if confirm == [] then Rejected(Missing)
    else if confirm != password then Rejected(Mismatch)
    else Accepted
  }

  // ---------------------------------------------------------------------
  // Submitting the form

  datatype RegistrationForm = RegistrationForm(
    name: string,
    studentId: string,
    birthday: string,
    genderChosen: bool,
    status: string,
    email: string,
    password: string,
    passwordConfirm: string)

  /** What the form learns from outside the page: the server's duplicate-id
      answer and the birthday-versus-today comparison. */
  datatype Surroundings = Surroundings(studentIdTaken: bool, birthdayAfterToday: bool)

  /** The eight verdicts in the order the submit handler runs them. */
  function Verdicts(f: RegistrationForm, env: Surroundings): (vs: seq<Verdict>)
    ensures |vs| == 8
  {
    [ ValidateName(f.name),
      ValidateStudentId(f.studentId, env.studentIdTaken),
      ValidateBirthday(f.birthday, env.birthdayAfterToday),
      ValidateGender(f.genderChosen),
      ValidateStatus(f.status),
      ValidateEmail(f.email),
      ValidatePassword(f.password),
      ValidatePasswordConfirm(f.passwordConfirm, f.password) ]
  }

  /** The form is submitted only when every verdict is an acceptance. */
  predicate MaySubmit(f: RegistrationForm, env: Surroundings) {
    AllAccepted(Verdicts(f, env))
  }

  /** `validations.every(result => result === true)`. */
  predicate AllAccepted(vs: seq<Verdict>) {
    forall i :: 0 <= i < |vs| ==> vs[i] == Accepted
  }

  lemma AllAcceptedOfEight(a: Verdict, b: Verdict, c: Verdict, d: Verdict,
                           e: Verdict, f: Verdict, g: Verdict, h: Verdict)
    ensures AllAccepted([a, b, c, d, e, f, g, h]) <==>
      a == Accepted && b == Accepted && c == Accepted && d == Accepted &&
      e == Accepted && f == Accepted && g == Accepted && h == Accepted
  {
    var vs := [a, b, c, d, e, f, g, h];
    assert vs[0] == a && vs[1] == b && vs[2] == c && vs[3] == d;
    assert vs[4] == e && vs[5] == f && vs[6] == g && vs[7] == h;
  }

  /** The gate opens exactly when each of the eight validators accepts. */
  lemma MaySubmitIffAllAccepted(f: RegistrationForm, env: Surroundings)
    ensures MaySubmit(f, env) <==>
      && ValidateName(f.name) == Accepted
      && ValidateStudentId(f.studentId, env.studentIdTaken) == Accepted
      && ValidateBirthday(f.birthday, env.birthdayAfterToday) == Accepted
      && ValidateGender(f.genderChosen) == Accepted
      && ValidateStatus(f.status) == Accepted
      && ValidateEmail(f.email) == Accepted
      && ValidatePassword(f.password) == Accepted
      && ValidatePasswordConfirm(f.passwordConfirm, f.password) == Accepted
  {
    AllAcceptedOfEight(ValidateName(f.name), ValidateStudentId(f.studentId, env.studentIdTaken),
      ValidateBirthday(f.birthday, env.birthdayAfterToday), ValidateGender(f.genderChosen),
      ValidateStatus(f.status), ValidateEmail(f.email), ValidatePassword(f.password),
      ValidatePasswordConfirm(f.passwordConfirm, f.password));
  }

  /** What a submitted registration is known to satisfy, and conversely:
      the gate opens exactly when every field meets its rule. */
  lemma SubmitGate(f: RegistrationForm, env: Surroundings)
    ensures MaySubmit(f, env) <==>
      && !AllSpace(f.name) && Utf16Length(Trim(f.name)) <= MAX_NAME_LENGTH
      && NineDigits(Trim(f.studentId)) && !env.studentIdTaken
      && f.birthday != [] && !env.birthdayAfterToday
      && f.genderChosen
      && f.status != []
      && EndsWithIgnoringAsciiCase(Trim(f.email), EMAIL_DOMAIN)
      && MIN_PASSWORD_LENGTH <= Utf16Length(f.password) <= MAX_PASSWORD_LENGTH
      && KindCount(f.password) >= 2
      && f.passwordConfirm == f.password
  {
    MaySubmitIffAllAccepted(f, env);
  }
}
