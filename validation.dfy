/** `ChatClasses.Validation` (index.ts:108-123): five fixed patterns and
    `isCorrect`, which reports whether a pattern matches a value. */
module Validation {
  import opened CharClasses
  import opened RegexLiterals
  import opened ValidationRules

  /** The patterns a caller can hand to `isCorrect`: the five literals of the
      class, and the empty pattern `/(?:)/`. */
  datatype Pattern = Mail | Mobile | UserName | FirstName | SurName | Empty

  // The class's pattern fields; none of them is ever reassigned.
  const RegexMail: Pattern := Mail
  const RegexMobile: Pattern := Mobile
  const RegexUserName: Pattern := UserName
  const RegexUserFirstName: Pattern := FirstName
  const RegexUserSecName: Pattern := SurName

  /** The optional `regex` argument of `isCorrect`. */
  datatype RegexArg = Undefined | Given(pattern: Pattern)

  /** `new RegExp(regex)`: a copy of a given pattern (same source, no flags),
      or, for `undefined`, the empty pattern. */
  function NewRegExp(regex: RegexArg): Pattern {
    match regex
    case Undefined => Empty
    case Given(p) => p
  }

  /** `RegExp.prototype.test` for pattern p. No pattern carries a `g` or `y`
      flag, so `lastIndex` is neither consulted nor changed. */
  predicate Test(p: Pattern, value: string) {
    match p
    case Mail => MailTest(value)
    case Mobile => MobileTest(value)
    case UserName => UserNameTest(value)
    case FirstName => FirstNameTest(value)
    case SurName => SurNameTest(value)
    case Empty => EmptyTest(value)
  }

  /** `isCorrect(value, regex)`: true exactly when the pattern built from
      `regex` matches `value`. Only the argument is consulted, never the
      class's own pattern fields. */
  function IsCorrect(value: string, regex: RegexArg): (r: bool)
    ensures regex == Undefined ==> r
    ensures regex == Given(Empty) ==> r
    ensures regex == Given(Mail) ==> (r <==> MailShape(value))
    ensures regex == Given(Mobile) ==> (r <==> IsMobileNumber(value))
    ensures regex == Given(UserName) ==> (r <==> HasUserNamePrefix(value))
    ensures regex == Given(FirstName) ==> (r <==> HasFirstNamePrefix(value))
    ensures regex == Given(SurName) ==> (r <==> HasSurNamePrefix(value))
  {
    MailExact(value);
    MobileExact(value);
    UserNameExact(value);
    FirstNameExact(value);
    SurNameExact(value);
    EmptyAlways(value);
    if Test(NewRegExp(regex), value) then true else false
  }

  /** The three name patterns have no `$`: whatever follows an accepted prefix
      is ignored, so the upper bounds 16 and 32 never reject anything. */
  lemma PrefixPatternsIgnoreSuffix(p: Pattern, value: string, tail: string)
    requires p == UserName || p == FirstName || p == SurName
    requires IsCorrect(value, Given(p))
    ensures IsCorrect(value + tail, Given(p))
  {
    match p
    case UserName => UserNameExact(value); UserNameIgnoresSuffix(value, tail); UserNameExact(value + tail);
    case FirstName => FirstNameExact(value); FirstNameIgnoresSuffix(value, tail); FirstNameExact(value + tail);
    case SurName => SurNameExact(value); SurNameIgnoresSuffix(value, tail); SurNameExact(value + tail);
  }

  /** Mobile numbers: no `+`, no leading `0`, at most 12 digits. */
  lemma MobileExamples()
    ensures IsCorrect("79991234567", Given(RegexMobile))
    ensures !IsCorrect("+79991234567", Given(RegexMobile))
    ensures !IsCorrect("089991234567", Given(RegexMobile))
    ensures !IsCorrect("1234567", Given(RegexMobile))
    ensures !IsCorrect("1234567890123", Given(RegexMobile))
  {
  }

  /** Neither the "6-16" length nor the alphabet is enforced past the sixth character. */
  lemma UserNameExamples()
    ensures IsCorrect("abcdefghijklmnopqrstuvwxyz", Given(RegexUserName))
    ensures IsCorrect("user_1 is not a name!", Given(RegexUserName))
    ensures !IsCorrect("user!", Given(RegexUserName))
  {
  }

  /** Ё and ё are outside `А-Я` and `а-я`. */
  lemma CyrillicExamples()
    ensures IsCorrect("\U{041E}\U{043B}\U{0435}\U{0433}", Given(RegexUserFirstName))   // Олег
    ensures !IsCorrect("\U{0401}\U{0436}\U{0438}\U{043A}", Given(RegexUserFirstName))  // Ёжик
    ensures !IsCorrect("\U{041B}\U{0451}\U{0432}\U{0430}", Given(RegexUserFirstName))  // Лёва
    ensures IsCorrect("\U{041B}\U{0451}\U{0432}\U{0430}", Given(RegexUserSecName))     // Лёва
    ensures !IsCorrect("\U{0451}", Given(RegexUserSecName))                            // ё
  {
  }

  /** Commas may appear before the `@`. */
  lemma MailCommaInLocalPart()
    ensures IsCorrect("a,b@mail.ru", Given(RegexMail))
  {
    var s := "a,b@mail.ru";
    assert s[3] == '@' && AllIn(LocalChar, s, 0, 3);
    assert s[8] == '.';
    assert DomainShape(s, 4, |s|);
    assert MailShape(s);
  }

  /** The last label needs two characters. */
  lemma MailShortLastLabel()
    ensures !IsCorrect("user@mail.r", Given(RegexMail))
  {
    var s := "user@mail.r";
    assert s[9] == '.';
  }

  lemma MailTwoAts()
    ensures !IsCorrect("user@@mail.ru", Given(RegexMail))
  {
    var s := "user@@mail.ru";
    forall a | 0 < a < |s| ensures !(AllIn(LocalChar, s, 0, a) && DomainShape(s, a + 1, |s|)) {
      if a > 4 { assert !InClass(LocalChar, s[4]); } else { assert !InClass(LabelChar, s[5]) && s[5] != '.'; }
    }
  }

  /** No empty label inside the domain. */
  lemma MailEmptyLabel()
    ensures !IsCorrect("user@mail..ru", Given(RegexMail))
  {
    var s := "user@mail..ru";
    forall a | 0 < a < |s| ensures !(AllIn(LocalChar, s, 0, a) && DomainShape(s, a + 1, |s|)) {
      if a > 4 { assert !InClass(LocalChar, s[4]); } else { assert s[9] == '.' && s[10] == '.'; }
    }
  }
}
