/** What each validation pattern of index.ts:109-113 accepts, stated without
    regular-expression structure, and the lemmas that the pattern models of
    RegexLiterals accept exactly these strings. */
module ValidationRules {
  import opened CharClasses
  import opened RegexLiterals

  // ---- Reference definitions ----

  /** 8 to 12 ASCII digits, the first of them 1-9. */
  predicate IsMobileNumber(s: string) {
    8 <= |s| <= 12 && '1' <= s[0] <= '9' && forall k | 1 <= k < |s| :: IsAsciiDigit(s[k])
  }

  /** The first six characters are in [A-Za-z0-9_-]; the rest is unconstrained. */
  predicate HasUserNamePrefix(s: string) {
    |s| >= 6 && forall k | 0 <= k < 6 :: InClass(UserNameChar, s[k])
  }

  /** The first two characters are Latin letters or in U+0410..U+044F. */
  predicate HasFirstNamePrefix(s: string) {
    |s| >= 2 && InClass(NameLetter, s[0]) && InClass(NameLetter, s[1])
  }

  /** The first character is a Latin letter or in U+0410..U+044F. */
  predicate HasSurNamePrefix(s: string) {
    |s| >= 1 && InClass(NameLetter, s[0])
  }

  /** s[i..j] is a mail domain: labels of [^\s@.,] characters separated by single
      dots, at least one dot, no empty label, and a last label of two or more characters. */
  predicate DomainShape(s: string, i: nat, j: nat)
    requires i <= j <= |s|
  {
    j - i >= 2 && s[i] != '.' && s[j - 1] != '.' && s[j - 2] != '.'
    && (forall k | i <= k < j :: s[k] == '.' || InClass(LabelChar, s[k]))
    && (exists k | i <= k < j :: s[k] == '.')
    && (forall k | i <= k < j - 1 :: s[k] == '.' ==> s[k + 1] != '.')
  }

  /** A non-empty local part without whitespace or `@`, one `@`, then a mail domain. */
  predicate MailShape(s: string) {
    exists a | 0 < a < |s| :: s[a] == '@' && AllIn(LocalChar, s, 0, a) && DomainShape(s, a + 1, |s|)
  }

  // ---- Helpers: the first and the last dot of a span ----

  function FirstDot(s: string, i: nat, j: nat): (d: nat)
    requires i <= j <= |s|
    requires exists k | i <= k < j :: s[k] == '.'
    ensures i <= d < j && s[d] == '.'
    ensures forall k | i <= k < d :: s[k] != '.'
    decreases j - i
  {
    if s[i] == '.' then i else FirstDot(s, i + 1, j)
  }

  function LastDot(s: string, i: nat, j: nat): (d: nat)
    requires i <= j <= |s|
    requires exists k | i <= k < j :: s[k] == '.'
    ensures i <= d < j && s[d] == '.'
    ensures forall k | d < k < j :: s[k] != '.'
    decreases j - i
  {
    if s[j - 1] == '.' then j - 1 else LastDot(s, i, j - 1)
  }

  // ---- The pattern models accept exactly the reference languages ----

  lemma MobileExact(s: string)
    ensures MobileTest(s) <==> IsMobileNumber(s)
  {
    if IsMobileNumber(s) {
      assert RepeatBetween(NonZeroDigit, s, 0, 1, 1, 1);
      assert RepeatBetween(Digit, s, 1, |s|, 7, 11);
      assert MobileMatch(s, 0, |s|);
    }
    if MobileTest(s) {
      var i: nat, j: nat :| i <= j <= |s| && MobileMatch(s, i, j);
      var m :| i <= m <= j && RepeatBetween(NonZeroDigit, s, i, m, 1, 1) && RepeatBetween(Digit, s, m, j, 7, 11);
      assert m == 1 && InClass(NonZeroDigit, s[0]);
    }
  }

  lemma UserNameExact(s: string)
    ensures UserNameTest(s) <==> HasUserNamePrefix(s)
  {
    if HasUserNamePrefix(s) {
      assert UserNameMatch(s, 0, 6);
    }
  }

  lemma FirstNameExact(s: string)
    ensures FirstNameTest(s) <==> HasFirstNamePrefix(s)
  {
    if HasFirstNamePrefix(s) {
      assert FirstNameMatch(s, 0, 2);
    }
    if FirstNameTest(s) {
      var i: nat, j: nat :| i <= j <= |s| && FirstNameMatch(s, i, j);
      assert InClass(NameLetter, s[0]) && InClass(NameLetter, s[1]);
    }
  }

  lemma SurNameExact(s: string)
    ensures SurNameTest(s) <==> HasSurNamePrefix(s)
  {
    if HasSurNamePrefix(s) {
      assert SurNameMatch(s, 0, 1);
    }
    if SurNameTest(s) {
      var i: nat, j: nat :| i <= j <= |s| && SurNameMatch(s, i, j);
      assert InClass(NameLetter, s[0]);
    }
  }

  lemma EmptyAlways(s: string)
    ensures EmptyTest(s)
  {
    assert EmptyMatch(s, 0, 0);
  }

  lemma DomainExact(s: string, i: nat, j: nat)
    requires i <= j <= |s|
    ensures DomainMatch(s, i, j) <==> DomainShape(s, i, j)
  {
    if DomainMatch(s, i, j) { DomainMatchHasShape(s, i, j); }
    if DomainShape(s, i, j) { DomainShapeMatches(s, i, j); }
  }

  lemma {:induction false} DomainMatchHasShape(s: string, i: nat, j: nat)
    requires i <= j <= |s| && DomainMatch(s, i, j)
    ensures DomainShape(s, i, j)
    decreases j - i
  {
    var d :| i <= d < j && RepeatAtLeast(LabelChar, s, i, d, 1) && s[d] == '.' &&
      (DomainMatch(s, d + 1, j) || RepeatAtLeast(LabelChar, s, d + 1, j, 2));
    if DomainMatch(s, d + 1, j) {
      DomainMatchHasShape(s, d + 1, j);
      assert AfterDot(s, d + 1, j);
    } else {
      LastLabelAfterDot(s, d + 1, j);
    }
    LabelThenDot(s, i, d, j);
  }

  /** The facts about the part after a dot that both alternatives of the group's `+` give. */
  predicate AfterDot(s: string, i: nat, j: nat)
    requires i <= j <= |s|
  {
    j - i >= 2 && s[i] != '.' && s[j - 1] != '.' && s[j - 2] != '.'
    && (forall k | i <= k < j :: s[k] == '.' || InClass(LabelChar, s[k]))
    && (forall k | i <= k < j - 1 :: s[k] == '.' ==> s[k + 1] != '.')
  }

  lemma LastLabelAfterDot(s: string, i: nat, j: nat)
    requires RepeatAtLeast(LabelChar, s, i, j, 2)
    ensures AfterDot(s, i, j)
  {
    forall k | i <= k < j ensures s[k] != '.' {
      assert InClass(LabelChar, s[k]);
    }
  }

  lemma LabelThenDot(s: string, i: nat, d: nat, j: nat)
    requires i < d < j <= |s| && AllIn(LabelChar, s, i, d) && s[d] == '.' && AfterDot(s, d + 1, j)
    ensures DomainShape(s, i, j)
  {
    assert InClass(LabelChar, s[i]);
    forall k | i <= k < j - 1 ensures s[k] == '.' ==> s[k + 1] != '.' {
      if k < d { assert InClass(LabelChar, s[k]); }
    }
  }

  lemma {:induction false} DomainShapeMatches(s: string, i: nat, j: nat)
    requires i <= j <= |s| && DomainShape(s, i, j)
    ensures DomainMatch(s, i, j)
    decreases j - i
  {
    var d := FirstDot(s, i, j);
    assert i < d < j - 2;
    assert AllIn(LabelChar, s, i, d);
    if exists k | d + 1 <= k < j :: s[k] == '.' {
      assert DomainShape(s, d + 1, j);
      DomainShapeMatches(s, d + 1, j);
    } else {
      assert RepeatAtLeast(LabelChar, s, d + 1, j, 2);
    }
  }

  lemma MailExact(s: string)
    ensures MailTest(s) <==> MailShape(s)
  {
    if MailTest(s) { MailTestHasShape(s); }
    if MailShape(s) { MailShapeIsAccepted(s); }
  }

  lemma MailTestHasShape(s: string)
    requires MailTest(s)
    ensures MailShape(s)
  {
    var i: nat, j: nat :| i <= j <= |s| && MailMatch(s, i, j);
    assert i == 0 && j == |s|;
    var a :| 0 <= a < |s| && RepeatAtLeast(LocalChar, s, 0, a, 1) && s[a] == '@' && DomainMatch(s, a + 1, |s|);
    DomainExact(s, a + 1, |s|);
    assert 0 < a && AllIn(LocalChar, s, 0, a) && DomainShape(s, a + 1, |s|);
  }

  lemma MailShapeIsAccepted(s: string)
    requires MailShape(s)
    ensures MailTest(s)
  {
    var a :| 0 < a < |s| && s[a] == '@' && AllIn(LocalChar, s, 0, a) && DomainShape(s, a + 1, |s|);
    DomainExact(s, a + 1, |s|);
    assert RepeatAtLeast(LocalChar, s, 0, a, 1) && DomainMatch(s, a + 1, |s|);
    assert MailMatch(s, 0, |s|);
  }

  /** What every accepted mail address satisfies: the position `at` of its only
      `@`, and the position `dot` of the last dot, which starts the last label. */
  lemma MailAccepted(s: string) returns (at: nat, dot: nat)
    requires MailTest(s)
    ensures 0 < at < |s| && s[at] == '@'
    ensures forall k | 0 <= k < |s| && k != at :: s[k] != '@'
    ensures forall k | 0 <= k < |s| :: !IsWhiteSpace(s[k])
    ensures at < dot < |s| && s[dot] == '.'
    ensures s[at + 1] != '.'
    ensures forall k | at < k < |s| - 1 :: s[k] == '.' ==> s[k + 1] != '.'
    ensures |s| - dot - 1 >= 2 && forall k | dot < k < |s| :: s[k] != '.' && s[k] != ','
    ensures forall k | at < k < |s| :: s[k] != ','
  {
    MailExact(s);
    at :| 0 < at < |s| && s[at] == '@' && AllIn(LocalChar, s, 0, at) && DomainShape(s, at + 1, |s|);
    dot := LastDot(s, at + 1, |s|);
    forall k | 0 <= k < |s| && k != at ensures s[k] != '@' && !IsWhiteSpace(s[k]) {
      if k < at { assert InClass(LocalChar, s[k]); } else { assert s[k] == '.' || InClass(LabelChar, s[k]); }
    }
    forall k | at < k < |s| ensures s[k] != ',' {
      assert s[k] == '.' || InClass(LabelChar, s[k]);
    }
  }

  // ---- Consequences of the missing `$` ----

  lemma UserNameIgnoresSuffix(s: string, t: string)
    requires UserNameTest(s)
    ensures UserNameTest(s + t)
  {
    UserNameExact(s);
    UserNameExact(s + t);
    assert forall k | 0 <= k < 6 :: (s + t)[k] == s[k];
  }

  lemma FirstNameIgnoresSuffix(s: string, t: string)
    requires FirstNameTest(s)
    ensures FirstNameTest(s + t)
  {
    FirstNameExact(s);
    FirstNameExact(s + t);
    assert (s + t)[0] == s[0] && (s + t)[1] == s[1];
  }

  lemma SurNameIgnoresSuffix(s: string, t: string)
    requires SurNameTest(s)
    ensures SurNameTest(s + t)
  {
    SurNameExact(s);
    SurNameExact(s + t);
    assert (s + t)[0] == s[0];
  }
}
