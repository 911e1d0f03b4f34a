/** The five regular-expression literals of `ChatClasses.Validation` (index.ts:109-113)
    and the empty pattern, each as the set of spans s[i..j] it matches, and
    `RegExp.prototype.test` on each as "some span matches".

    A match attempt of ECMA-262 starts at some index i and ends at some index j;
    with no `m` flag, `^` holds only at index 0 and `$` only at the end of the
    input, so they appear below as `i == 0` and `j == |s|`. None of the patterns
    has a lookaround or a back-reference, so backtracking finds a match exactly
    when one exists, which is what the existential quantifiers say. */
module RegexLiterals {
  import opened CharClasses

  /** Every character of s[i..j] is in class cls. */
  predicate AllIn(cls: CharClass, s: string, i: nat, j: nat)
    requires i <= j <= |s|
  {
    forall k | i <= k < j :: InClass(cls, s[k])
  }

  /** `[cls]{lo,hi}` matches s[i..j]. */
  predicate RepeatBetween(cls: CharClass, s: string, i: nat, j: nat, lo: nat, hi: nat) {
    i <= j <= |s| && lo <= j - i <= hi && AllIn(cls, s, i, j)
  }

  /** `[cls]{lo,}` matches s[i..j] (`+` is lo == 1). */
  predicate RepeatAtLeast(cls: CharClass, s: string, i: nat, j: nat, lo: nat) {
    i <= j <= |s| && lo <= j - i && AllIn(cls, s, i, j)
  }

  // ---- /^[^\s@]+@([^\s@.,]+\.)+[^\s@.,]{2,}$/ (index.ts:109) ----

  /** `([^\s@.,]+\.)+[^\s@.,]{2,}` matches s[i..j]: one group `label.` and then
      either further groups or the final label of two or more characters. */
  predicate DomainMatch(s: string, i: nat, j: nat)
    decreases j - i
  {
    i <= j <= |s| &&
    exists d | i <= d < j ::
      RepeatAtLeast(LabelChar, s, i, d, 1) && s[d] == '.' &&
      (DomainMatch(s, d + 1, j) || RepeatAtLeast(LabelChar, s, d + 1, j, 2))
  }

  predicate MailMatch(s: string, i: nat, j: nat) {
    i == 0 && j == |s| &&
    exists a | i <= a < j ::
      RepeatAtLeast(LocalChar, s, i, a, 1) && s[a] == '@' && DomainMatch(s, a + 1, j)
  }

  predicate MailTest(s: string) {
    exists i: nat, j: nat | i <= j <= |s| :: MailMatch(s, i, j)
  }

  // ---- /^[1-9]{1}[0-9]{7,11}$/ (index.ts:110) ----

  predicate MobileMatch(s: string, i: nat, j: nat) {
    i == 0 && j == |s| &&
    exists m | i <= m <= j ::
      RepeatBetween(NonZeroDigit, s, i, m, 1, 1) && RepeatBetween(Digit, s, m, j, 7, 11)
  }

  predicate MobileTest(s: string) {
    exists i: nat, j: nat | i <= j <= |s| :: MobileMatch(s, i, j)
  }

  // ---- /^[a-zA-Z0-9\-\_]{6,16}/ (index.ts:111): no `$` ----

  predicate UserNameMatch(s: string, i: nat, j: nat) {
    i == 0 && RepeatBetween(UserNameChar, s, i, j, 6, 16)
  }

  predicate UserNameTest(s: string) {
    exists i: nat, j: nat | i <= j <= |s| :: UserNameMatch(s, i, j)
  }

  // ---- /^[a-zA-ZА-Яа-я]{2,16}/ (index.ts:112): no `$` ----

  predicate FirstNameMatch(s: string, i: nat, j: nat) {
    i == 0 && RepeatBetween(NameLetter, s, i, j, 2, 16)
  }

  predicate FirstNameTest(s: string) {
    exists i: nat, j: nat | i <= j <= |s| :: FirstNameMatch(s, i, j)
  }

  // ---- /^[a-zA-ZА-Яа-я]{1,32}/ (index.ts:113): no `$` ----

  predicate SurNameMatch(s: string, i: nat, j: nat) {
    i == 0 && RepeatBetween(NameLetter, s, i, j, 1, 32)
  }

  predicate SurNameTest(s: string) {
    exists i: nat, j: nat | i <= j <= |s| :: SurNameMatch(s, i, j)
  }

  // ---- /(?:)/, what `new RegExp(undefined)` builds (index.ts:116) ----

  predicate EmptyMatch(s: string, i: nat, j: nat) {
    i == j
  }

  predicate EmptyTest(s: string) {
    exists i: nat, j: nat | i <= j <= |s| :: EmptyMatch(s, i, j)
  }
}
