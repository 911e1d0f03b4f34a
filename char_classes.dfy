/** The character classes that occur in the validation patterns of index.ts,
    with the meanings ECMAScript regular expressions (ECMA-262, section 22.2)
    give them when no flag is set: case-sensitive, code unit by code unit. */
module CharClasses {

  /** `\s`: a WhiteSpace or a LineTerminator character of ECMA-262
      (the WhiteSpace list includes every character of Unicode category Zs). */
  predicate IsWhiteSpace(c: char) {
    // WhiteSpace: TAB, VT, FF, ZWNBSP
    c == '\t' || c == '\U{000B}' || c == '\U{000C}' || c == '\U{FEFF}'
    // WhiteSpace: category Zs
    || c == ' ' || c == '\U{00A0}' || c == '\U{1680}' || ('\U{2000}' <= c <= '\U{200A}')
    || c == '\U{202F}' || c == '\U{205F}' || c == '\U{3000}'
    // LineTerminator: LF, CR, LS, PS
    || c == '\n' || c == '\r' || c == '\U{2028}' || c == '\U{2029}'
  }

  predicate IsAsciiDigit(c: char) { '0' <= c <= '9' }

  predicate IsLatinLetter(c: char) { 'a' <= c <= 'z' || 'A' <= c <= 'Z' }

  /** The ranges `А-Я` (U+0410..U+042F) and `а-я` (U+0430..U+044F); Ё (U+0401) and ё (U+0451) lie outside. */
  predicate IsBasicCyrillicLetter(c: char) { '\U{0410}' <= c <= '\U{042F}' || '\U{0430}' <= c <= '\U{044F}' }

  /** Every bracketed class written in the five patterns. */
  datatype CharClass =
    | NonZeroDigit   // [1-9]
    | Digit          // [0-9]
    | UserNameChar   // [a-zA-Z0-9\-\_]
    | NameLetter     // [a-zA-ZА-Яа-я]
    | LocalChar      // [^\s@]
    | LabelChar      // [^\s@.,]

  predicate InClass(cls: CharClass, c: char) {
    match cls
    case NonZeroDigit => '1' <= c <= '9'
    case Digit => IsAsciiDigit(c)
    case UserNameChar => IsLatinLetter(c) || IsAsciiDigit(c) || c == '-' || c == '_'
    case NameLetter => IsLatinLetter(c) || IsBasicCyrillicLetter(c)
    case LocalChar => !IsWhiteSpace(c) && c != '@'
    case LabelChar => !IsWhiteSpace(c) && c != '@' && c != '.' && c != ','
  }
}
