/** The two java.lang.Character operations the board code relies on, restricted to the
    inputs the model admits: getNumericValue on the decimal digits '0'..'9', and
    toUpperCase on the characters it maps to an ASCII capital ('a'..'z', dotless 'ı' and
    long 's'), and the identity elsewhere. */
module JavaChars {

  predicate IsDigit(c: char) {
    '0' <= c <= '9'
  }

  /** Character.getNumericValue on a decimal digit. */
  function NumericValue(c: char): (v: int)
    requires IsDigit(c)
    ensures 0 <= v <= 9
    ensures ('0' as int + v) as char == c
  {
    c as int - '0' as int
  }

  /** Character.toUpperCase on the characters whose upper case is an ASCII capital: the
      letters 'a'..'z', dotless i (U+0131, to 'I') and long s (U+017F, to 'S'). Every other
      character is left as it is. */
  function ToUpperCase(c: char): (u: char)
    ensures 'A' <= u <= 'Z' <==> 'A' <= c <= 'Z' || 'a' <= c <= 'z' || c == '\U{0131}' || c == '\U{017F}'
    ensures !('a' <= u <= 'z')
    ensures 'a' <= c <= 'z' ==> u as int == c as int - ('a' as int - 'A' as int)
    ensures c == '\U{0131}' ==> u == 'I'
    ensures c == '\U{017F}' ==> u == 'S'
    ensures !('a' <= c <= 'z') && c != '\U{0131}' && c != '\U{017F}' ==> u == c
  {
    if 'a' <= c <= 'z' then (c as int - ('a' as int - 'A' as int)) as char
    else if c == '\U{0131}' then 'I'
    else if c == '\U{017F}' then 'S'
    else c
  }

  /** The shape of a square name every conversion in the model accepts: a file character
      followed by a decimal digit (anything after the second character is ignored, as in the
      source, which only reads charAt(0) and charAt(1)). */
  predicate IsSquareText(s: string) {
    |s| >= 2 && IsDigit(s[1])
  }
}
