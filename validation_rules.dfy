/**
 * The Laravel validation rules the controllers use, each as a predicate on the
 * submitted value. Rules that look at other tables (`exists:<table>,id`) are
 * `Tables.HasId`; the calendar check behind the `date` rule is left to the
 * caller as a parameter.
 */
module ValidationRules {
  /** The bound in every `max:255` rule. */
  const MaxStringLength := 255

  /** The characters PHP's `trim` removes by default. */
  predicate IsTrimmed(c: char) {
    c == ' ' || c == '\t' || c == '\n' || c == '\r' || c == '\0' || c == '\U{0B}'
  }

  /** `required` on a string: it is not blank once trimmed. */
  predicate Required(s: string) {
    exists i :: 0 <= i < |s| && !IsTrimmed(s[i])
  }

  /** `required|string|max:255`. */
  predicate ShortText(s: string) {
    Required(s) && |s| <= MaxStringLength
  }

  predicate IsDigit(c: char) {
    '0' <= c <= '9'
  }

  /** The number written by two decimal digits. */
  function TwoDigits(hi: char, lo: char): (n: nat)
    requires IsDigit(hi) && IsDigit(lo)
    ensures n < 100
  {
    (hi as int - '0' as int) * 10 + (lo as int - '0' as int)
  }

  /**
   * `date_format:H:i`: PHP must parse the value with that format and print it
   * back unchanged, so exactly two hour digits (00-23), a colon and two
   * minute digits (00-59).
   */
  predicate IsHourMinute(t: string) {
    && |t| == 5
    && IsDigit(t[0]) && IsDigit(t[1]) && t[2] == ':' && IsDigit(t[3]) && IsDigit(t[4])
    && TwoDigits(t[0], t[1]) <= 23
    && TwoDigits(t[3], t[4]) <= 59
  }
}
