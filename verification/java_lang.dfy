/** The small part of java.lang and commons-lang behaviour that the router relies on:
    null strings, Java ints, exceptions, Character.isWhitespace, String.trim,
    StringUtils.isEmpty / isNotBlank and string concatenation with null. */
module JavaLang {

  datatype Option<+T> = None | Some(value: T)

  /** A Java String reference; None stands for null. */
  type JString = Option<string>

  /** The values of a Java int. */
  type Int32 = x: int | -0x8000_0000 <= x < 0x8000_0000

  /** The exceptions that the modelled code raises or lets through. */
  datatype Exception =
    | NullPointerException
    | RuntimeException(message: string)
    | AssertionError

  /** How a call that yields a value ends: it returns it or throws. */
  datatype Outcome<+V> = Returned(value: V) | Threw(error: Exception)

  /** How a void call ends. */
  datatype Completion = Completed | Raised(error: Exception)

  /** What `"..." + s` appends for a String reference s: its text, or "null". */
  function Str(s: JString): (r: string)
    ensures s.Some? ==> r == s.value
    ensures s.None? ==> r == "null"
  {
    match s
    case None => "null"
    case Some(t) => t
  }

  /** Character.isWhitespace: space, line and paragraph separators other than the
      non-breaking ones, plus the control characters U+0009-U+000D and U+001C-U+001F. */
  predicate IsWhitespace(c: char) {
    || ('\t' <= c <= '\r')
    || ('\U{1C}' <= c <= '\U{1F}')
    || c == ' '
    || c == '\U{1680}'
    || ('\U{2000}' <= c <= '\U{2006}')
    || ('\U{2008}' <= c <= '\U{200A}')
    || c == '\U{2028}'
    || c == '\U{2029}'
    || c == '\U{205F}'
    || c == '\U{3000}'
  }

  /** StringUtils.isEmpty: null or of length zero. */
  predicate IsEmpty(s: JString) {
    s.None? || s.value == ""
  }

  /** StringUtils.isNotBlank: not null and holding a character that is not whitespace. */
  predicate IsNotBlank(s: JString) {
    s.Some? && exists i :: 0 <= i < |s.value| && !IsWhitespace(s.value[i])
  }

  /** String.trim: drops every leading and trailing character at or below U+0020. */
  function Trim(s: string): (r: string)
    ensures |r| <= |s|
    ensures (|s| == 0 || (s[0] > ' ' && s[|s| - 1] > ' ')) ==> r == s
    decreases |s|
  {
    if |s| > 0 && s[0] <= ' ' then Trim(s[1..])
    else if |s| > 0 && s[|s| - 1] <= ' ' then Trim(s[..|s| - 1])
    else s
  }
}
