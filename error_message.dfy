/**
 * The frontend's `extractErrorMessage`: the text shown to the user for a
 * failed request, taken from the `detail` field of the error response.
 */
module ErrorMessage {

  import opened Wrappers
  import Text

  /** One element of a validation-error array: `null`, or an object whose `msg` may be missing. */
  datatype DetailItem = NullItem | Item(msg: Option<string>)

  /**
   * The shape of `error?.response?.data?.detail`: absent (no response, no
   * data or no detail), a string, an array, or any other value.
   */
  datatype Detail = Missing | Str(text: string) | Items(items: seq<DetailItem>) | OtherValue

  const Default: string := "Something went wrong"

  /** The first item's `msg`, when it is a non-empty string (JavaScript truthiness). */
  function FirstMsg(items: seq<DetailItem>): Option<string>
    requires |items| > 0
  {
    match items[0]
    case NullItem => None
    case Item(m) => if m.Some? && m.value != "" then m else None
  }

  /** `extractErrorMessage(error)` for an error whose detail has the given shape. */
  function Extract(detail: Detail): (r: string)
    ensures |r| > 0
    ensures r == Default
      || (detail.Str? && r == detail.text && Text.JsTrim(r) != "")
      || (detail.Items? && |detail.items| > 0 && FirstMsg(detail.items) == Some(r))
  {
    match detail
    case Items(items) =>
      if |items| > 0 && FirstMsg(items).Some? then FirstMsg(items).value else Default
    case Str(s) =>
      if Text.JsTrim(s) != "" then s else Default
    case _ => Default
  }

  /** A non-blank string detail is shown verbatim, untrimmed; a blank one gives the default. */
  lemma TextDetail(s: string)
    ensures Text.JsTrim(s) != "" ==> Extract(Str(s)) == s
    ensures Text.JsTrim(s) == "" ==> Extract(Str(s)) == Default
  {
  }

  /** A non-empty array shows its first message, or the default when that message is falsy. */
  lemma ItemsDetail(items: seq<DetailItem>)
    requires |items| > 0
    ensures Extract(Items(items)) == if FirstMsg(items).Some? then FirstMsg(items).value else Default
  {
  }

  /** An empty array, a missing detail and any other value all give the default. */
  lemma DefaultCases(detail: Detail)
    requires detail == Missing || detail == OtherValue || detail == Items([])
    ensures Extract(detail) == Default
  {
  }
}
