/** What both handlers share: the abstract result of driving the browser, the
    HTTP responses they send, and the verdict on the profile header text. */
module Verification {
  import opened Wrappers
  import Text

  /** How far the browser session got. The launch, the new context and the new
      page, the navigation to the profile, and the wait for the `header`
      element followed by the read of its text, are the foreign steps. */
  datatype BrowserRun =
    | LaunchFailed                     // chromium.launch threw
    | SetupFailed                      // newContext or newPage threw
    | NavFailed                        // page.goto threw
    | HeaderTimeout                    // waitForSelector timed out, or $eval threw
    | HeaderText(text: Option<string>) // the header's textContent (null is None)

  /** The JSON responses. `Verified(None)` is `{ verified: undefined }`, which
      the serialiser writes as `{}`. */
  datatype Response =
    | MethodNotAllowed
    | TooManyRequests
    | MissingFields
    | VerifyFailed
    | Verified(verified: Option<bool>)

  function Status(r: Response): (code: int)
    ensures code == 200 <==> r.Verified?
    ensures code == 400 <==> r.MissingFields?
    ensures code == 405 <==> r.MethodNotAllowed?
    ensures code == 429 <==> r.TooManyRequests?
    ensures code == 500 <==> r.VerifyFailed?
  {
    match r
    case MethodNotAllowed => 405
    case TooManyRequests => 429
    case MissingFields => 400
    case VerifyFailed => 500
    case Verified(_) => 200
  }

  /** The response together with how many browsers the handler opened (a
      `chromium.launch` that returned; one that threw opens none) and how many
      times it called `browser.close`. */
  datatype Outcome = Outcome(response: Response, launches: nat, closes: nat)

  /** JavaScript truthiness of a string-valued field or header: present and
      not the empty string. */
  predicate Truthy(s: Option<string>)
  {
    s.Some? && s.value != ""
  }

  /** `bioContent?.includes(code)`: undefined when the text is null, otherwise
      whether the code occurs in it. */
  function Verdict(bio: Option<string>, code: string): (v: Option<bool>)
    ensures v.None? <==> bio.None?
    ensures v == Some(true) <==> bio.Some? && exists i :: Text.OccursAt(bio.value, code, i)
  {
    match bio
    case None => None
    case Some(text) => Some(Text.Includes(text, code))
  }
}
