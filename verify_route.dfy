/** The app-router endpoint: `POST` counts the request against the client's
    quota, reads the JSON body, and checks the profile header for the code;
    `GET` is refused. */
module VerifyRoute {
  import opened Wrappers
  import opened Verification
  import Text
  import RateLimit

  /** `x-forwarded-for || 'unknown'`: an absent or empty header falls back to
      the shared bucket "unknown". */
  function ClientKey(forwardedFor: Option<string>): (key: string)
    ensures key != ""
    ensures Truthy(forwardedFor) ==> key == forwardedFor.value
    ensures !Truthy(forwardedFor) ==> key == "unknown"
  {
    if Truthy(forwardedFor) then forwardedFor.value else "unknown"
  }

  /** The request body as `request.json()` delivers it. */
  datatype Body =
    | Unparsable                                          // request.json() threw
    | Fields(username: Option<string>, code: Option<string>)

  /** Both fields are present and non-empty. */
  predicate Complete(body: Body)
  {
    body.Fields? && Truthy(body.username) && Truthy(body.code)
  }

  /** Everything after an admitted request: body check, browser session and
      verdict. `launch`, `newContext` and `newPage` sit in the outer try only,
      so their failures answer 500; `goto`, the wait and the read sit in the
      inner try, whose catch closes the browser and answers `verified: false`. */
  function Respond(body: Body, run: BrowserRun): (out: Outcome)
    ensures out.response == MissingFields <==> body.Fields? && !Complete(body)
    ensures out.response == VerifyFailed <==>
              body.Unparsable? || (Complete(body) && (run == LaunchFailed || run == SetupFailed))
    ensures out.response.Verified? <==> Complete(body) && run != LaunchFailed && run != SetupFailed
    ensures out.response == Verified(Some(true)) <==>
              Complete(body) && run.HeaderText? && run.text.Some? &&
              Text.Includes(run.text.value, body.code.value)
    ensures out.response == Verified(None) <==> Complete(body) && run == HeaderText(None)
    ensures out.response == Verified(Some(false)) <==>
              Complete(body) &&
              (run == NavFailed || run == HeaderTimeout ||
               (run.HeaderText? && run.text.Some? && !Text.Includes(run.text.value, body.code.value)))
    // no browser work unless both fields are there; one launch once they are
    ensures out.launches == (if Complete(body) && run != LaunchFailed then 1 else 0)
    // the browser is closed exactly once before every 200, and never otherwise
    ensures out.closes == (if out.response.Verified? then 1 else 0)
  {
    match body
    case Unparsable => Outcome(VerifyFailed, 0, 0)
    case Fields(username, code) =>
      if !Truthy(username) || !Truthy(code) then Outcome(MissingFields, 0, 0)
      else
        match run
        case LaunchFailed => Outcome(VerifyFailed, 0, 0)
        case SetupFailed => Outcome(VerifyFailed, 1, 0)
        case NavFailed => Outcome(Verified(Some(false)), 1, 1)
        case HeaderTimeout => Outcome(Verified(Some(false)), 1, 1)
        case HeaderText(bio) => Outcome(Verified(Verdict(bio, code.value)), 1, 1)
  }

  /** The module: its request-count table and its two exported handlers. */
  class Route {
    const requestCounts: RateLimit.Limiter

    ghost predicate Valid()
      reads this, requestCounts
    {
      requestCounts.Valid()
    }

    constructor ()
      ensures fresh(requestCounts) && requestCounts.table == map[]
      ensures Valid()
    {
      requestCounts := new RateLimit.Limiter();
    }

    /** `POST`: rate limiting runs first, so a request that is then refused
        with 400 or 500 has still used up one unit of its quota. */
    method Post(forwardedFor: Option<string>, now: int, body: Body, run: BrowserRun)
      returns (out: Outcome)
      modifies requestCounts
      ensures var a := RateLimit.Step(old(requestCounts.table), ClientKey(forwardedFor), now);
        && requestCounts.table == a.table
        && out == (if a.ok then Respond(body, run) else Outcome(TooManyRequests, 0, 0))
      ensures old(Valid()) ==> Valid()
    {
      var clientIp := ClientKey(forwardedFor);
      var admitted := requestCounts.Admit(clientIp, now);
      if !admitted {
        return Outcome(TooManyRequests, 0, 0);
      }
      out := Respond(body, run);
    }

    /** `GET`: always 405; the table is not consulted. */
    method Get() returns (out: Outcome)
      ensures out.response == MethodNotAllowed && Status(out.response) == 405
      ensures out.launches == 0 && out.closes == 0
    {
      out := Outcome(MethodNotAllowed, 0, 0);
    }
  }
}
