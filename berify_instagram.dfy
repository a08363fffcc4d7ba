/** The pages-router endpoint: one handler that refuses every method but
    `POST`, counts the request against the client's quota, and checks the
    profile header for the code. */
module BerifyInstagram {
  import opened Wrappers
  import opened Verification
  import Text
  import RateLimit

  /** `String(x-forwarded-for || socket.remoteAddress)`: an absent or empty
      header falls back to the socket address, taken even when empty, and
      `String(undefined)` is "undefined" when that is missing too. */
  function ClientKey(forwardedFor: Option<string>, remoteAddress: Option<string>): (key: string)
    ensures Truthy(forwardedFor) ==> key == forwardedFor.value
    ensures !Truthy(forwardedFor) && remoteAddress.Some? ==> key == remoteAddress.value
    ensures !Truthy(forwardedFor) && remoteAddress.None? ==> key == "undefined"
  {
    if Truthy(forwardedFor) then forwardedFor.value
    else if remoteAddress.Some? then remoteAddress.value
    else "undefined"
  }

  /** Everything after an admitted request. Here `goto` sits before the inner
      try, so a navigation failure escapes to the outer catch (500) without
      closing the browser; only the wait and the read are caught by the inner
      try, whose catch closes the browser and answers `verified: false`. */
  function Respond(username: Option<string>, code: Option<string>, run: BrowserRun): (out: Outcome)
    ensures out.response == MissingFields <==> !Truthy(username) || !Truthy(code)
    ensures out.response == VerifyFailed <==>
              Truthy(username) && Truthy(code) &&
              (run == LaunchFailed || run == SetupFailed || run == NavFailed)
    ensures out.response == Verified(Some(true)) <==>
              Truthy(username) && Truthy(code) && run.HeaderText? && run.text.Some? &&
              Text.Includes(run.text.value, code.value)
    ensures out.response == Verified(None) <==>
              Truthy(username) && Truthy(code) && run == HeaderText(None)
    ensures out.response == Verified(Some(false)) <==>
              Truthy(username) && Truthy(code) &&
              (run == HeaderTimeout ||
               (run.HeaderText? && run.text.Some? && !Text.Includes(run.text.value, code.value)))
    ensures out.launches == (if Truthy(username) && Truthy(code) && run != LaunchFailed then 1 else 0)
    ensures out.closes == (if out.response.Verified? then 1 else 0)
  {
    if !Truthy(username) || !Truthy(code) then Outcome(MissingFields, 0, 0)
    else
      match run
      case LaunchFailed => Outcome(VerifyFailed, 0, 0)
      case SetupFailed => Outcome(VerifyFailed, 1, 0)
      case NavFailed => Outcome(VerifyFailed, 1, 0)
      case HeaderTimeout => Outcome(Verified(Some(false)), 1, 1)
      case HeaderText(bio) => Outcome(Verified(Verdict(bio, code.value)), 1, 1)
  }

  /** The module: its request-count table and its default-exported handler. */
  class Handler {
    const requestCounts: RateLimit.Limiter

    ghost predicate Valid()
      reads this, requestCounts
    {
      requestCounts.Valid()
    }

    constructor ()
      ensures fresh(requestCounts) && requestCounts.table == map[]
      ensures Valid()
    {
      requestCounts := new RateLimit.Limiter();
    }

    /** Any method but POST is refused before the table is looked at; a POST
        is counted before its body is examined. */
    method Handle(httpMethod: string, forwardedFor: Option<string>, remoteAddress: Option<string>,
                  now: int, username: Option<string>, code: Option<string>, run: BrowserRun)
      returns (out: Outcome)
      modifies requestCounts
      ensures httpMethod != "POST" ==>
                out == Outcome(MethodNotAllowed, 0, 0) && requestCounts.table == old(requestCounts.table)
      ensures httpMethod == "POST" ==>
                var a := RateLimit.Step(old(requestCounts.table), ClientKey(forwardedFor, remoteAddress), now);
                && requestCounts.table == a.table
                && out == (if a.ok then Respond(username, code, run) else Outcome(TooManyRequests, 0, 0))
      ensures old(Valid()) ==> Valid()
    {
      if httpMethod != "POST" {
        return Outcome(MethodNotAllowed, 0, 0);
      }
      var clientIp := ClientKey(forwardedFor, remoteAddress);
      var admitted := requestCounts.Admit(clientIp, now);
      if !admitted {
        return Outcome(TooManyRequests, 0, 0);
      }
      out := Respond(username, code, run);
    }
  }
}
