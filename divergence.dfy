/** Where the two near-identical handlers part ways once the request has been
    admitted and validated. */
module Divergence {
  import opened Wrappers
  import opened Verification
  import VerifyRoute
  import BerifyInstagram

  /** The two handlers answer the same body and browser run identically,
      except for a navigation failure: the app route folds it into
      `verified: false`, the pages handler answers 500. */
  lemma NavigationFailureDiverges(username: Option<string>, code: Option<string>, run: BrowserRun)
    ensures var route := VerifyRoute.Respond(VerifyRoute.Fields(username, code), run).response;
            var pages := BerifyInstagram.Respond(username, code, run).response;
      && (route != pages <==> Truthy(username) && Truthy(code) && run == NavFailed)
      && (route != pages ==> route == Verified(Some(false)) && pages == VerifyFailed)
  {
  }

  /** A launched browser is left open exactly on the paths where an outer-try
      failure happens after the launch: a failed context or page set-up in
      both handlers, and also a failed navigation in the pages handler. */
  lemma UnclosedBrowsers(username: Option<string>, code: Option<string>, run: BrowserRun)
    ensures var route := VerifyRoute.Respond(VerifyRoute.Fields(username, code), run);
            var pages := BerifyInstagram.Respond(username, code, run);
      && route.closes <= route.launches <= 1
      && pages.closes <= pages.launches <= 1
      && (route.closes < route.launches <==> Truthy(username) && Truthy(code) && run == SetupFailed)
      && (pages.closes < pages.launches <==>
            Truthy(username) && Truthy(code) && (run == SetupFailed || run == NavFailed))
  {
  }

  /** Clients that send no forwarding header share one bucket in each module,
      under different names: "unknown" in the app route, the socket address
      or else "undefined" in the pages handler. */
  lemma UnforwardedClientsShareBucket(forwardedFor: Option<string>, other: Option<string>)
    requires !Truthy(forwardedFor) && !Truthy(other)
    ensures VerifyRoute.ClientKey(forwardedFor) == VerifyRoute.ClientKey(other) == "unknown"
    ensures BerifyInstagram.ClientKey(forwardedFor, None) == BerifyInstagram.ClientKey(other, None) == "undefined"
  {
  }
}
