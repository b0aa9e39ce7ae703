/** The decision cascade of `handler` (html_content.js): preflight, method
    check, presence of the three authentication headers, freshness of the
    timestamp, then the decoded extension identifier against the configured
    one. The clock and the configuration are parameters. */
module Handler {
  import opened Options
  import opened Text
  import opened Numbers
  import opened ExtensionAuth
  import Utf8

  /** The parts of a request the handler reads; `None` is an absent header. */
  datatype Request = Request(
    verb: string,           // req.method
    extAuth: Option<Str>,    // x-extension-auth
    timestamp: Option<Str>,  // x-timestamp
    nonce: Option<Str>)      // x-nonce

  /** The JSON body: `{}`, `{success: false, error}` or the library page
      (`{success: true, htmlResult, cached, ...}`). */
  datatype Body = EmptyObject | Failure(error: string) | Library(cached: bool)

  datatype Response = Response(status: int, body: Body)

  /** How old, in milliseconds, a timestamp may be. */
  const FreshnessWindow: int := 30000

  const Preflight := Response(200, EmptyObject)
  const MethodNotAllowed := Response(405, Failure("Method not allowed"))
  const AuthenticationRequired := Response(403, Failure("Authentication required"))
  const RequestExpired := Response(403, Failure("Request expired"))
  const InvalidExtension := Response(403, Failure("Invalid extension"))
  const Served := Response(200, Library(false))

  /** JavaScript truthiness of a header value or of the decoded identifier:
      present and not the empty string. */
  predicate Truthy(v: Option<Str>) {
    v.Some? && |v.value| > 0
  }

  /** The timestamp passes the freshness check: it parses and is at most
      `FreshnessWindow` milliseconds older than `now`. */
  predicate Fresh(timestamp: Str, now: int) {
    var headerTime := ParseInt(timestamp, 0);
    headerTime.Some? && now - headerTime.value <= FreshnessWindow
  }

  /** The response `handler` sends for `req` at time `now` (`Date.now()`)
      when `EXPECTED_EXTENSION_ID` is `expectedId`. */
  function Handle(req: Request, now: int, expectedId: Option<Str>): (r: Response)
    ensures r.status == 200 || r.status == 403 || r.status == 405
    ensures r.body.Failure? <==> r.status != 200
  {
    if req.verb == "OPTIONS" then Preflight
    else if req.verb != "POST" then MethodNotAllowed
    else if !Truthy(req.extAuth) || !Truthy(req.timestamp) || !Truthy(req.nonce) then AuthenticationRequired
    else if !Fresh(req.timestamp.value, now) then RequestExpired
    else
      var decryptedId := DecryptExtensionHeader(req.extAuth.value, req.timestamp.value, req.nonce.value);
      if !Truthy(decryptedId) || decryptedId != expectedId then InvalidExtension
      else Served
  }

  /** A preflight request is answered 200 `{}` whatever its headers. */
  lemma PreflightAlwaysOk(req: Request, now: int, expectedId: Option<Str>)
    requires req.verb == "OPTIONS"
    ensures Handle(req, now, expectedId) == Response(200, EmptyObject)
  {
  }

  /** Any method but POST and OPTIONS is refused with 405, headers unread. */
  lemma OtherMethodsRefused(req: Request, now: int, expectedId: Option<Str>)
    requires req.verb != "OPTIONS" && req.verb != "POST"
    ensures Handle(req, now, expectedId) == Response(405, Failure("Method not allowed"))
  {
  }

  /** A POST missing any of the three headers, or carrying an empty one,
      gets 403 "Authentication required" before anything else is checked. */
  lemma MissingHeaderRefused(req: Request, now: int, expectedId: Option<Str>)
    requires req.verb == "POST"
    requires !Truthy(req.extAuth) || !Truthy(req.timestamp) || !Truthy(req.nonce)
    ensures Handle(req, now, expectedId) == Response(403, Failure("Authentication required"))
  {
  }

  /** With all three headers present, the answer is "Request expired"
      exactly when the timestamp does not parse or is more than 30000 ms
      older than now; a timestamp exactly 30000 ms old, or from the
      future, passes. */
  lemma ExpiredExactly(req: Request, now: int, expectedId: Option<Str>)
    requires req.verb == "POST" && Truthy(req.extAuth) && Truthy(req.timestamp) && Truthy(req.nonce)
    ensures Handle(req, now, expectedId) == Response(403, Failure("Request expired")) <==>
      (ParseInt(req.timestamp.value, 0).None? || now - ParseInt(req.timestamp.value, 0).value > 30000)
  {
  }

  /** The page is served exactly when the request is a POST with all three
      headers, fresh, and its header decodes to a non-empty identifier
      equal to the configured one; every other POST gets a 403. */
  lemma ServedExactly(req: Request, now: int, expectedId: Option<Str>)
    requires req.verb == "POST"
    ensures Handle(req, now, expectedId).status == 200 <==>
      && Truthy(req.extAuth) && Truthy(req.timestamp) && Truthy(req.nonce)
      && Fresh(req.timestamp.value, now)
      && var id := DecryptExtensionHeader(req.extAuth.value, req.timestamp.value, req.nonce.value);
         id.Some? && |id.value| > 0 && expectedId == id
    ensures Handle(req, now, expectedId).status != 200 ==> Handle(req, now, expectedId).status == 403
  {
  }

  /** Past the freshness check, a POST is served exactly when its header
      decodes to a non-empty identifier equal to the configured one, and
      every other such request gets 403 "Invalid extension". */
  lemma InvalidExtensionExactly(req: Request, now: int, expectedId: Option<Str>)
    requires req.verb == "POST" && Truthy(req.extAuth) && Truthy(req.timestamp) && Truthy(req.nonce)
    requires Fresh(req.timestamp.value, now)
    ensures var id := DecryptExtensionHeader(req.extAuth.value, req.timestamp.value, req.nonce.value);
      Handle(req, now, expectedId) == if Truthy(id) && id == expectedId then Served else InvalidExtension
  {
  }

  /** A header the extension built, sent with a timestamp or nonce other
      than its own, is never served: it gets "Invalid extension" when the
      timestamp passes the freshness check and "Request expired" when not,
      whatever identifier is configured. */
  lemma WrongHeadersRefused(id: Str, t: nat, nonce: Str, timestamp: Str, nonce': Str, now: int, expectedId: Option<Str>)
    requires Utf8.WellFormed(id) && forall i | 0 <= i < |id| :: id[i] != Bar
    requires Utf8.WellFormed(nonce) && forall i | 0 <= i < |nonce| :: nonce[i] != Bar
    requires |timestamp| > 0 && |nonce'| > 0
    requires timestamp != NumberToString(Some(t)) || nonce' != nonce
    ensures var req := Request("POST", Some(EncodeExtensionHeader(id, t, nonce)), Some(timestamp), Some(nonce'));
      Handle(req, now, expectedId) == if Fresh(timestamp, now) then InvalidExtension else RequestExpired
  {
    var header := EncodeExtensionHeader(id, t, nonce);
    assert |header| > 0 by {
      EncodedHeaderNonEmpty(id, t, nonce);
    }
    assert DecryptExtensionHeader(header, timestamp, nonce') == None by {
      DecryptBinds(id, t, nonce, timestamp, nonce');
    }
  }

  /** The freshness check on a timestamp `String` printed: it passes
      exactly when the time is at most 30000 ms before `now`, so a
      timestamp exactly 30000 ms old passes and one 30001 ms old fails. */
  lemma FreshWindow(t: int, now: int)
    ensures Fresh(NumberToString(Some(t)), now) <==> now - t <= 30000
  {
    NumberRoundTrip(Some(t));
  }

  /** A served request carried a canonical decimal timestamp: no leading
      zero, no '+', no trailing characters. */
  lemma ServedTimestampCanonical(req: Request, now: int, expectedId: Option<Str>)
    requires req.verb == "POST" && Handle(req, now, expectedId) == Response(200, Library(false))
    ensures req.timestamp.Some? && CanonicalDecimal(req.timestamp.value)
  {
    var ts := req.timestamp.value;
    DecryptTimestampPrinted(req.extAuth.value, ts, req.nonce.value);
    assert ParseInt(NaNText, 0).None? by {
      assert DigitRun(NaNText, 10) == 0;
    }
  }

  /** Serving does not depend on the clock running forward: a request
      served at `now` is served at every earlier time too, so timestamps
      from the future are accepted. */
  lemma ServedEarlier(req: Request, now: int, earlier: int, expectedId: Option<Str>)
    requires req.verb == "POST" && Handle(req, now, expectedId).status == 200 && earlier <= now
    ensures Handle(req, earlier, expectedId).status == 200
  {
  }

  /** A header the extension built with the configured identifier, sent
      with its own timestamp (at most 30000 ms old) and nonce, is served.
      Nothing records nonces, so this holds for every request anew. */
  lemma HandleRoundTrip(id: Str, t: nat, nonce: Str, now: int)
    requires |id| > 0 && Utf8.WellFormed(id) && forall i | 0 <= i < |id| :: id[i] != Bar
    requires |nonce| > 0 && Utf8.WellFormed(nonce) && forall i | 0 <= i < |nonce| :: nonce[i] != Bar
    requires now - t <= 30000
    ensures var req := Request("POST", Some(EncodeExtensionHeader(id, t, nonce)), Some(NumberToString(Some(t))), Some(nonce));
      Handle(req, now, Some(id)) == Response(200, Library(false))
  {
    var header := EncodeExtensionHeader(id, t, nonce);
    var ts := NumberToString(Some(t));
    assert |header| > 0 by {
      EncodedHeaderNonEmpty(id, t, nonce);
    }
    assert |ts| > 0;
    assert Fresh(ts, now) by {
      ParseToRadix(t, 0);
    }
    assert DecryptExtensionHeader(header, ts, nonce) == Some(id) by {
      DecryptRoundTrip(id, t, nonce);
    }
  }

  lemma EncodedHeaderNonEmpty(id: Str, t: nat, nonce: Str)
    ensures |EncodeExtensionHeader(id, t, nonce)| > 0
  {
    var encrypted := Shift(Reverse(EncodeText(id + [Bar] + NumberToString(Some(t)) + [Bar] + nonce)));
    var outer := encrypted + Sentinel + ToRadix(t, 36);
    assert |outer| > 0;
    assert |Utf8.Encode(outer)| > 0;
  }
}
