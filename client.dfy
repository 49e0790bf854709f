/**
  The Yubico client object: its API id and decoded key, the endpoint list it
  checks against, the reason of the last answer, and the verify() /
  verifyYubicoOtp() sequence of parse, request, response and decision.
*/
module Client {
  import opened Wrappers
  import opened PhpStrings
  import opened OtpParser
  import opened Request
  import opened Response
  import opened OtpLayouts

  /** The exceptions a verification can end in. */
  datatype Failure =
    | InvalidOtp        // InvalidArgumentException: the input did not parse as an OTP
    | TransportFailure  // whatever the HTTP adapter throws

  /** The five endpoints a new client starts with. */
  const DefaultUrls: seq<string> := [
    "https://api.yubico.com/wsapi/2.0/verify",
    "https://api2.yubico.com/wsapi/2.0/verify",
    "https://api3.yubico.com/wsapi/2.0/verify",
    "https://api4.yubico.com/wsapi/2.0/verify",
    "https://api5.yubico.com/wsapi/2.0/verify"
  ]

  /** $this->urls[0]: the first endpoint, or "" (PHP null) for an empty list. */
  function FirstUrl(urls: seq<string>): string {
    if |urls| > 0 then urls[0] else ""
  }

  /** $parsedResponse['status']: None (PHP null) when the answer has no status line. */
  function Status(data: map<string, string>): Option<string> {
    if "status" in data then Some(data["status"]) else None
  }

  /** The status as trim() sees it: PHP null reads as "". */
  function StatusText(data: map<string, string>): string {
    Status(data).GetOr("")
  }

  /** The two kinds of PHP value the decision compares. */
  datatype PhpValue = PhpBool(b: bool) | PhpInt(i: int)

  /**
    The decision as written: it returns true only when
    (!strcmp($status, 'ok')) !== 0 is false. The left side is a bool and
    !== also compares types, so the condition never is.
  */
  function AsWrittenAccept(statusText: string): bool {
    var status := Lower(Trim(statusText));
    var notCmp := PhpBool(Strcmp(status, "ok") == 0);
    !(notCmp != PhpInt(0))
  }

  /** No answer is ever accepted by the decision as written. */
  lemma AsWrittenNeverAccepts(statusText: string)
    ensures !AsWrittenAccept(statusText)
  {
  }

  /** What the comparison evidently means: the status, trimmed and lower-cased, is "ok". */
  predicate IntendedAccept(statusText: string) {
    Lower(Trim(statusText)) == "ok"
  }

  /** The intended decision accepts exactly the four spellings of OK, once trimmed. */
  lemma IntendedAcceptExactly(statusText: string)
    ensures IntendedAccept(statusText) <==> Trim(statusText) in {"ok", "oK", "Ok", "OK"}
  {
    var t := Trim(statusText);
    if IntendedAccept(statusText) {
      assert |t| == 2;
      assert LowerChar(t[0]) == 'o' && LowerChar(t[1]) == 'k';
      assert t[0] in "oO" && t[1] in "kK";
      assert t == [t[0], t[1]];
    }
    if t in {"ok", "oK", "Ok", "OK"} {
      SpellingsOfOk(t);
    }
  }

  lemma OkAccepted(v: string)
    requires v == "OK"
    ensures IntendedAccept(v) && '=' !in v && '\n' !in v
  {
    SpellingsOfOk(v);
    assert Trim(v) == v;
  }

  lemma SpellingsOfOk(t: string)
    requires t in {"ok", "oK", "Ok", "OK"}
    ensures Lower(t) == "ok"
  {
    assert Lower(t) == [LowerChar(t[0]), LowerChar(t[1])];
  }

  /**
    The end of verifyYubicoOtp() for an answer: parseResponse(), the status
    kept as the reason, and the decision on it as written.
  */
  method Decide(body: string) returns (accepted: bool, status: Option<string>)
    ensures status == Status(ResponseData(body))
    ensures accepted == AsWrittenAccept(StatusText(ResponseData(body)))
    ensures !accepted
  {
    var parsedResponse := ParseResponse(body);
    status := Status(parsedResponse);
    accepted := AsWrittenAccept(StatusText(parsedResponse));
    AsWrittenNeverAccepts(StatusText(parsedResponse));
  }

  /** The one request a round sends, if any, as the log records it. */
  function Logged(request: Option<string>): seq<string> {
    match request
    case None => []
    case Some(url) => [url]
  }

  /** One call of verifyYubicoOtp(): its result, the reason afterwards and the URL requested. */
  datatype Round = Round(result: Result<bool, Failure>, reason: Option<string>, request: Option<string>)

  class Yubico {
    const id: string
    /** The API key after base64_decode(). */
    const key: string
    /** adapter->get(url): the body of the answer, or None when the adapter throws. */
    const adapter: string -> Option<string>
    const primitives: Primitives
    var urls: seq<string>
    var reason: Option<string>
    /** The URLs requested so far, in order. */
    ghost var requests: seq<string>

    constructor (id: string, encodedKey: string, adapter: string -> Option<string>, primitives: Primitives)
      ensures this.id == id && key == primitives.base64Decode(encodedKey)
      ensures this.adapter == adapter && this.primitives == primitives
      ensures urls == DefaultUrls && reason == None && requests == []
    {
      this.id := id;
      this.key := primitives.base64Decode(encodedKey);
      this.adapter := adapter;
      this.primitives := primitives;
      urls := DefaultUrls;
      reason := None;
      requests := [];
    }

    /** The query sent for an OTP: the sorted parameters, signed when the key is set. */
    function Query(otp: string, nonce: string): string {
      Signed(Serialize(SortedParams(id, otp, nonce)), key, primitives)
    }

    /** The URL requested for an OTP: always the first endpoint, whatever URL the round was given. */
    function RequestUrl(urls: seq<string>, otp: string, nonce: string): string {
      FirstUrl(urls) + "?" + Query(otp, nonce)
    }

    /** What one verifyYubicoOtp() call does, from the endpoint list and the reason before it. */
    function Attempt(otp: string, nonce: string, urls: seq<string>, reason: Option<string>): Round {
      match ParsePasswordOtp(otp)
      case None => Round(Failure(InvalidOtp), reason, None)
      case Some(parsed) => Exchange(parsed.otp, nonce, urls, reason)
    }

    /** The rest of the call once the OTP has parsed: request, answer, reason and decision. */
    function Exchange(otp: string, nonce: string, urls: seq<string>, reason: Option<string>): Round {
      var url := RequestUrl(urls, otp, nonce);
      match adapter(url)
      case None => Round(Failure(TransportFailure), reason, Some(url))
      case Some(body) =>
        var data := ResponseData(body);
        Round(Success(AsWrittenAccept(StatusText(data))), Status(data), Some(url))
    }

    /**
      verifyYubicoOtp(): parse the OTP, build and sign the query, request it,
      record the status as the reason and decide. The url argument is not used.
    */
    method VerifyYubicoOtp(otp: string, url: string, nonce: string) returns (r: Result<bool, Failure>)
      modifies this`reason, this`requests
      ensures var a := Attempt(otp, nonce, urls, old(reason));
              r == a.result && reason == a.reason && requests == old(requests) + Logged(a.request)
    {
      var ret := ParsePasswordOtp(otp);
      if ret.None? {
        return Failure(InvalidOtp);
      }
      r := Send(ret.value.otp, nonce);
    }

    /** The part of verifyYubicoOtp() after the parse, for the OTP it returned. */
    method Send(otp: string, nonce: string) returns (r: Result<bool, Failure>)
      modifies this`reason, this`requests
      ensures var a := Exchange(otp, nonce, urls, old(reason));
              r == a.result && reason == a.reason && requests == old(requests) + Logged(a.request)
    {
      var requestUrl := BuildRequest(otp, nonce);
      requests := requests + [requestUrl];
      var res := adapter(requestUrl);
      if res.None? {
        return Failure(TransportFailure);
      }
      var accepted, status := Decide(res.value);
      reason := status;
      r := Success(accepted);
    }

    /**
      The request of verifyYubicoOtp() for a parsed OTP: the sorted parameters
      joined into a query, signed when the key is set, appended to urls[0].
    */
    method BuildRequest(otp: string, nonce: string) returns (requestUrl: string)
      ensures requestUrl == RequestUrl(urls, otp, nonce)
    {
      var query := UnsignedQuery(id, otp, nonce);
      var parameters := Signed(query, key, primitives);
      requestUrl := FirstUrl(urls) + "?" + parameters;
    }

    /**
      verify(): against the first endpoint, or with multiple set against each
      endpoint in turn until one round does not return true; the k-th round
      uses nonce(k). Since no round returns true, at most one round runs.
    */
    method Verify(otp: string, multiple: bool, nonce: nat -> string) returns (r: Result<bool, Failure>)
      modifies this`reason, this`requests
      ensures multiple && |urls| == 0 ==>
                r == Success(true) && reason == old(reason) && requests == old(requests)
      ensures !(multiple && |urls| == 0) ==>
                var a := Attempt(otp, nonce(0), urls, old(reason));
                r == a.result && reason == a.reason && requests == old(requests) + Logged(a.request)
    {
      if multiple {
        var i := 0;
        r := Success(true);
        while i < |urls| && r == Success(true)
          invariant 0 <= i <= |urls|
          invariant i == 0 ==> r == Success(true) && reason == old(reason) && requests == old(requests)
          invariant i > 0 ==> i == 1 && r != Success(true)
          invariant i > 0 ==> var a := Attempt(otp, nonce(0), urls, old(reason));
                                r == a.result && reason == a.reason && requests == old(requests) + Logged(a.request)
          decreases |urls| - i
        {
          r := VerifyYubicoOtp(otp, urls[i], nonce(i));
          AttemptNeverAccepts(otp, nonce(i), urls, old(reason));
          i := i + 1;
        }
      } else {
        r := VerifyYubicoOtp(otp, FirstUrl(urls), nonce(0));
      }
    }

    /** getReason() */
    method GetReason() returns (r: Option<string>)
      ensures r == reason
    {
      r := reason;
    }

    /** setUrls() */
    method SetUrls(newUrls: seq<string>)
      modifies this`urls
      ensures urls == newUrls
    {
      urls := newUrls;
    }

    /** A round never returns true: it fails, or the decision as written says false. */
    lemma AttemptNeverAccepts(otp: string, nonce: string, urls: seq<string>, reason: Option<string>)
      ensures Attempt(otp, nonce, urls, reason).result != Success(true)
    {
      match ParsePasswordOtp(otp)
      case None =>
      case Some(parsed) =>
        match adapter(RequestUrl(urls, parsed.otp, nonce))
        case None =>
        case Some(body) =>
          AsWrittenNeverAccepts(StatusText(ResponseData(body)));
    }

    /**
      An input that does not parse ends the round with InvalidOtp before any
      request, leaving the reason as it was; any other input sends exactly one.
    */
    lemma AttemptRejectsUnparsable(otp: string, nonce: string, urls: seq<string>, reason: Option<string>)
      ensures (Attempt(otp, nonce, urls, reason).result == Failure(InvalidOtp)) <==> ParsePasswordOtp(otp).None?
      ensures ParsePasswordOtp(otp).None? ==> Attempt(otp, nonce, urls, reason).reason == reason
      ensures Attempt(otp, nonce, urls, reason).request.Some? <==> ParsePasswordOtp(otp).Some?
    {
    }

    /**
      After any answer, the reason is the raw value (untrimmed, in its original
      case) of the last line with key status, or None when no line has that key.
    */
    lemma ReasonIsRawStatus(otp: string, nonce: string, urls: seq<string>, reason: Option<string>, body: string)
      requires ParsePasswordOtp(otp).Some?
      requires adapter(RequestUrl(urls, ParsePasswordOtp(otp).value.otp, nonce)) == Some(body)
      ensures var lines := Explode(body, '\n');
              (forall i :: 0 <= i < |lines| ==> !HasKey(lines[i], "status")) ==>
                Attempt(otp, nonce, urls, reason).reason == None
      ensures var lines := Explode(body, '\n');
              forall i :: (0 <= i < |lines| && HasKey(lines[i], "status")
                           && (forall j :: i < j < |lines| ==> !HasKey(lines[j], "status"))) ==>
                Attempt(otp, nonce, urls, reason).reason == Some(LineEntry(lines[i]).value.1)
    {
      CollectLookup(Explode(body, '\n'), "status");
    }

    /**
      The OTP ccccccbdefghcbdefghcbdefghcbdefgh and an adapter that answers
      "status=OK\n" to every URL: the round stores the reason OK and returns
      false, although a good OTP should give true and the intended decision
      accepts OK.
    */
    lemma ScenarioRound(otp: string, nonce: string, urls: seq<string>, reason: Option<string>, v: string)
      requires otp == ExampleText && v == "OK"
      requires forall u :: adapter(u) == Some("status=" + v + "\n")
      ensures Attempt(otp, nonce, urls, reason) == Round(Success(false), Some(v), Some(RequestUrl(urls, otp, nonce)))
      ensures IntendedAccept(v)
    {
      ExampleOtp(otp);
      var parsed := ParsedOtp("", otp, "c", "cccccbdefghcbdefghcbdefghcbdefgh");
      StatusAnswered(otp, nonce, urls, reason, parsed, v);
      OkAccepted(v);
    }

    /** A parsed OTP answered with a lone status line v: reason v, result false. */
    lemma StatusAnswered(otp: string, nonce: string, urls: seq<string>, reason: Option<string>, parsed: ParsedOtp, v: string)
      requires ParsePasswordOtp(otp) == Some(parsed)
      requires '=' !in v && '\n' !in v
      requires adapter(RequestUrl(urls, parsed.otp, nonce)) == Some("status=" + v + "\n")
      ensures Attempt(otp, nonce, urls, reason) == Round(Success(false), Some(v), Some(RequestUrl(urls, parsed.otp, nonce)))
    {
      StatusLine(v);
      AsWrittenNeverAccepts(v);
    }

    /**
      What the server receives: the query splits at '&' into id, nonce, otp,
      sl, timeout and timestamp in that order, then h exactly when the key is
      set.
    */
    lemma QueryFields(otp: string, nonce: string)
      requires '&' !in id && '&' !in nonce && '&' !in otp
      requires key != "" ==> '&' !in primitives.base64Encode(
                 primitives.hmacSha1(Serialize(SortedParams(id, otp, nonce)), key))
      ensures Explode(Query(otp, nonce), '&')
                == ["id=" + id, "nonce=" + nonce, "otp=" + otp, "sl=0", "timeout=30", "timestamp=1"]
                   + (if key != "" then ["h=" + Signature(Serialize(SortedParams(id, otp, nonce)), key, primitives)] else [])
    {
      SortedFree(id, otp, nonce);
      SignedRoundTrip(SortedParams(id, otp, nonce), key, primitives);
      SortedPairs(id, otp, nonce);
    }
  }

  /** The OTP a parse returns holds only letters of an alphabet, so no '&'. */
  lemma ParsedOtpFree(otp: string)
    requires ParsePasswordOtp(otp).Some?
    ensures '&' !in ParsePasswordOtp(otp).value.otp
  {
    ParsedOtpLetters(otp);
    LettersFree(ParsePasswordOtp(otp).value.otp, Modhex, Dvorak);
  }
}
