/**
 * HTTPResponseCodes: the named codes and their values, and the table of phrases name by name.
 */
module ResponseCodes {
  import opened ReasonPhrases

  datatype HTTPResponseCode =
    | Continue
    | SwitchingProtocols
    | Ok
    | Created
    | Accepted
    | NonAuthoritativeInformation
    | NoContent
    | ResetContent
    | PartialContent
    | MultipleChoices
    | MovedPermanently
    | Found
    | SeeOther
    | NotModified
    | UseProxy
    | TemporaryRedirect
    | BadRequest
    | Unauthorized
    | PaymentRequired
    | Forbidden
    | NotFound
    | MethodNotAllowed
    | NotAcceptable
    | ProxyAuthenticationRequired
    | RequestTimeOut
    | Conflict
    | Gone
    | LengthRequired
    | PreconditionFailed
    | RequestEntityTooLarge
    | RequestURITooLarge
    | UnsupportedMediaType
    | RequestRangeNotSatisfiable
    | ExpectationFailed
    | InternalServerError
    | NotImplemented
    | BadGateway
    | ServiceUnavailable
    | GatewayTimeOut
    | HttpVersionNotSupported
    | InvalidHttpCode

  function Value(c: HTTPResponseCode): int {
    match c
    case Continue => 100
    case SwitchingProtocols => 101
    case Ok => 200
    case Created => 201
    case Accepted => 202
    case NonAuthoritativeInformation => 203
    case NoContent => 204
    case ResetContent => 205
    case PartialContent => 206
    case MultipleChoices => 300
    case MovedPermanently => 301
    case Found => 302
    case SeeOther => 303
    case NotModified => 304
    case UseProxy => 305
    case TemporaryRedirect => 307
    case BadRequest => 400
    case Unauthorized => 401
    case PaymentRequired => 402
    case Forbidden => 403
    case NotFound => 404
    case MethodNotAllowed => 405
    case NotAcceptable => 406
    case ProxyAuthenticationRequired => 407
    case RequestTimeOut => 408
    case Conflict => 409
    case Gone => 410
    case LengthRequired => 411
    case PreconditionFailed => 412
    case RequestEntityTooLarge => 413
    case RequestURITooLarge => 414
    case UnsupportedMediaType => 415
    case RequestRangeNotSatisfiable => 416
    case ExpectationFailed => 417
    case InternalServerError => 500
    case NotImplemented => 501
    case BadGateway => 502
    case ServiceUnavailable => 503
    case GatewayTimeOut => 504
    case HttpVersionNotSupported => 505
    case InvalidHttpCode => 506
  }

  // The name of a value; InvalidHttpCode for a value that has no other name
  function NameOf(code: int): HTTPResponseCode {
    match code
    case 100 => Continue
    case 101 => SwitchingProtocols
    case 200 => Ok
    case 201 => Created
    case 202 => Accepted
    case 203 => NonAuthoritativeInformation
    case 204 => NoContent
    case 205 => ResetContent
    case 206 => PartialContent
    case 300 => MultipleChoices
    case 301 => MovedPermanently
    case 302 => Found
    case 303 => SeeOther
    case 304 => NotModified
    case 305 => UseProxy
    case 307 => TemporaryRedirect
    case 400 => BadRequest
    case 401 => Unauthorized
    case 402 => PaymentRequired
    case 403 => Forbidden
    case 404 => NotFound
    case 405 => MethodNotAllowed
    case 406 => NotAcceptable
    case 407 => ProxyAuthenticationRequired
    case 408 => RequestTimeOut
    case 409 => Conflict
    case 410 => Gone
    case 411 => LengthRequired
    case 412 => PreconditionFailed
    case 413 => RequestEntityTooLarge
    case 414 => RequestURITooLarge
    case 415 => UnsupportedMediaType
    case 416 => RequestRangeNotSatisfiable
    case 417 => ExpectationFailed
    case 500 => InternalServerError
    case 501 => NotImplemented
    case 502 => BadGateway
    case 503 => ServiceUnavailable
    case 504 => GatewayTimeOut
    case 505 => HttpVersionNotSupported
    case _ => InvalidHttpCode
  }

  lemma NameOfValue(c: HTTPResponseCode)
    ensures NameOf(Value(c)) == c
  {
    hide NameOf;
    if Value(c) < 305 {
      NameOfSmallValue(c);
    } else if Value(c) < 409 {
      NameOfMiddleValue(c);
    } else {
      NameOfLargeValue(c);
    }
  }

  lemma NameOfSmallValue(c: HTTPResponseCode)
    requires Value(c) < 305
    ensures NameOf(Value(c)) == c
  {
  }

  lemma NameOfMiddleValue(c: HTTPResponseCode)
    requires 305 <= Value(c) < 409
    ensures NameOf(Value(c)) == c
  {
  }

  lemma NameOfLargeValue(c: HTTPResponseCode)
    requires 409 <= Value(c)
    ensures NameOf(Value(c)) == c
  {
  }

  lemma NamedRanges(code: int)
    ensures NameOf(code) != InvalidHttpCode
       <==> || 100 <= code <= 101 || 200 <= code <= 206 || 300 <= code <= 305 || code == 307
            || 400 <= code <= 417 || 500 <= code <= 505
  {
  }

  lemma ValueOfName(code: int)
    ensures NameOf(code) != InvalidHttpCode ==> Value(NameOf(code)) == code
  {
  }

  lemma PhrasesFrom100()
    ensures Value(Continue) == 100 && ReasonPhrase(100) == "Continue"
    ensures Value(SwitchingProtocols) == 101 && ReasonPhrase(101) == "Switching Protocols"
    ensures Value(Ok) == 200 && ReasonPhrase(200) == "OK"
    ensures Value(Created) == 201 && ReasonPhrase(201) == "Created"
    ensures Value(Accepted) == 202 && ReasonPhrase(202) == "Accepted"
  {
  }

  lemma PhrasesFrom203()
    ensures Value(NonAuthoritativeInformation) == 203 && ReasonPhrase(203) == "Non-Authoritative Information"
    ensures Value(NoContent) == 204 && ReasonPhrase(204) == "No Content"
    ensures Value(ResetContent) == 205 && ReasonPhrase(205) == "Reset Content"
    ensures Value(PartialContent) == 206 && ReasonPhrase(206) == "Partial Content"
  {
  }

  lemma PhrasesFrom300()
    ensures Value(MultipleChoices) == 300 && ReasonPhrase(300) == "Multiple Choices"
    ensures Value(MovedPermanently) == 301 && ReasonPhrase(301) == "Moved Permanently"
    ensures Value(Found) == 302 && ReasonPhrase(302) == "Found"
    ensures Value(SeeOther) == 303 && ReasonPhrase(303) == "See Other"
  {
  }

  lemma PhrasesFrom304()
    ensures Value(NotModified) == 304 && ReasonPhrase(304) == "Not Modified"
    ensures Value(UseProxy) == 305 && ReasonPhrase(305) == "Use Proxy"
    ensures Value(TemporaryRedirect) == 307 && ReasonPhrase(307) == "Temporary Redirect"
  {
  }

  lemma PhrasesFrom400()
    ensures Value(BadRequest) == 400 && ReasonPhrase(400) == "Bad Request"
    ensures Value(Unauthorized) == 401 && ReasonPhrase(401) == "Unauthorized"
    ensures Value(PaymentRequired) == 402 && ReasonPhrase(402) == "Payment Required"
  {
  }

  lemma PhrasesFrom403()
    ensures Value(Forbidden) == 403 && ReasonPhrase(403) == "Forbidden"
    ensures Value(NotFound) == 404 && ReasonPhrase(404) == "Not Found"
    ensures Value(MethodNotAllowed) == 405 && ReasonPhrase(405) == "Method Not Allowed"
  {
  }

  lemma PhrasesFrom406()
    ensures Value(NotAcceptable) == 406 && ReasonPhrase(406) == "Not Acceptable"
    ensures Value(ProxyAuthenticationRequired) == 407 && ReasonPhrase(407) == "Proxy Authentication Required"
  {
  }

  lemma PhrasesFrom408()
    ensures Value(RequestTimeOut) == 408 && ReasonPhrase(408) == "Request Time-out"
    ensures Value(Conflict) == 409 && ReasonPhrase(409) == "Conflict"
    ensures Value(Gone) == 410 && ReasonPhrase(410) == "Gone"
  {
  }

  lemma PhrasesFrom411()
    ensures Value(LengthRequired) == 411 && ReasonPhrase(411) == "Length Required"
    ensures Value(PreconditionFailed) == 412 && ReasonPhrase(412) == "Precondition Failed"
  {
  }

  lemma PhrasesFrom413()
    ensures Value(RequestEntityTooLarge) == 413 && ReasonPhrase(413) == "Request Entity Too Large"
    ensures Value(RequestURITooLarge) == 414 && ReasonPhrase(414) == "Request-URI Too Large"
  {
  }

  lemma PhrasesFrom415()
    ensures Value(UnsupportedMediaType) == 415 && ReasonPhrase(415) == "Unsupported Media Type"
  {
  }

  lemma PhrasesFrom416()
    ensures Value(RequestRangeNotSatisfiable) == 416 && ReasonPhrase(416) == "Requested range not satisfiable"
    ensures Value(ExpectationFailed) == 417 && ReasonPhrase(417) == "Expectation Failed"
  {
  }

  lemma PhrasesFrom500()
    ensures Value(InternalServerError) == 500 && ReasonPhrase(500) == "Internal Server Error"
    ensures Value(NotImplemented) == 501 && ReasonPhrase(501) == "Not Implemented"
  {
  }

  lemma PhrasesFrom502()
    ensures Value(BadGateway) == 502 && ReasonPhrase(502) == "Bad Gateway"
    ensures Value(ServiceUnavailable) == 503 && ReasonPhrase(503) == "Service Unavailable"
  {
  }

  lemma PhrasesFrom504()
    ensures Value(GatewayTimeOut) == 504 && ReasonPhrase(504) == "Gateway Time-out"
    ensures Value(HttpVersionNotSupported) == 505 && ReasonPhrase(505) == "HTTP Version not supported"
  {
  }

  lemma InvalidHasNoPhrase()
    ensures Value(InvalidHttpCode) == 506 && ReasonPhrase(506) == ""
  {
  }

  // The one phrase the printer takes from another code
  lemma PrintedPhrases(code: int)
    ensures PrintedPhrase(code) == if code == 307 then "Use Proxy" else ReasonPhrase(code)
  {
    PhrasesFrom304();
    hide ReasonPhrase;
  }

  // A code has a phrase iff it has a name other than InvalidHttpCode.
  lemma PhraseIffNamed(code: int)
    ensures ReasonPhrase(code) != "" <==> NameOf(code) != InvalidHttpCode
  {
    NamedRanges(code);
    hide NameOf;
  }
}
