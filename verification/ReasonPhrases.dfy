/**
 * `string_from_response_code`: the reason phrases, a few codes at a time.
 */
module ReasonPhrases {
  import opened Lexical

  // A reason phrase is text, so the response parser reads over it.
  type Phrase = s: string | Text(s)

  // The phrase of a code; empty for a value the table does not name
  function ReasonPhrase(code: int): Phrase {
    if code < 200 then PhraseFrom100(code)
    else if code < 203 then PhraseFrom200(code)
    else if code < 205 then PhraseFrom203(code)
    else if code < 300 then PhraseFrom205(code)
    else if code < 304 then PhraseFrom300(code)
    else if code < 400 then PhraseFrom304(code)
    else if code < 403 then PhraseFrom400(code)
    else if code < 406 then PhraseFrom403(code)
    else if code < 408 then PhraseFrom406(code)
    else if code < 411 then PhraseFrom408(code)
    else if code < 413 then PhraseFrom411(code)
    else if code < 415 then PhraseFrom413(code)
    else if code < 416 then PhraseFrom415(code)
    else if code < 500 then PhraseFrom416(code)
    else if code < 502 then PhraseFrom500(code)
    else if code < 504 then PhraseFrom502(code)
    else PhraseFrom504(code)
  }

  // The phrase the printer gives a code: that of the code, but 307 gets the phrase of 305.
  function PrintedPhrase(code: int): Phrase {
    ReasonPhrase(if code == 307 then 305 else code)
  }

  function PhraseFrom100(code: int): Phrase {
    match code
    case 100 => "Continue"
    case 101 => "Switching Protocols"
    case _ => ""
  }

  function PhraseFrom200(code: int): Phrase {
    match code
    case 200 => "OK"
    case 201 => "Created"
    case 202 => "Accepted"
    case _ => ""
  }

  function PhraseFrom203(code: int): Phrase {
    match code
    case 203 => "Non-Authoritative Information"
    case 204 => "No Content"
    case _ => ""
  }

  function PhraseFrom205(code: int): Phrase {
    match code
    case 205 => "Reset Content"
    case 206 => "Partial Content"
    case _ => ""
  }

  function PhraseFrom300(code: int): Phrase {
    match code
    case 300 => "Multiple Choices"
    case 301 => "Moved Permanently"
    case 302 => "Found"
    case 303 => "See Other"
    case _ => ""
  }

  function PhraseFrom304(code: int): Phrase {
    match code
    case 304 => "Not Modified"
    case 305 => "Use Proxy"
    case 307 => "Temporary Redirect"
    case _ => ""
  }

  function PhraseFrom400(code: int): Phrase {
    match code
    case 400 => "Bad Request"
    case 401 => "Unauthorized"
    case 402 => "Payment Required"
    case _ => ""
  }

  function PhraseFrom403(code: int): Phrase {
    match code
    case 403 => "Forbidden"
    case 404 => "Not Found"
    case 405 => "Method Not Allowed"
    case _ => ""
  }

  function PhraseFrom406(code: int): Phrase {
    match code
    case 406 => "Not Acceptable"
    case 407 => "Proxy Authentication Required"
    case _ => ""
  }

  function PhraseFrom408(code: int): Phrase {
    match code
    case 408 => "Request Time-out"
    case 409 => "Conflict"
    case 410 => "Gone"
    case _ => ""
  }

  function PhraseFrom411(code: int): Phrase {
    match code
    case 411 => "Length Required"
    case 412 => "Precondition Failed"
    case _ => ""
  }

  function PhraseFrom413(code: int): Phrase {
    match code
    case 413 => "Request Entity Too Large"
    case 414 => "Request-URI Too Large"
    case _ => ""
  }

  function PhraseFrom415(code: int): Phrase {
    match code
    case 415 => "Unsupported Media Type"
    case _ => ""
  }

  function PhraseFrom416(code: int): Phrase {
    match code
    case 416 => "Requested range not satisfiable"
    case 417 => "Expectation Failed"
    case _ => ""
  }

  function PhraseFrom500(code: int): Phrase {
    match code
    case 500 => "Internal Server Error"
    case 501 => "Not Implemented"
    case _ => ""
  }

  function PhraseFrom502(code: int): Phrase {
    match code
    case 502 => "Bad Gateway"
    case 503 => "Service Unavailable"
    case _ => ""
  }

  function PhraseFrom504(code: int): Phrase {
    match code
    case 504 => "Gateway Time-out"
    case 505 => "HTTP Version not supported"
    case _ => ""
  }
}
