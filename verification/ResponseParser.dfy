/**
 * `ParseHTTP1_1ResponseMessage`: the loop over the response buffer, proved to compute
 * ResponseAutomaton.Run.
 */
module ResponseParser {
  import opened Lexical
  import opened Headers
  import opened HTTPVersions
  import opened IOBuffers
  import opened ResponseAutomaton
  import opened ResponseMessages

  predicate LooksAtByte(s: ResponseParserState) {
    s !in {ResponseMessageBody, ParsingDone, ProtocolError}
  }

  /** One pass through the switch, in a state that looks at the byte. */
  method OnByte(before: char, b: char, current: ResponseParserState, msg: ResponseMessage)
    returns (state: ResponseParserState, consumed: bool)
    requires msg.Valid()
    requires LooksAtByte(current)
    modifies msg, msg.headers, msg.codeHolder
    ensures msg.Valid()
    ensures Step(before, b, Config(current, old(msg.View())))
         == if consumed then Advance(Config(state, msg.View())) else Stay(Config(state, msg.View()))
  {
    state, consumed := current, false;
    match current
    case ResponseProtocolH =>
      if b == 'H' {
        state := ResponseProtocolT1;
        consumed := true;
      } else {
        state := ProtocolError;
      }
    case ResponseProtocolT1 =>
      if b == 'T' {
        state := ResponseProtocolT2;
        consumed := true;
      } else {
        state := ProtocolError;
      }
    case ResponseProtocolT2 =>
      if b == 'T' {
        state := ResponseProtocolP;
        consumed := true;
      } else {
        state := ProtocolError;
      }
    case ResponseProtocolP =>
      if b == 'P' {
        state := ResponseProtocolSlash;
        consumed := true;
      } else {
        state := ProtocolError;
      }
    case ResponseProtocolSlash =>
      if b == '/' {
        state := ResponseProtocolVersionMajor;
        consumed := true;
      } else {
        state := ProtocolError;
      }
    case ResponseProtocolVersionMajor =>
      if b == '1' {
        state := ResponseProtocolDot;
        consumed := true;
      } else {
        state := ProtocolError;
      }
    case ResponseProtocolDot =>
      if b == '.' {
        state := ResponseProtocolVersionMinor;
        consumed := true;
      } else {
        state := ProtocolError;
      }
    case ResponseProtocolVersionMinor =>
      if IsDigit(b) {
        msg.SetHTTPVersion(HTTP1_1);
        consumed := true;
      } else if b == SP {
        state := StatusCode;
        consumed := true;
      } else {
        state := ProtocolError;
      }
    case StatusCode =>
      if IsDigit(b) {
        msg.PushBackResponseCode(b);
        consumed := true;
      } else if b == SP {
        var digits := msg.GetTempStatusCode();
        msg.SetResponseCode(Atoi(digits));
        state := ResponseReasonPhrase;
        consumed := true;
      } else {
        state := ProtocolError;
      }
    case ResponseReasonPhrase =>
      if b == CR {
        state := StatusLineLF;
        consumed := true;
      } else if IsText(b) {
        consumed := true;
      } else {
        state := ProtocolError;
      }
    case StatusLineLF =>
      if b == LF {
        state := HeaderName;
        consumed := true;
      } else {
        state := ProtocolError;
      }
    case HeaderName =>
      if IsToken(b) {
        msg.PushBackHeaderName(b);
        consumed := true;
      } else if b == ':' {
        state := HeaderValue;
        consumed := true;
      } else if b == CR {
        state := HeaderEndLF;
        consumed := true;
      } else {
        state := ProtocolError;
      }
    case HeaderValue =>
      if b == CR {
        state := HeaderValueLF;
        consumed := true;
      } else if IsText(b) {
        if before == ':' {
          consumed := true;
        } else {
          msg.PushBackHeaderValue(b);
          consumed := true;
        }
      } else {
        state := ProtocolError;
      }
    case HeaderValueLF =>
      if b == LF {
        consumed := true;
        msg.AddTempHeadersHolderToMessage();
        state := HeaderName;
      } else {
        state := ProtocolError;
      }
    case HeaderEndLF =>
      if b == LF {
        var hasLength := msg.headers.HeaderContains(CONTENT_LENGTH);
        state := if hasLength then ResponseMessageBody else ParsingDone;
        consumed := true;
      } else {
        state := ProtocolError;
      }
    case _ =>
  }

  // What is left to compute when the loop stands at index start of the written bytes
  ghost function Remaining(bytes: string, start: nat, c: Config): Config
    requires start <= |bytes|
  {
    Run(Last('\0', bytes[..start]), bytes[start..], c)
  }

  lemma RemainingStep(bytes: string, start: nat, c: Config)
    requires start < |bytes|
    ensures Remaining(bytes, start, c)
         == match Step(Last('\0', bytes[..start]), bytes[start], c)
            case Advance(c') => Remaining(bytes, start + 1, c')
            case Stay(c') => c'
            case TakeRest => TakeBody(c, bytes[start..])
            case Leave => c
  {
    assert bytes[start..][1..] == bytes[start + 1..];
    assert Last('\0', bytes[..start + 1]) == bytes[start];
  }

  lemma RemainingAtEnd(bytes: string, start: nat, c: Config)
    requires start <= |bytes|
    requires start == |bytes| || !LooksAtByte(c.state)
    ensures Remaining(bytes, start, c)
         == if start != |bytes| && c.state == ResponseMessageBody then TakeBody(c, bytes[start..]) else c
  {
    if start < |bytes| {
      RemainingStep(bytes, start, c);
    }
  }

  lemma RejectIsError(before: char, b: char, c: Config)
    ensures Step(before, b, c).Stay? ==> Step(before, b, c).next.state == ProtocolError
  {
  }

  /** One pass of the loop, at an index of the buffer. */
  method Pass(buffer: IOBuffer, start: nat, current: ResponseParserState, msg: ResponseMessage)
    returns (state: ResponseParserState, consumed: bool)
    requires buffer.Valid() && msg.Valid() && {buffer, buffer.data} !! msg.Repr()
    requires start < buffer.endOffset && LooksAtByte(current)
    requires current == HeaderValue ==> start > 0
    modifies msg, msg.headers, msg.codeHolder
    ensures msg.Valid() && (!consumed ==> state == ProtocolError)
    ensures Remaining(buffer.Written(), start, Config(current, old(msg.View())))
         == if consumed then Remaining(buffer.Written(), start + 1, Config(state, msg.View()))
            else Config(state, msg.View())
  {
    ghost var c := Config(current, msg.View());
    RemainingStep(buffer.Written(), start, c);
    var before := if start == 0 then '\0' else buffer.data[start - 1];
    RejectIsError(before, buffer.data[start], c);
    state, consumed := OnByte(before, buffer.data[start], current, msg);
  }

  /**
   * Parses the working data of the buffer.  A call that resumes inside a header value looks at
   * the byte before the start offset, so there must be one.
   */
  method Parse(buffer: IOBuffer, current: ResponseParserState, msg: ResponseMessage)
    returns (state: ResponseParserState)
    requires buffer.Valid() && msg.Valid() && {buffer, buffer.data} !! msg.Repr()
    requires current == HeaderValue ==> buffer.startOffset > 0
    modifies msg.Repr()
    ensures msg.Valid() && fresh(msg.Repr() - old(msg.Repr()))
    ensures Remaining(buffer.Written(), buffer.startOffset, Config(current, old(msg.View())))
         == Config(state, msg.View())
  {
    hide Run, Remaining;
    state := current;
    var start, end := buffer.startOffset, buffer.endOffset;
    ghost var bytes := buffer.Written();
    ghost var outcome := Remaining(bytes, start, Config(state, msg.View()));
    while start != end && LooksAtByte(state)
      invariant start <= end == |bytes| == buffer.endOffset && buffer.Valid() && buffer.Written() == bytes
      invariant msg.Valid() && msg.Repr() == old(msg.Repr())
      invariant state == HeaderValue ==> start > 0
      invariant Remaining(bytes, start, Config(state, msg.View())) == outcome
      decreases end - start, state != ProtocolError
    {
      var consumed;
      state, consumed := Pass(buffer, start, state, msg);
      if consumed {
        start := start + 1;
      } else {
        RemainingAtEnd(bytes, start, Config(state, msg.View()));
      }
    }
    RemainingAtEnd(bytes, start, Config(state, msg.View()));
    if start != end && state == ResponseMessageBody {
      msg.PushBackRawBody(buffer.data[start..end]);
      state := ParsingDone;
    }
  }
}
