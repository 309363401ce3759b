/**
 * `ParseHTTP1_1RequestMessage`: the loop over the request buffer, with the state held by the
 * caller and the message filled in place, proved to compute RequestAutomaton.Run.
 */
module RequestParser {
  import opened Lexical
  import opened Headers
  import opened HTTPVersions
  import opened IOBuffers
  import opened RequestAutomaton
  import opened RequestMessages

  /** One pass through the switch, in a state that looks at the byte. */
  method OnByte(before: char, b: char, current: ParserState, msg: RequestMessage)
    returns (state: ParserState, consumed: bool)
    requires msg.Valid()
    requires current !in {MessageBody, ParsingDone, ProtocolError}
    modifies msg, msg.headers
    ensures Step(before, b, Config(current, old(msg.View())))
         == if consumed then Advance(Config(state, msg.View())) else Stay(Config(state, msg.View()))
  {
    state, consumed := current, false;
    match current
    case RequestLineBegin =>
      if IsToken(b) {
        state := RequestMethod;
        msg.PushBackRequestMethod(b);
        consumed := true;
      } else {
        state := ProtocolError;
      }
    case RequestMethod =>
      if b == SP {
        state := RequestResource;
        consumed := true;
      } else if IsToken(b) {
        msg.PushBackRequestMethod(b);
        consumed := true;
      } else {
        state := ProtocolError;
      }
    case RequestResource =>
      if b == SP {
        state := RequestProtocolH;
        consumed := true;
      } else if IsPrint(b) {
        msg.PushBackTargetResource(b);
        consumed := true;
      } else {
        state := ProtocolError;
      }
    case RequestProtocolH =>
      if b == 'H' {
        state := RequestProtocolT1;
        consumed := true;
      } else {
        state := ProtocolError;
      }
    case RequestProtocolT1 =>
      if b == 'T' {
        state := RequestProtocolT2;
        consumed := true;
      } else {
        state := ProtocolError;
      }
    case RequestProtocolT2 =>
      if b == 'T' {
        state := RequestProtocolP;
        consumed := true;
      } else {
        state := ProtocolError;
      }
    case RequestProtocolP =>
      if b == 'P' {
        state := RequestProtocolSlash;
        consumed := true;
      } else {
        state := ProtocolError;
      }
    case RequestProtocolSlash =>
      if b == '/' {
        state := RequestProtocolVersionMajor;
        consumed := true;
      } else {
        state := ProtocolError;
      }
    case RequestProtocolVersionMajor =>
      if IsDigit(b) {
        state := RequestProtocolDot;
        consumed := true;
      } else {
        state := ProtocolError;
      }
    case RequestProtocolDot =>
      if b == '.' {
        state := RequestProtocolVersionMinor;
        consumed := true;
      } else {
        state := ProtocolError;
      }
    case RequestProtocolVersionMinor =>
      if IsDigit(b) {
        msg.SetHTTPVersion(HTTP1_1);
        consumed := true;
      } else if b == CR {
        state := RequestLineLF;
        consumed := true;
      } else {
        state := ProtocolError;
      }
    case RequestLineLF =>
      if b == LF {
        state := HeaderName;
        consumed := true;
      } else {
        state := ProtocolError;
      }
    case HeaderName =>
      if IsToken(b) {
        msg.PushBackHeaderName(b);
        consumed := true;
      } else if b == ':' {
        state := HeaderValue;
        consumed := true;
      } else if b == CR {
        state := HeaderEndLF;
        consumed := true;
      } else {
        state := ProtocolError;
      }
    case HeaderValue =>
      if b == CR {
        state := HeaderValueLF;
        consumed := true;
      } else if b == SP {
        if before == ':' {
          consumed := true;
        } else {
          state := ProtocolError;
        }
      } else if IsText(b) {
        msg.PushBackHeaderValue(b);
        consumed := true;
      } else {
        state := ProtocolError;
      }
    case HeaderValueLF =>
      if b == LF {
        consumed := true;
        msg.AddTempHeadersHolderToMessage();
        state := HeaderName;
      } else {
        state := ProtocolError;
      }
    case HeaderEndLF =>
      if b == LF {
        if Str3Cmp(msg.tempMethod, "GET") {
          state := ParsingDone;
          msg.SetRequestType(Get);
          consumed := true;
        } else if Str4Cmp(msg.tempMethod, "POST") {
          state := MessageBody;
          msg.SetRequestType(Post);
          consumed := true;
        } else if Str3Cmp(msg.tempMethod, "PUT") {
          state := MessageBody;
          msg.SetRequestType(Put);
          consumed := true;
        } else if Str4Cmp(msg.tempMethod, "HEAD") {
          state := ParsingDone;
          msg.SetRequestType(Head);
          consumed := true;
        } else {
          msg.SetRequestType(Unsupported);
        }
      }
    case _ =>
  }

  // What is left to compute when the loop stands at index start of the written bytes
  ghost function Remaining(bytes: string, start: nat, c: Config): Outcome
    requires start <= |bytes|
  {
    Run(Last('\0', bytes[..start]), bytes[start..], c)
  }

  lemma RemainingStep(bytes: string, start: nat, c: Config)
    requires start < |bytes|
    ensures Remaining(bytes, start, c)
         == match Step(Last('\0', bytes[..start]), bytes[start], c)
            case Advance(c') => Remaining(bytes, start + 1, c')
            case Stay(c') => if c'.state == ProtocolError then Returned(c') else Hangs
            case TakeRest => Returned(TakeBody(c, bytes[start..]))
            case Leave => Returned(c)
  {
    assert bytes[start..][1..] == bytes[start + 1..];
    assert Last('\0', bytes[..start + 1]) == bytes[start];
  }

  lemma RemainingAtEnd(bytes: string, start: nat, c: Config)
    requires start <= |bytes|
    requires start == |bytes| || c.state in {MessageBody, ParsingDone, ProtocolError}
    ensures Remaining(bytes, start, c)
         == Returned(if start != |bytes| && c.state == MessageBody then TakeBody(c, bytes[start..]) else c)
  {
    if start < |bytes| {
      RemainingStep(bytes, start, c);
    }
  }

  // The working data from index start on, as PushBackRawBody takes it
  lemma RestOfWritten(buffer: IOBuffer, start: nat)
    requires buffer.Valid() && start <= buffer.endOffset
    ensures buffer.data[start..buffer.endOffset] == buffer.Written()[start..]
  {
  }

  /** One pass of the loop, at an index of the buffer. */
  method Pass(buffer: IOBuffer, start: nat, current: ParserState, msg: RequestMessage)
    returns (state: ParserState, consumed: bool)
    requires buffer.Valid() && msg.Valid() && {buffer, buffer.data} !! msg.Repr()
    requires start < buffer.endOffset && current !in {MessageBody, ParsingDone, ProtocolError}
    requires current == HeaderValue ==> start > 0
    modifies msg, msg.headers
    ensures Remaining(buffer.Written(), start, Config(current, old(msg.View())))
         == if consumed then Remaining(buffer.Written(), start + 1, Config(state, msg.View()))
            else if state == ProtocolError then Returned(Config(state, msg.View()))
            else Hangs
  {
    RemainingStep(buffer.Written(), start, Config(current, msg.View()));
    var before := if start == 0 then '\0' else buffer.data[start - 1];
    state, consumed := OnByte(before, buffer.data[start], current, msg);
  }

  /**
   * Parses the working data of the buffer.  `hangs` stands for the source's loop never ending:
   * it is raised where a pass of the loop makes no progress.  A call that resumes inside a
   * header value looks at the byte before the start offset, so there must be one.
   */
  method Parse(buffer: IOBuffer, current: ParserState, msg: RequestMessage)
    returns (state: ParserState, hangs: bool)
    requires buffer.Valid() && msg.Valid() && {buffer, buffer.data} !! msg.Repr()
    requires current == HeaderValue ==> buffer.startOffset > 0
    modifies msg.Repr()
    ensures msg.Valid() && fresh(msg.Repr() - old(msg.Repr()))
    ensures Remaining(buffer.Written(), buffer.startOffset, Config(current, old(msg.View())))
         == if hangs then Hangs else Returned(Config(state, msg.View()))
  {
    hide Run, Remaining;
    state, hangs := current, false;
    var start, end := buffer.startOffset, buffer.endOffset;
    ghost var bytes := buffer.Written();
    ghost var outcome := Remaining(bytes, start, Config(state, msg.View()));
    while start != end && state !in {MessageBody, ParsingDone, ProtocolError}
      invariant start <= end == |bytes| == buffer.endOffset && buffer.Valid() && buffer.Written() == bytes
      invariant msg.Valid() && msg.Repr() == old(msg.Repr())
      invariant state == HeaderValue ==> start > 0
      invariant Remaining(bytes, start, Config(state, msg.View())) == outcome
      decreases end - start, state != ProtocolError
    {
      var consumed;
      state, consumed := Pass(buffer, start, state, msg);
      if consumed {
        start := start + 1;
      } else if state != ProtocolError {
        return state, true;
      } else {
        RemainingAtEnd(bytes, start, Config(state, msg.View()));
      }
    }
    RemainingAtEnd(bytes, start, Config(state, msg.View()));
    if start != end && state == MessageBody {
      RestOfWritten(buffer, start);
      msg.PushBackRawBody(buffer.data[start..end]);
    }
  }
}
