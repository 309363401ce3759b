/**
 * Parsing a request that arrives in windows: each window is appended to one growing buffer, the
 * start offset is moved past what was parsed before, and the parser resumes from the state it
 * left.  The look-back across windows relies on growth keeping the headroom.
 */
module RequestStream {
  import opened IOBuffers
  import opened RequestAutomaton
  import opened RequestMessages
  import opened RequestParser
  import opened Windows

  // One window: afterwards the state and message are those of one parse of everything written.
  method ParseNext(buffer: IOBuffer, window: string, current: ParserState, msg: RequestMessage)
    returns (state: ParserState, hangs: bool)
    requires buffer.Valid() && msg.Valid() && {buffer, buffer.data} !! msg.Repr()
    requires Run('\0', buffer.Written(), START) == Returned(Config(current, msg.View()))
    modifies buffer, buffer.data, msg.Repr()
    ensures buffer.Valid() && msg.Valid() && {buffer, buffer.data} !! msg.Repr()
    ensures fresh({buffer.data} - {old(buffer.data)}) && fresh(msg.Repr() - old(msg.Repr()))
    ensures buffer.Written() == old(buffer.Written()) + window
    ensures Run('\0', buffer.Written(), START) == if hangs then Hangs else Returned(Config(state, msg.View()))
  {
    ghost var parsed := buffer.Written();
    var parsedSize := buffer.endOffset;
    buffer.AppendRawBytes(window);
    buffer.SetStartOffset(parsedSize);
    RunConcat('\0', parsed, window, START);
    assert buffer.Written()[..parsedSize] == parsed && buffer.Written()[parsedSize..] == window;
    state, hangs := Parse(buffer, current, msg);
  }

  // The first call that hangs ends the stream.
  method ParseWindows(capacity: nat, windows: seq<string>)
    returns (state: ParserState, msg: RequestMessage, hangs: bool)
    ensures fresh(msg) && fresh(msg.Repr()) && msg.Valid()
    ensures Run('\0', Concat(windows), START) == if hangs then Hangs else Returned(Config(state, msg.View()))
  {
    var buffer := new IOBuffer(capacity);
    msg := new RequestMessage();
    state, hangs := RequestLineBegin, false;
    for k := 0 to |windows|
      invariant buffer.Valid() && msg.Valid() && {buffer, buffer.data} !! msg.Repr()
      invariant fresh({buffer, buffer.data}) && fresh(msg) && fresh(msg.Repr())
      invariant buffer.Written() == Concat(windows[..k])
      invariant Run('\0', buffer.Written(), START) == Returned(Config(state, msg.View()))
    {
      state, hangs := ParseNext(buffer, windows[k], state, msg);
      assert windows[..k + 1][..k] == windows[..k];
      if hangs {
        ConcatSplit(windows, k + 1);
        RunConcat('\0', Concat(windows[..k + 1]), Concat(windows[k + 1..]), START);
        return;
      }
    }
    assert windows[..|windows|] == windows;
  }
}
