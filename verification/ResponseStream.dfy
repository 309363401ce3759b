/**
 * Parsing a response that arrives in windows, over one growing buffer.
 */
module ResponseStream {
  import opened IOBuffers
  import opened ResponseAutomaton
  import opened ResponseMessages
  import opened ResponseParser
  import opened Lexical
  import opened Windows

  // One window: the parser resumes, with the byte before the window in the headroom.
  method ParseNext(buffer: IOBuffer, window: string, current: ResponseParserState, msg: ResponseMessage)
    returns (state: ResponseParserState)
    requires buffer.Valid() && msg.Valid() && {buffer, buffer.data} !! msg.Repr()
    requires current == HeaderValue ==> buffer.Written() != ""
    modifies buffer, buffer.data, msg.Repr()
    ensures buffer.Valid() && msg.Valid() && {buffer, buffer.data} !! msg.Repr()
    ensures fresh({buffer.data} - {old(buffer.data)}) && fresh(msg.Repr() - old(msg.Repr()))
    ensures buffer.Written() == old(buffer.Written()) + window
    ensures Config(state, msg.View())
         == Run(Last('\0', old(buffer.Written())), window, Config(current, old(msg.View())))
  {
    ghost var parsed := buffer.Written();
    var parsedSize := buffer.endOffset;
    buffer.AppendRawBytes(window);
    buffer.SetStartOffset(parsedSize);
    assert buffer.Written()[..parsedSize] == parsed && buffer.Written()[parsedSize..] == window;
    state := Parse(buffer, current, msg);
  }

  // While no byte has come in, nothing has changed.
  lemma {:induction false} EmptyWindowsChangeNothing(windows: seq<string>, holder: CodeHolder)
    requires Concat(windows) == ""
    ensures RunWindows('\0', windows, Start(holder)) == Start(holder)
  {
    if windows != [] {
      assert windows[|windows| - 1] == "" && Concat(windows[..|windows| - 1]) == "";
      EmptyWindowsChangeNothing(windows[..|windows| - 1], holder);
    }
  }

  lemma WindowsSoFar(windows: seq<string>, k: nat, holder: CodeHolder)
    requires k < |windows|
    ensures Concat(windows[..k + 1]) == Concat(windows[..k]) + windows[k]
    ensures RunWindows('\0', windows[..k + 1], Start(holder))
         == Run(Last('\0', Concat(windows[..k])), windows[k], RunWindows('\0', windows[..k], Start(holder)))
    ensures Concat(windows[..k]) == "" ==> RunWindows('\0', windows[..k], Start(holder)) == Start(holder)
  {
    hide Run;
    assert windows[..k + 1][..k] == windows[..k];
    if Concat(windows[..k]) == "" {
      EmptyWindowsChangeNothing(windows[..k], holder);
    }
  }

  method ParseWindows(capacity: nat, windows: seq<string>)
    returns (state: ResponseParserState, msg: ResponseMessage, ghost holder: CodeHolder)
    ensures fresh(msg) && fresh(msg.Repr()) && msg.Valid() && holder.index == 0
    ensures Config(state, msg.View()) == RunWindows('\0', windows, Start(holder))
  {
    hide Run, Last;
    var buffer := new IOBuffer(capacity);
    msg := new ResponseMessage();
    holder := msg.Holder();
    state := ResponseProtocolH;
    assert windows[..0] == [] && Concat([]) == "" && RunWindows('\0', [], Start(holder)) == Start(holder);
    hide RunWindows, Concat;
    for k := 0 to |windows|
      invariant buffer.Valid() && msg.Valid() && {buffer, buffer.data} !! msg.Repr()
      invariant fresh({buffer, buffer.data}) && fresh(msg) && fresh(msg.Repr())
      invariant buffer.Written() == Concat(windows[..k])
      invariant Config(state, msg.View()) == RunWindows('\0', windows[..k], Start(holder))
    {
      WindowsSoFar(windows, k, holder);
      state := ParseNext(buffer, windows[k], state, msg);
    }
    assert windows[..|windows|] == windows;
  }
}
