/**
 * The response parser as a transition system, in the shape of RequestAutomaton: Step, Pass and
 * Iterate for the loop, Run for a whole call.  This loop always ends, but a call that finds body
 * bytes in its window takes them as the whole body.
 */
module ResponseAutomaton {
  import opened Lexical
  import opened Headers
  import opened HTTPVersions
  import opened Windows

  datatype ResponseParserState =
    | ProtocolError
    | ResponseProtocolH
    | ResponseProtocolT1
    | ResponseProtocolT2
    | ResponseProtocolP
    | ResponseProtocolSlash
    | ResponseProtocolVersionMajor
    | ResponseProtocolDot
    | ResponseProtocolVersionMinor
    | StatusCode
    | ResponseReasonPhrase
    | StatusLineLF
    | HeaderName
    | HeaderValue
    | HeaderValueLF
    | HeaderEndLF
    | ResponseMessageBody
    | ParsingDone

  const BAD_REQUEST := 400
  const CONTENT_LENGTH := "Content-Length"

  // The four-byte holder of the status code: three bytes, uninitialised until index passes them,
  // and a final NUL
  datatype CodeHolder = CodeHolder(c0: char, c1: char, c2: char, index: nat) {
    // `pushBackResponseCode`: bytes after the third are dropped
    function Push(c: char): CodeHolder {
      match index
      case 0 => this.(c0 := c, index := 1)
      case 1 => this.(c1 := c, index := 2)
      case 2 => this.(c2 := c, index := 3)
      case _ => this
    }

    function PushAll(s: string): CodeHolder {
      if s == "" then this else PushAll(s[..|s| - 1]).Push(s[|s| - 1])
    }

    function CString(): string {
      [c0, c1, c2, '\0']
    }
  }

  function DigitValue(c: char): int {
    c as int - '0' as int
  }

  // The number written by the leading digits of s, after those already read
  function LeadingNumber(s: string, read: int): int {
    if s == "" || !IsDigit(s[0]) then read else LeadingNumber(s[1..], 10 * read + DigitValue(s[0]))
  }

  // atoi
  function Atoi(s: string): int {
    if s == "" then 0
    else if s[0] == SP || 9 <= s[0] as int <= 13 then Atoi(s[1..])
    else if s[0] == '-' then -LeadingNumber(s[1..], 0)
    else if s[0] == '+' then LeadingNumber(s[1..], 0)
    else LeadingNumber(s, 0)
  }

  // The contents of a response message, the parser's temporary holders included
  datatype Response = Response(
    code: int,
    version: HTTPVersion,
    headers: map<string, string>,
    body: string,
    tempName: string,
    tempValue: string,
    holder: CodeHolder)

  // A new message; the holder's bytes are whatever the memory contained
  function NewResponse(holder: CodeHolder): Response {
    Response(BAD_REQUEST, HTTP1_1, map[], "", "", "", holder)
  }

  datatype Config = Config(state: ResponseParserState, msg: Response)

  function Start(holder: CodeHolder): Config {
    Config(ResponseProtocolH, NewResponse(holder))
  }

  datatype Move =
    | Advance(next: Config)
    | Stay(next: Config)
    | TakeRest               // ResponseMessageBody: take the rest of the window as body and leave
    | Leave

  function Accept(c: Config, state: ResponseParserState): Move {
    Advance(c.(state := state))
  }

  function Reject(c: Config): Move {
    Stay(c.(state := ProtocolError))
  }

  /** One pass of the loop on byte b; `before` is the byte just before it in the buffer. */
  function Step(before: char, b: char, c: Config): Move {
    match c.state
    case ResponseProtocolH => if b == 'H' then Accept(c, ResponseProtocolT1) else Reject(c)
    case ResponseProtocolT1 => if b == 'T' then Accept(c, ResponseProtocolT2) else Reject(c)
    case ResponseProtocolT2 => if b == 'T' then Accept(c, ResponseProtocolP) else Reject(c)
    case ResponseProtocolP => if b == 'P' then Accept(c, ResponseProtocolSlash) else Reject(c)
    case ResponseProtocolSlash => if b == '/' then Accept(c, ResponseProtocolVersionMajor) else Reject(c)
    case ResponseProtocolVersionMajor => if b == '1' then Accept(c, ResponseProtocolDot) else Reject(c)
    case ResponseProtocolDot => if b == '.' then Accept(c, ResponseProtocolVersionMinor) else Reject(c)
    case ResponseProtocolVersionMinor =>
      if IsDigit(b) then Advance(c.(msg := c.msg.(version := HTTP1_1)))
      else if b == SP then Accept(c, StatusCode)
      else Reject(c)
    case StatusCode =>
      if IsDigit(b) then Advance(c.(msg := c.msg.(holder := c.msg.holder.Push(b))))
      else if b == SP then Advance(Config(ResponseReasonPhrase, c.msg.(code := Atoi(c.msg.holder.CString()))))
      else Reject(c)
    case ResponseReasonPhrase =>
      if b == CR then Accept(c, StatusLineLF) else if IsText(b) then Advance(c) else Reject(c)
    case StatusLineLF => if b == LF then Accept(c, HeaderName) else Reject(c)
    case HeaderName =>
      if IsToken(b) then Advance(c.(msg := c.msg.(tempName := c.msg.tempName + [b])))
      else if b == ':' then Accept(c, HeaderValue)
      else if b == CR then Accept(c, HeaderEndLF)
      else Reject(c)
    case HeaderValue =>
      if b == CR then Accept(c, HeaderValueLF)
      else if IsText(b) then
        if before == ':' then Advance(c)
        else Advance(c.(msg := c.msg.(tempValue := c.msg.tempValue + [b])))
      else Reject(c)
    case HeaderValueLF =>
      if b == LF then
        Advance(Config(HeaderName, c.msg.(headers := Emplace(c.msg.headers, Field(c.msg.tempName, c.msg.tempValue)),
                                          tempName := "", tempValue := "")))
      else Reject(c)
    case HeaderEndLF =>
      if b == LF then Accept(c, if CONTENT_LENGTH in c.msg.headers then ResponseMessageBody else ParsingDone)
      else Reject(c)
    case ResponseMessageBody => TakeRest
    case ParsingDone => Leave
    case ProtocolError => Leave
  }

  function TakeBody(c: Config, window: string): Config {
    Config(ParsingDone, c.msg.(body := c.msg.body + window))
  }

  /** A call of the parser on a window; `before` is the byte that precedes the window. */
  function Run(before: char, window: string, c: Config): Config
    decreases |window|
  {
    if window == "" then c
    else
      match Step(before, window[0], c)
      case Advance(c') => Run(window[0], window[1..], c')
      case Stay(c') => c'
      case TakeRest => TakeBody(c, window)
      case Leave => c
  }

  // The loop, pass by pass

  datatype Loop =
    | Running(before: char, window: string, config: Config)
    | Finished(result: Config)

  function Pass(l: Loop): Loop {
    match l
    case Finished(_) => l
    case Running(before, window, c) =>
      if window == "" then Finished(c)
      else
        match Step(before, window[0], c)
        case Advance(c') => Running(window[0], window[1..], c')
        case Stay(c') => Running(before, window, c')
        case TakeRest => Finished(TakeBody(c, window))
        case Leave => Finished(c)
  }

  function Iterate(n: nat, l: Loop): Loop {
    if n == 0 then l else Iterate(n - 1, Pass(l))
  }

  lemma {:induction false} IterateFinished(n: nat, c: Config)
    ensures Iterate(n, Finished(c)) == Finished(c)
  {
    if n > 0 {
      IterateFinished(n - 1, c);
    }
  }

  /** The loop ends on every input, within one pass per byte and one more. */
  lemma {:induction false} AlwaysEnds(before: char, window: string, c: Config)
    ensures Iterate(|window| + 1, Running(before, window, c)) == Finished(Run(before, window, c))
    decreases |window|
  {
    var l := Running(before, window, c);
    if window != "" {
      match Step(before, window[0], c)
      case Advance(c') =>
        AlwaysEnds(window[0], window[1..], c');
      case Stay(c') =>
        assert Pass(Pass(l)) == Finished(c');
        IterateFinished(|window| - 1, c');
        assert Iterate(|window| + 1, l) == Iterate(|window|, Pass(l)) == Iterate(|window| - 1, Pass(Pass(l)));
      case TakeRest =>
        IterateFinished(|window|, TakeBody(c, window));
      case Leave =>
        IterateFinished(|window|, c);
    }
  }

  // The call takes body bytes from its window.
  predicate TakesBody(before: char, window: string, c: Config)
    decreases |window|
  {
    window != "" &&
    match Step(before, window[0], c)
    case Advance(c') => TakesBody(window[0], window[1..], c')
    case TakeRest => true
    case _ => false
  }

  /**
   * Chunk invariance, exactly: two calls on successive windows do what one call on both does
   * iff the cut between them is not inside the body.
   */
  lemma {:induction false} RunConcat(before: char, a: string, b: string, c: Config)
    ensures Run(before, a + b, c) == Run(Last(before, a), b, Run(before, a, c))
       <==> b == "" || !TakesBody(before, a, c)
    decreases |a|
  {
    if a == "" {
      assert a + b == b;
    } else {
      assert (a + b)[0] == a[0] && (a + b)[1..] == a[1..] + b;
      match Step(before, a[0], c)
      case Advance(c') =>
        RunConcat(a[0], a[1..], b, c');
        assert Last(a[0], a[1..]) == Last(before, a);
      case Stay(_) =>
      case TakeRest =>
        assert |c.msg.body + (a + b)| == |c.msg.body + a| + |b|;
        assert b == "" ==> a + b == a;
      case Leave =>
    }
  }

  // The calls on successive windows, each resuming from the state and message of the one before
  function RunWindows(before: char, windows: seq<string>, c: Config): Config {
    if windows == [] then c
    else
      var earlier := windows[..|windows| - 1];
      Run(Last(before, Concat(earlier)), windows[|windows| - 1], RunWindows(before, earlier, c))
  }

  // No cut between windows, short of the last byte, is inside the body.
  predicate BodyUncut(before: char, windows: seq<string>, c: Config) {
    forall k :: 0 <= k < |windows| && windows[k] != "" ==> !TakesBody(before, Concat(windows[..k]), c)
  }

  lemma {:induction false} BodyGoesOn(before: char, a: string, b: string, c: Config)
    requires TakesBody(before, a, c)
    ensures TakesBody(before, a + b, c) && Run(before, a, c).state == ParsingDone
    ensures Run(before, a + b, c) == TakeBody(Run(before, a, c), b)
    decreases |a|
  {
    assert (a + b)[0] == a[0] && (a + b)[1..] == a[1..] + b;
    match Step(before, a[0], c)
    case Advance(c') => BodyGoesOn(a[0], a[1..], b, c');
    case TakeRest => assert c.msg.body + a + b == c.msg.body + (a + b);
    case _ =>
  }

  lemma {:induction false} UncutBody(before: char, windows: seq<string>, c: Config)
    requires BodyUncut(before, windows, c)
    ensures RunWindows(before, windows, c) == Run(before, Concat(windows), c)
  {
    if windows != [] {
      hide Run, TakesBody;
      var n := |windows| - 1;
      var earlier := windows[..n];
      assert BodyUncut(before, earlier, c) by {
        assert forall k :: 0 <= k < n ==> earlier[k] == windows[k] && earlier[..k] == windows[..k];
      }
      UncutBody(before, earlier, c);
      RunConcat(before, Concat(earlier), windows[n], c);
    }
  }

  predicate SameButBody(c: Config, c': Config) {
    c == c'.(msg := c'.msg.(body := c.msg.body))
  }

  // When some cut is inside the body, body bytes are lost, and nothing else changes.
  lemma {:induction false} CutBody(before: char, windows: seq<string>, c: Config)
    requires !BodyUncut(before, windows, c)
    ensures TakesBody(before, Concat(windows), c)
    ensures RunWindows(before, windows, c).state == ParsingDone
    ensures |RunWindows(before, windows, c).msg.body| < |Run(before, Concat(windows), c).msg.body|
    ensures SameButBody(RunWindows(before, windows, c), Run(before, Concat(windows), c))
  {
    hide Run, TakesBody;
    var n := |windows| - 1;
    var earlier := windows[..n];
    assert forall k :: 0 <= k < n ==> earlier[k] == windows[k] && earlier[..k] == windows[..k];
    if BodyUncut(before, earlier, c) {
      UncutBody(before, earlier, c);
      assert TakesBody(before, Concat(earlier), c) && windows[n] != "";
      BodyGoesOn(before, Concat(earlier), "", c);
    } else {
      CutBody(before, earlier, c);
    }
    LoseMore(before, Concat(earlier), windows[n], c, RunWindows(before, earlier, c));
  }

  lemma LoseMore(before: char, a: string, b: string, c: Config, got: Config)
    requires TakesBody(before, a, c) && got.state == ParsingDone
    requires |got.msg.body| <= |Run(before, a, c).msg.body|
    requires b != "" || |got.msg.body| < |Run(before, a, c).msg.body|
    requires SameButBody(got, Run(before, a, c))
    ensures TakesBody(before, a + b, c) && Run(Last(before, a), b, got) == got
    ensures |got.msg.body| < |Run(before, a + b, c).msg.body|
    ensures SameButBody(got, Run(before, a + b, c))
  {
    BodyGoesOn(before, a, b, c);
    DoneStays(Last(before, a), b, got);
  }

  lemma DoneStays(before: char, window: string, c: Config)
    requires c.state == ParsingDone
    ensures Run(before, window, c) == c
  {
  }

  // Windowed parsing equals one parse iff the body is not cut; otherwise body bytes are lost.
  lemma WindowsDoNotMatter(before: char, windows: seq<string>, c: Config)
    ensures RunWindows(before, windows, c) == Run(before, Concat(windows), c) <==> BodyUncut(before, windows, c)
  {
    if BodyUncut(before, windows, c) {
      UncutBody(before, windows, c);
    } else {
      CutBody(before, windows, c);
    }
  }

  // The byte before the window matters only to a call that resumes inside a header value.
  lemma LookBackOnlyInHeaderValue(before: char, before': char, window: string, c: Config)
    requires c.state != HeaderValue
    ensures Run(before, window, c) == Run(before', window, c)
  {
    if window != "" {
      assert Step(before, window[0], c) == Step(before', window[0], c);
    }
  }
}
