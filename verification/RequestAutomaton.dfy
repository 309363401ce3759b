/**
 * The request parser as a transition system: one byte at a time (Step), one pass of the source's
 * loop at a time (Iterate), and a whole call (Run).  Run is what the imperative parser is proved
 * to compute; here it is proved to be the limit of Iterate, and to compose over windows.
 */
module RequestAutomaton {
  import opened Lexical
  import opened Headers
  import opened HTTPVersions
  import opened Windows

  datatype ParserState =
    | ProtocolError
    | RequestLineBegin
    | RequestMethod
    | RequestResource
    | RequestProtocolH
    | RequestProtocolT1
    | RequestProtocolT2
    | RequestProtocolP
    | RequestProtocolSlash
    | RequestProtocolVersionMajor
    | RequestProtocolDot
    | RequestProtocolVersionMinor
    | RequestLineLF
    | HeaderName
    | HeaderValue
    | HeaderValueLF
    | HeaderEndLF
    | MessageBody
    | ParsingDone

  datatype HTTPRequestType = Get | Post | Head | Put | Unsupported | Connect

  // The contents of a request message, the parser's temporary holders included
  datatype Request = Request(
    requestType: HTTPRequestType,
    version: HTTPVersion,
    target: string,
    headers: map<string, string>,
    body: string,
    tempMethod: string,
    tempName: string,
    tempValue: string)

  const NEW_REQUEST := Request(Unsupported, HTTP1_1, "", map[], "", "", "", "")

  datatype Config = Config(state: ParserState, msg: Request)

  const START := Config(RequestLineBegin, NEW_REQUEST)

  // What one pass of the loop does when a byte is left
  datatype Move =
    | Advance(next: Config)  // the byte is consumed
    | Stay(next: Config)     // it is not
    | TakeRest               // MessageBody: take the rest of the window as body and leave
    | Leave                  // ParsingDone, ProtocolError

  function Accept(c: Config, state: ParserState): Move {
    Advance(c.(state := state))
  }

  function Reject(c: Config): Move {
    Stay(c.(state := ProtocolError))
  }

  // The four methods HeaderEndLF knows, in the order it tries them
  function TypeOf(m: string): HTTPRequestType {
    if Str3Cmp(m, "GET") then Get
    else if Str4Cmp(m, "POST") then Post
    else if Str3Cmp(m, "PUT") then Put
    else if Str4Cmp(m, "HEAD") then Head
    else Unsupported
  }

  // The type is decided by the prefix of the method, and by nothing else.
  lemma TypeOfIsPrefix(m: string)
    ensures TypeOf(m) == Get <==> "GET" <= m
    ensures TypeOf(m) == Post <==> "POST" <= m
    ensures TypeOf(m) == Put <==> "PUT" <= m
    ensures TypeOf(m) == Head <==> "HEAD" <= m
    ensures TypeOf(m) == Unsupported <==> !("GET" <= m) && !("POST" <= m) && !("PUT" <= m) && !("HEAD" <= m)
  {
    StrCmpIsPrefix(m, "GET");
    StrCmpIsPrefix(m, "POST");
    StrCmpIsPrefix(m, "PUT");
    StrCmpIsPrefix(m, "HEAD");
    hide Str3Cmp, Str4Cmp;
    assert m != "" ==> ("GET" <= m ==> m[0] == 'G') && ("HEAD" <= m ==> m[0] == 'H');
    assert |m| > 1 ==> ("POST" <= m ==> m[0] == 'P' && m[1] == 'O') && ("PUT" <= m ==> m[0] == 'P' && m[1] == 'U');
  }

  function StateAfterHead(t: HTTPRequestType): ParserState {
    if t == Get || t == Head then ParsingDone else MessageBody
  }

  /** One pass of the loop on byte b; `before` is the byte just before it in the buffer. */
  function Step(before: char, b: char, c: Config): Move {
    match c.state
    case RequestLineBegin =>
      if IsToken(b) then Advance(Config(RequestMethod, c.msg.(tempMethod := c.msg.tempMethod + [b]))) else Reject(c)
    case RequestMethod =>
      if b == SP then Accept(c, RequestResource)
      else if IsToken(b) then Advance(c.(msg := c.msg.(tempMethod := c.msg.tempMethod + [b])))
      else Reject(c)
    case RequestResource =>
      if b == SP then Accept(c, RequestProtocolH)
      else if IsPrint(b) then Advance(c.(msg := c.msg.(target := c.msg.target + [b])))
      else Reject(c)
    case RequestProtocolH => if b == 'H' then Accept(c, RequestProtocolT1) else Reject(c)
    case RequestProtocolT1 => if b == 'T' then Accept(c, RequestProtocolT2) else Reject(c)
    case RequestProtocolT2 => if b == 'T' then Accept(c, RequestProtocolP) else Reject(c)
    case RequestProtocolP => if b == 'P' then Accept(c, RequestProtocolSlash) else Reject(c)
    case RequestProtocolSlash => if b == '/' then Accept(c, RequestProtocolVersionMajor) else Reject(c)
    case RequestProtocolVersionMajor => if IsDigit(b) then Accept(c, RequestProtocolDot) else Reject(c)
    case RequestProtocolDot => if b == '.' then Accept(c, RequestProtocolVersionMinor) else Reject(c)
    case RequestProtocolVersionMinor =>
      if IsDigit(b) then Advance(c.(msg := c.msg.(version := HTTP1_1)))
      else if b == CR then Accept(c, RequestLineLF)
      else Reject(c)
    case RequestLineLF => if b == LF then Accept(c, HeaderName) else Reject(c)
    case HeaderName =>
      if IsToken(b) then Advance(c.(msg := c.msg.(tempName := c.msg.tempName + [b])))
      else if b == ':' then Accept(c, HeaderValue)
      else if b == CR then Accept(c, HeaderEndLF)
      else Reject(c)
    case HeaderValue =>
      if b == CR then Accept(c, HeaderValueLF)
      else if b == SP then (if before == ':' then Advance(c) else Reject(c))
      else if IsText(b) then Advance(c.(msg := c.msg.(tempValue := c.msg.tempValue + [b])))
      else Reject(c)
    case HeaderValueLF =>
      if b == LF then
        Advance(Config(HeaderName, c.msg.(headers := Emplace(c.msg.headers, Field(c.msg.tempName, c.msg.tempValue)),
                                          tempName := "", tempValue := "")))
      else Reject(c)
    case HeaderEndLF =>
      if b == LF then
        var t := TypeOf(c.msg.tempMethod);
        if t == Unsupported then Stay(c.(msg := c.msg.(requestType := Unsupported)))
        else Advance(Config(StateAfterHead(t), c.msg.(requestType := t)))
      else Stay(c)
    case MessageBody => TakeRest
    case ParsingDone => Leave
    case ProtocolError => Leave
  }

  // The result of one call of the parser on a window
  datatype Outcome = Returned(config: Config) | Hangs

  function TakeBody(c: Config, window: string): Config {
    c.(msg := c.msg.(body := c.msg.body + window))
  }

  /** A call of the parser on a window; `before` is the byte that precedes the window. */
  function Run(before: char, window: string, c: Config): Outcome
    decreases |window|
  {
    if window == "" then Returned(c)
    else
      match Step(before, window[0], c)
      case Advance(c') => Run(window[0], window[1..], c')
      case Stay(c') => if c'.state == ProtocolError then Returned(c') else Hangs
      case TakeRest => Returned(TakeBody(c, window))
      case Leave => Returned(c)
  }

  // The loop, pass by pass

  datatype Loop =
    | Running(before: char, window: string, config: Config)
    | Finished(result: Config)

  function Pass(l: Loop): Loop {
    match l
    case Finished(_) => l
    case Running(before, window, c) =>
      if window == "" then Finished(c)
      else
        match Step(before, window[0], c)
        case Advance(c') => Running(window[0], window[1..], c')
        case Stay(c') => Running(before, window, c')
        case TakeRest => Finished(TakeBody(c, window))
        case Leave => Finished(c)
  }

  function Iterate(n: nat, l: Loop): Loop {
    if n == 0 then l else Iterate(n - 1, Pass(l))
  }

  lemma {:induction false} IterateFinished(n: nat, c: Config)
    ensures Iterate(n, Finished(c)) == Finished(c)
  {
    if n > 0 {
      IterateFinished(n - 1, c);
    }
  }

  // The one place where the loop can stay for ever: HeaderEndLF facing a byte it cannot use
  predicate Stuck(l: Loop) {
    && l.Running? && l.window != "" && l.config.state == HeaderEndLF
    && (l.window[0] != LF || TypeOf(l.config.msg.tempMethod) == Unsupported)
  }

  // Those are exactly the configurations in which a pass makes no progress; a second pass
  // then changes nothing at all, and no other configuration is a fixed point.
  lemma StuckIsNoProgress(l: Loop)
    requires l.Running?
    ensures Stuck(l) <==>
            Pass(l).Running? && Pass(l).window == l.window && Pass(l).config.state == l.config.state
    ensures Stuck(l) ==> Stuck(Pass(l)) && Pass(Pass(l)) == Pass(l)
    ensures Pass(l) == l ==> Stuck(l)
  {
    if l.window != "" && Step(l.before, l.window[0], l.config).Advance? {
      assert |Pass(l).window| < |l.window|;
    }
  }

  lemma {:induction false} StuckForever(n: nat, l: Loop)
    requires Stuck(l)
    ensures Stuck(Iterate(n, l))
  {
    if n > 0 {
      StuckIsNoProgress(l);
      StuckForever(n - 1, Pass(l));
    }
  }

  // Run is the result of the loop: reached within |window| + 1 passes, or else the loop is stuck
  // after at most |window| passes and never ends.
  lemma {:induction false} RunIsLoop(before: char, window: string, c: Config)
    ensures var l := Running(before, window, c);
            match Run(before, window, c)
            case Returned(r) => Iterate(|window| + 1, l) == Finished(r)
            case Hangs => exists k: nat :: k <= |window| && Stuck(Iterate(k, l))
    decreases |window|
  {
    var l := Running(before, window, c);
    if window != "" {
      match Step(before, window[0], c)
      case Advance(c') =>
        RunIsLoop(window[0], window[1..], c');
        if Run(before, window, c).Hangs? {
          var k: nat :| k <= |window[1..]| && Stuck(Iterate(k, Pass(l)));
          assert Iterate(k + 1, l) == Iterate(k, Pass(l));
        }
      case Stay(c') =>
        if c'.state == ProtocolError {
          assert Pass(Pass(l)) == Finished(c');
          IterateFinished(|window| - 1, c');
          assert Iterate(|window| + 1, l) == Iterate(|window|, Pass(l)) == Iterate(|window| - 1, Pass(Pass(l)));
        } else {
          assert Stuck(Iterate(0, l));
        }
      case TakeRest =>
        IterateFinished(|window|, TakeBody(c, window));
      case Leave =>
        IterateFinished(|window|, c);
    }
  }

  lemma {:induction false} IterateAdds(m: nat, n: nat, l: Loop)
    ensures Iterate(m + n, l) == Iterate(n, Iterate(m, l))
  {
    if m > 0 {
      IterateAdds(m - 1, n, Pass(l));
    }
  }

  /**
   * Exact termination: the loop ends iff it never gets stuck, it then ends within one pass per
   * byte and one more, and what it ends with is what Run says.
   */
  lemma Termination(before: char, window: string, c: Config)
    ensures var l := Running(before, window, c);
            (exists n: nat :: Iterate(n, l).Finished?) <==> (forall n: nat :: !Stuck(Iterate(n, l)))
    ensures var l := Running(before, window, c);
            Run(before, window, c).Returned? <==> (exists n: nat :: Iterate(n, l).Finished?)
    ensures Run(before, window, c).Returned? ==>
            Iterate(|window| + 1, Running(before, window, c)) == Finished(Run(before, window, c).config)
  {
    var l := Running(before, window, c);
    RunIsLoop(before, window, c);
    forall m: nat, n: nat | Stuck(Iterate(m, l)) && Iterate(n, l).Finished?
      ensures false
    {
      IterateAdds(m, n, l);
      IterateAdds(n, m, l);
      StuckForever(n, Iterate(m, l));
      IterateFinished(m, Iterate(n, l).result);
    }
    match Run(before, window, c)
    case Returned(_) =>
      assert Iterate(|window| + 1, l).Finished?;
    case Hangs =>
  }

  /**
   * Chunk invariance: a call on a window followed by a call on the next window is one call on
   * both, for every split, every starting configuration and every outcome, the look-back at the
   * start of the second window included.
   */
  lemma {:induction false} RunConcat(before: char, a: string, b: string, c: Config)
    ensures Run(before, a + b, c)
         == match Run(before, a, c)
            case Hangs => Hangs
            case Returned(c') => Run(Last(before, a), b, c')
    decreases |a|
  {
    if a == "" {
      assert a + b == b;
    } else {
      assert (a + b)[0] == a[0] && (a + b)[1..] == a[1..] + b;
      match Step(before, a[0], c)
      case Advance(c') =>
        RunConcat(a[0], a[1..], b, c');
        assert Last(a[0], a[1..]) == Last(before, a);
      case Stay(_) =>
      case TakeRest =>
        if b == "" {
          assert a + b == a;
        } else {
          assert (c.msg.body + a) + b == c.msg.body + (a + b);
        }
      case Leave =>
    }
  }

  // The calls on successive windows, each resuming from the state and message of the one before
  function RunWindows(before: char, windows: seq<string>, c: Config): Outcome {
    if windows == [] then Returned(c)
    else
      var earlier := windows[..|windows| - 1];
      match RunWindows(before, earlier, c)
      case Hangs => Hangs
      case Returned(c') => Run(Last(before, Concat(earlier)), windows[|windows| - 1], c')
  }

  lemma {:induction false} WindowsDoNotMatter(before: char, windows: seq<string>, c: Config)
    ensures RunWindows(before, windows, c) == Run(before, Concat(windows), c)
  {
    if windows != [] {
      var earlier := windows[..|windows| - 1];
      WindowsDoNotMatter(before, earlier, c);
      RunConcat(before, Concat(earlier), windows[|windows| - 1], c);
    }
  }

  // The byte before the window matters only to a call that resumes inside a header value.
  lemma LookBackOnlyInHeaderValue(before: char, before': char, window: string, c: Config)
    requires c.state != HeaderValue
    ensures Run(before, window, c) == Run(before', window, c)
  {
    if window != "" {
      assert Step(before, window[0], c) == Step(before', window[0], c);
    }
  }
}
