/**
 * The language of the response automaton, stated as a grammar and proved equal to it:
 *
 *   head  = "HTTP/1." digit* SP digit* SP text CRLF field* token* CRLF
 *   field = token* ":" text CRLF
 *
 * The value stored for a field is its raw text without the bytes that directly follow a ":".
 */
module ResponseGrammar {
  import opened Lexical
  import opened Headers
  import opened HTTPVersions
  import opened Windows
  import opened ResponseAutomaton

  // The parts of a response head.  Field values are raw; `trailer` is a name that no colon follows.
  datatype HeadParts = HeadParts(
    minor: string,
    digits: string,
    reason: string,
    fields: seq<Field>,
    trailer: string)

  predicate WellFormed(h: HeadParts) {
    && Digits(h.minor) && Digits(h.digits) && Text(h.reason)
    && (forall i :: 0 <= i < |h.fields| ==> Token(h.fields[i].name) && Text(h.fields[i].value))
    && Token(h.trailer)
  }

  function VersionText(h: HeadParts): string {
    "HTTP/1." + h.minor
  }

  function CodeText(h: HeadParts): string {
    VersionText(h) + " " + h.digits
  }

  function StatusText(h: HeadParts): string {
    CodeText(h) + " " + h.reason
  }

  function FieldsText(h: HeadParts): string {
    StatusText(h) + CRLF + RawLines(h.fields) + h.trailer
  }

  // The head up to its last CR, and all of it
  function HeadToCR(h: HeadParts): string {
    FieldsText(h) + [CR]
  }

  function HeadText(h: HeadParts): string {
    HeadToCR(h) + [LF]
  }

  // What the parser keeps of a raw value, which a ":" precedes: the bytes that no ":" precedes
  function Kept(v: string): string {
    if v == "" then ""
    else
      var init := v[..|v| - 1];
      if Last(':', init) == ':' then Kept(init) else Kept(init) + [v[|v| - 1]]
  }

  // Byte by byte: the first byte, and each byte after a ":", adds nothing to what is kept; any
  // other byte is kept in its place.
  lemma {:induction false} KeptByte(v: string, i: nat)
    requires i < |v|
    ensures Kept(v[..i + 1]) <= Kept(v)
    ensures Kept(v[..i + 1]) == Kept(v[..i]) + if i == 0 || v[i - 1] == ':' then "" else [v[i]]
    decreases |v|
  {
    if i == |v| - 1 {
      assert v[..i + 1] == v;
    } else {
      KeptByte(v[..|v| - 1], i);
      assert v[..|v| - 1][..i + 1] == v[..i + 1] && v[..|v| - 1][..i] == v[..i];
    }
  }

  function Stored(fields: seq<Field>): (r: seq<Field>)
    ensures |r| == |fields|
  {
    seq(|fields|, i requires 0 <= i < |fields| => Field(fields[i].name, Kept(fields[i].value)))
  }

  // The code: what atoi makes of the first three digits, over the bytes the holder began with
  function CodeOf(h: HeadParts, holder: CodeHolder): int {
    Atoi(holder.PushAll(h.digits).CString())
  }

  // The message the parser holds when it has read the head to its last CR
  function HeadMessage(h: HeadParts, holder: CodeHolder): Response {
    NewResponse(holder.PushAll(h.digits)).(
      code := CodeOf(h, holder), headers := Collect(Stored(h.fields)), tempName := h.trailer)
  }

  // The configuration it ends with when `rest` follows the head
  function Final(h: HeadParts, holder: CodeHolder, rest: string): Config {
    var m := HeadMessage(h, holder);
    if CONTENT_LENGTH !in m.headers then Config(ParsingDone, m)
    else if rest == "" then Config(ResponseMessageBody, m)
    else Config(ParsingDone, m.(body := rest))
  }

  // From the automaton to the grammar: the parts read so far, as a function of the state

  predicate Live(s: ResponseParserState) {
    s !in {ProtocolError, ResponseMessageBody, ParsingDone}
  }

  predicate InValue(s: ResponseParserState) {
    s == HeaderValue || s == HeaderValueLF
  }

  predicate AfterStatusLine(s: ResponseParserState) {
    s == HeaderName || InValue(s) || s == HeaderEndLF
  }

  predicate AfterCode(s: ResponseParserState) {
    s == ResponseReasonPhrase || s == StatusLineLF || AfterStatusLine(s)
  }

  // The text consumed when the automaton is in state s; v is the raw value being read
  function ConsumedText(s: ResponseParserState, h: HeadParts, v: string): string {
    match s
    case ResponseProtocolH => ""
    case ResponseProtocolT1 => "H"
    case ResponseProtocolT2 => "HT"
    case ResponseProtocolP => "HTT"
    case ResponseProtocolSlash => "HTTP"
    case ResponseProtocolVersionMajor => "HTTP/"
    case ResponseProtocolDot => "HTTP/1"
    case ResponseProtocolVersionMinor => VersionText(h)
    case StatusCode => CodeText(h)
    case ResponseReasonPhrase => StatusText(h)
    case StatusLineLF => StatusText(h) + [CR]
    case HeaderName => FieldsText(h)
    case HeaderValue => FieldsText(h) + ":" + v
    case HeaderValueLF => FieldsText(h) + ":" + v + [CR]
    case HeaderEndLF => HeadToCR(h)
    case _ => ""
  }

  // h and v are the parts read so far in state s, with nothing in the parts still to come
  predicate PartsSoFar(s: ResponseParserState, h: HeadParts, v: string) {
    && WellFormed(h) && Text(v)
    && (s != ResponseProtocolVersionMinor && s != StatusCode && !AfterCode(s) ==> h.minor == "")
    && (s != StatusCode && !AfterCode(s) ==> h.digits == "")
    && (!AfterCode(s) ==> h.reason == "")
    && (!AfterStatusLine(s) ==> h.fields == [] && h.trailer == "")
    && (!InValue(s) ==> v == "")
  }

  predicate Tracks(c: Config, holder: CodeHolder, h: HeadParts, v: string) {
    && Live(c.state) && PartsSoFar(c.state, h, v)
    && c.msg == HeadMessage(h, holder).(code := if AfterCode(c.state) then CodeOf(h, holder) else 400,
                                        tempValue := Kept(v))
  }

  // The parts after one more byte
  function Extend(s: ResponseParserState, h: HeadParts, v: string, b: char): (HeadParts, string) {
    match s
    case ResponseProtocolVersionMinor => (if b == SP then h else h.(minor := h.minor + [b]), v)
    case StatusCode => (if b == SP then h else h.(digits := h.digits + [b]), v)
    case ResponseReasonPhrase => (if b == CR then h else h.(reason := h.reason + [b]), v)
    case HeaderName => (if b == ':' || b == CR then h else h.(trailer := h.trailer + [b]), v)
    case HeaderValue => (h, if b == CR then v else v + [b])
    case HeaderValueLF => (h.(fields := h.fields + [Field(h.trailer, v)], trailer := ""), "")
    case _ => (h, v)
  }

  // Byte b, if it is consumed, moves the automaton and the parts on in step.
  predicate Extends(before: char, b: char, c: Config, holder: CodeHolder, h: HeadParts, v: string) {
    match Step(before, b, c)
    case Advance(c') =>
      var (h', v') := Extend(c.state, h, v, b);
      Live(c'.state) ==>
        Tracks(c', holder, h', v') && ConsumedText(c'.state, h', v') == ConsumedText(c.state, h, v) + [b]
    case _ => true
  }

  // What one more byte does to the text, part by part

  lemma StatusLineText(h: HeadParts, b: char)
    ensures VersionText(h.(minor := h.minor + [b])) == VersionText(h) + [b]
    ensures CodeText(h.(digits := h.digits + [b])) == CodeText(h) + [b]
    ensures StatusText(h.(reason := h.reason + [b])) == StatusText(h) + [b]
    ensures h.minor == "" ==> VersionText(h) == "HTTP/1" + ['.']
    ensures h.digits == "" ==> CodeText(h) == VersionText(h) + [SP]
    ensures h.reason == "" ==> StatusText(h) == CodeText(h) + [SP]
    ensures h.fields == [] && h.trailer == "" ==> FieldsText(h) == StatusText(h) + [CR] + [LF]
  {
    assert "HTTP/1." + (h.minor + [b]) == VersionText(h) + [b];
    assert VersionText(h) + " " + (h.digits + [b]) == CodeText(h) + [b];
    assert CodeText(h) + " " + (h.reason + [b]) == StatusText(h) + [b];
  }

  lemma FieldText(h: HeadParts, v: string, b: char)
    ensures FieldsText(h.(trailer := h.trailer + [b])) == FieldsText(h) + [b]
    ensures FieldsText(h) + ":" + (v + [b]) == FieldsText(h) + ":" + v + [b]
    ensures FieldsText(h.(fields := h.fields + [Field(h.trailer, v)], trailer := ""))
         == FieldsText(h) + ":" + v + [CR] + [LF]
  {
    var start, f := StatusText(h) + CRLF, Field(h.trailer, v);
    assert start + RawLines(h.fields) + (h.trailer + [b]) == FieldsText(h) + [b];
    assert (h.fields + [f])[..|h.fields|] == h.fields;
    assert start + (RawLines(h.fields) + RawLine(f)) + "" == FieldsText(h) + ":" + v + [CR] + [LF];
  }

  lemma PushAllSnoc(holder: CodeHolder, s: string, b: char)
    ensures holder.PushAll(s + [b]) == holder.PushAll(s).Push(b)
  {
    assert (s + [b])[..|s|] == s;
  }

  lemma KeptSnoc(v: string, b: char)
    ensures Kept(v + [b]) == if Last(':', v) == ':' then Kept(v) else Kept(v) + [b]
  {
    assert (v + [b])[..|v|] == v;
  }

  lemma StoredSnoc(fields: seq<Field>, f: Field)
    ensures Collect(Stored(fields + [f])) == Emplace(Collect(Stored(fields)), Field(f.name, Kept(f.value)))
  {
    assert (fields + [f])[..|fields|] == fields;
    assert Stored(fields + [f])[..|fields|] == Stored(fields);
  }

  lemma ExtendProtocol(before: char, b: char, c: Config, holder: CodeHolder, h: HeadParts, v: string)
    requires Tracks(c, holder, h, v)
    requires !AfterCode(c.state) && c.state != StatusCode && c.state != ResponseProtocolVersionMinor
    ensures Extends(before, b, c, holder, h, v)
  {
    hide FieldsText, RawLines, Kept;
    StatusLineText(h, b);
  }

  lemma ExtendMinor(before: char, b: char, c: Config, holder: CodeHolder, h: HeadParts, v: string)
    requires Tracks(c, holder, h, v) && c.state == ResponseProtocolVersionMinor
    ensures Extends(before, b, c, holder, h, v)
  {
    hide FieldsText, RawLines, Kept;
    StatusLineText(h, b);
  }

  lemma ExtendCode(before: char, b: char, c: Config, holder: CodeHolder, h: HeadParts, v: string)
    requires Tracks(c, holder, h, v) && c.state == StatusCode && b != SP
    ensures Extends(before, b, c, holder, h, v)
  {
    hide FieldsText, StatusText, RawLines, Kept, Atoi;
    StatusLineText(h, b);
    PushAllSnoc(holder, h.digits, b);
  }

  lemma ExtendCodeEnd(before: char, b: char, c: Config, holder: CodeHolder, h: HeadParts, v: string)
    requires Tracks(c, holder, h, v) && c.state == StatusCode && b == SP
    ensures Extends(before, b, c, holder, h, v)
  {
    hide FieldsText, RawLines, Kept, Atoi;
    StatusLineText(h, b);
  }

  lemma ExtendReason(before: char, b: char, c: Config, holder: CodeHolder, h: HeadParts, v: string)
    requires Tracks(c, holder, h, v) && c.state in {ResponseReasonPhrase, StatusLineLF}
    ensures Extends(before, b, c, holder, h, v)
  {
    hide RawLines, Kept, Atoi, CodeText;
    StatusLineText(h, b);
  }

  lemma ExtendName(before: char, b: char, c: Config, holder: CodeHolder, h: HeadParts, v: string)
    requires Tracks(c, holder, h, v) && c.state == HeaderName
    ensures Extends(before, b, c, holder, h, v)
  {
    hide FieldsText, Kept, Atoi, Digits, Collect;
    FieldText(h, "", b);
  }

  lemma ExtendValue(before: char, b: char, c: Config, holder: CodeHolder, h: HeadParts, v: string)
    requires Tracks(c, holder, h, v) && c.state == HeaderValue && before == Last(':', v)
    ensures Extends(before, b, c, holder, h, v)
  {
    hide FieldsText, Kept, Atoi, Token, Digits, Collect;
    KeptSnoc(v, b);
    FieldText(h, v, b);
  }

  lemma ExtendLine(before: char, b: char, c: Config, holder: CodeHolder, h: HeadParts, v: string)
    requires Tracks(c, holder, h, v) && c.state == HeaderValueLF
    ensures Extends(before, b, c, holder, h, v)
  {
    hide FieldsText, RawLines, Atoi, Digits, Collect, HeadText, IsToken, IsText;
    StoredSnoc(h.fields, Field(h.trailer, v));
    FieldText(h, v, b);
  }

  lemma ExtendAny(before: char, b: char, c: Config, holder: CodeHolder, h: HeadParts, v: string)
    requires Tracks(c, holder, h, v)
    requires c.state == HeaderValue ==> before == Last(':', v)
    ensures Extends(before, b, c, holder, h, v)
  {
    hide Kept, FieldsText, Atoi;
    match c.state
    case HeaderName => ExtendName(before, b, c, holder, h, v);
    case HeaderValue => ExtendValue(before, b, c, holder, h, v);
    case HeaderValueLF => ExtendLine(before, b, c, holder, h, v);
    case HeaderEndLF =>
    case ResponseProtocolVersionMinor => ExtendMinor(before, b, c, holder, h, v);
    case StatusCode =>
      if b == SP {
        ExtendCodeEnd(before, b, c, holder, h, v);
      } else {
        ExtendCode(before, b, c, holder, h, v);
      }
    case ResponseReasonPhrase => ExtendReason(before, b, c, holder, h, v);
    case StatusLineLF => ExtendReason(before, b, c, holder, h, v);
    case _ => ExtendProtocol(before, b, c, holder, h, v);
  }

  const NO_HEAD := HeadParts("", "", "", [], "")

  // What a call on s from the start has found, in terms of the parts of s
  ghost predicate Explains(s: string, holder: CodeHolder, h: HeadParts, v: string) {
    var c := Run('\0', s, Start(holder));
    if Live(c.state) then Tracks(c, holder, h, v) && s == ConsumedText(c.state, h, v)
    else c.state != ProtocolError ==>
      WellFormed(h) && HeadText(h) <= s && c == Final(h, holder, s[|HeadText(h)|..])
  }

  // A call on one byte more, from the configuration that the call before it reached
  function Next(before: char, b: char, c: Config): Config {
    match Step(before, b, c)
    case Advance(c') => c'
    case Stay(c') => c'
    case TakeRest => TakeBody(c, [b])
    case Leave => c
  }

  lemma RunOneMore(before: char, init: string, b: char, c: Config)
    requires !TakesBody(before, init, c)
    ensures Run(before, init + [b], c) == Next(Last(before, init), b, Run(before, init, c))
  {
    RunConcat(before, init, [b], c);
    assert [b][1..] == "";
  }

  lemma {:induction false} TakesBodyEnds(before: char, s: string, c: Config)
    ensures TakesBody(before, s, c) ==> Run(before, s, c).state == ParsingDone && Run(before, s, c).msg.body != ""
    ensures !TakesBody(before, s, c) ==> Run(before, s, c).msg.body == c.msg.body
    decreases |s|
  {
    if s != "" {
      match Step(before, s[0], c)
      case Advance(c') => TakesBodyEnds(s[0], s[1..], c');
      case _ =>
    }
  }

  lemma LiveStep(before: char, b: char, c: Config)
    requires Live(c.state) && c.state != HeaderEndLF
    ensures match Step(before, b, c)
            case Advance(c') => Live(c'.state)
            case Stay(c') => c'.state == ProtocolError
            case _ => false
  {
  }

  lemma LastOfConsumed(state: ResponseParserState, h: HeadParts, v: string)
    ensures state == HeaderValue ==> Last('\0', ConsumedText(state, h, v)) == Last(':', v)
  {
  }

  lemma ExplainLive(init: string, b: char, holder: CodeHolder, h: HeadParts, v: string)
    requires Explains(init, holder, h, v)
    requires var c := Run('\0', init, Start(holder)); Live(c.state) && c.state != HeaderEndLF
    ensures var (h', v') := Extend(Run('\0', init, Start(holder)).state, h, v, b);
            Explains(init + [b], holder, h', v')
  {
    hide Run;
    var before, c := Last('\0', init), Run('\0', init, Start(holder));
    TakesBodyEnds('\0', init, Start(holder));
    RunOneMore('\0', init, b, Start(holder));
    LastOfConsumed(c.state, h, v);
    LiveStep(before, b, c);
    ExtendAny(before, b, c, holder, h, v);
  }

  lemma ExplainHeadEnd(init: string, b: char, holder: CodeHolder, h: HeadParts, v: string)
    requires Explains(init, holder, h, v)
    requires Run('\0', init, Start(holder)).state == HeaderEndLF
    ensures Explains(init + [b], holder, h, v)
  {
    TakesBodyEnds('\0', init, Start(holder));
    RunOneMore('\0', init, b, Start(holder));
    assert b == LF ==> (init + [b])[|HeadText(h)|..] == "";
  }

  // After the head, bytes are body or are ignored.
  lemma RunAfterEnd(init: string, b: char, c: Config)
    requires !Live(Run('\0', init, c).state)
    ensures var r := Run('\0', init, c);
            Run('\0', init + [b], c) ==
            if r.state == ResponseMessageBody || TakesBody('\0', init, c) then TakeBody(r, [b]) else r
  {
    TakesBodyEnds('\0', init, c);
    if TakesBody('\0', init, c) {
      BodyGoesOn('\0', init, [b], c);
    } else {
      RunOneMore('\0', init, b, c);
    }
  }

  lemma ExplainEnded(init: string, b: char, holder: CodeHolder, h: HeadParts, v: string)
    requires Explains(init, holder, h, v)
    requires !Live(Run('\0', init, Start(holder)).state)
    ensures Explains(init + [b], holder, h, v)
  {
    hide Run, HeadText, WellFormed, Tracks, ConsumedText, HeadMessage, TakesBody;
    var c, text := Start(holder), HeadText(h);
    RunAfterEnd(init, b, c);
    TakesBodyEnds('\0', init, c);
    if Run('\0', init, c).state != ProtocolError {
      FinalGoesOn(h, holder, init[|text|..], b);
      assert (init + [b])[|text|..] == init[|text|..] + [b];
    }
  }

  lemma FinalGoesOn(h: HeadParts, holder: CodeHolder, rest: string, b: char)
    ensures var r := Final(h, holder, rest);
            Final(h, holder, rest + [b]) ==
            if r.state == ResponseMessageBody || r.msg.body != "" then TakeBody(r, [b]) else r
  {
    assert "" + [b] == [b];
  }

  // From the automaton to the grammar, byte by byte
  lemma {:induction false} Explain(s: string, holder: CodeHolder) returns (h: HeadParts, v: string)
    ensures Explains(s, holder, h, v)
  {
    if s == "" {
      h, v := NO_HEAD, "";
      return;
    }
    var init, b := s[..|s| - 1], s[|s| - 1];
    assert s == init + [b];
    h, v := Explain(init, holder);
    var state := Run('\0', init, Start(holder)).state;
    if !Live(state) {
      ExplainEnded(init, b, holder, h, v);
    } else if state == HeaderEndLF {
      ExplainHeadEnd(init, b, holder, h, v);
    } else {
      ExplainLive(init, b, holder, h, v);
      var parts := Extend(state, h, v, b);
      h, v := parts.0, parts.1;
    }
  }

  // From the grammar to the automaton, part by part

  lemma {:induction false} RunMinor(before: char, d: string, c: Config)
    requires c.state == ResponseProtocolVersionMinor && c.msg.version == HTTP1_1 && Digits(d)
    ensures Run(before, d, c) == c && !TakesBody(before, d, c)
    decreases |d|
  {
    if d != "" {
      RunMinor(d[0], d[1..], c);
    }
  }

  lemma {:induction false} RunCode(before: char, d: string, c: Config)
    requires c.state == StatusCode && Digits(d)
    ensures Run(before, d, c) == c.(msg := c.msg.(holder := c.msg.holder.PushAll(d))) && !TakesBody(before, d, c)
  {
    if d != "" {
      var init, b := d[..|d| - 1], d[|d| - 1];
      RunCode(before, init, c);
      assert init + [b] == d;
      RunOneMore(before, init, b, c);
      TakesBodyEnds(before, d, c);
    }
  }

  lemma {:induction false} RunReason(before: char, t: string, c: Config)
    requires c.state == ResponseReasonPhrase && Text(t)
    ensures Run(before, t, c) == c && !TakesBody(before, t, c)
    decreases |t|
  {
    if t != "" {
      RunReason(t[0], t[1..], c);
    }
  }

  lemma {:induction false} RunName(before: char, n: string, c: Config)
    requires c.state == HeaderName && Token(n)
    ensures Run(before, n, c) == c.(msg := c.msg.(tempName := c.msg.tempName + n)) && !TakesBody(before, n, c)
    decreases |n|
  {
    if n == "" {
      assert c.msg.tempName + n == c.msg.tempName;
    } else {
      RunName(n[0], n[1..], c.(msg := c.msg.(tempName := c.msg.tempName + [n[0]])));
      assert c.msg.tempName + [n[0]] + n[1..] == c.msg.tempName + n;
    }
  }

  lemma {:induction false} RunValue(v: string, c: Config)
    requires c.state == HeaderValue && Text(v)
    ensures Run(':', v, c) == c.(msg := c.msg.(tempValue := c.msg.tempValue + Kept(v))) && !TakesBody(':', v, c)
  {
    if v == "" {
      assert c.msg.tempValue + Kept(v) == c.msg.tempValue;
    } else {
      var init, b := v[..|v| - 1], v[|v| - 1];
      RunValue(init, c);
      assert init + [b] == v;
      RunOneMore(':', init, b, c);
      TakesBodyEnds(':', v, c);
      assert c.msg.tempValue + Kept(init) + [b] == c.msg.tempValue + (Kept(init) + [b]);
    }
  }

  // A byte that leaves the automaton live, appended to text that left it live
  lemma Then(before: char, s: string, c: Config, c': Config, b: char)
    requires Run(before, s, c) == c' && Live(c'.state) && Live(Next(Last(before, s), b, c').state)
    ensures Run(before, s + [b], c) == Next(Last(before, s), b, c')
    ensures !TakesBody(before, s, c) && !TakesBody(before, s + [b], c)
  {
    TakesBodyEnds(before, s, c);
    RunOneMore(before, s, b, c);
    TakesBodyEnds(before, s + [b], c);
  }

  // Text that leaves the automaton live, appended to text that left it live
  lemma ThenText(before: char, s: string, c: Config, c': Config, t: string)
    requires Run(before, s, c) == c' && Live(c'.state)
    ensures Run(before, s + t, c) == Run(Last(before, s), t, c')
  {
    TakesBodyEnds(before, s, c);
    RunConcat(before, s, t, c);
  }

  lemma RunHTTP(c: Config)
    requires c.state == ResponseProtocolH
    ensures Run('\0', "HTTP", c) == c.(state := ResponseProtocolSlash)
  {
    hide TakesBody;
    Then('\0', "", c, c, 'H');
    assert "H" == "" + ['H'];
    Then('\0', "H", c, c.(state := ResponseProtocolT1), 'T');
    assert "HT" == "H" + ['T'];
    Then('\0', "HT", c, c.(state := ResponseProtocolT2), 'T');
    assert "HTT" == "HT" + ['T'];
    Then('\0', "HTT", c, c.(state := ResponseProtocolP), 'P');
    assert "HTTP" == "HTT" + ['P'];
  }

  lemma RunHTTP1(c: Config)
    requires c.state == ResponseProtocolH
    ensures Run('\0', "HTTP/1.", c) == c.(state := ResponseProtocolVersionMinor)
  {
    hide Run, TakesBody;
    RunHTTP(c);
    Then('\0', "HTTP", c, c.(state := ResponseProtocolSlash), '/');
    assert "HTTP/" == "HTTP" + ['/'];
    Then('\0', "HTTP/", c, c.(state := ResponseProtocolVersionMajor), '1');
    assert "HTTP/1" == "HTTP/" + ['1'];
    Then('\0', "HTTP/1", c, c.(state := ResponseProtocolDot), '.');
    assert "HTTP/1." == "HTTP/1" + ['.'];
  }

  lemma RunCodeText(h: HeadParts, holder: CodeHolder)
    requires WellFormed(h)
    ensures Run('\0', CodeText(h), Start(holder)) == Config(StatusCode, NewResponse(holder.PushAll(h.digits)))
  {
    hide Run;
    var c := Start(holder);
    var c1 := c.(state := ResponseProtocolVersionMinor);
    var c2 := c.(state := StatusCode);
    RunHTTP1(c);
    ThenText('\0', "HTTP/1.", c, c1, h.minor);
    RunMinor('.', h.minor, c1);
    Then('\0', VersionText(h), c, c1, SP);
    assert VersionText(h) + [SP] + h.digits == CodeText(h);
    ThenText('\0', VersionText(h) + [SP], c, c2, h.digits);
    RunCode(SP, h.digits, c2);
  }

  lemma RunStatusLine(h: HeadParts, holder: CodeHolder)
    requires WellFormed(h)
    ensures Run('\0', StatusText(h) + CRLF, Start(holder))
         == Config(HeaderName, NewResponse(holder.PushAll(h.digits)).(code := CodeOf(h, holder)))
  {
    hide Run;
    var c := Start(holder);
    var c1 := Config(StatusCode, NewResponse(holder.PushAll(h.digits)));
    var c2 := Config(ResponseReasonPhrase, c1.msg.(code := CodeOf(h, holder)));
    RunCodeText(h, holder);
    Then('\0', CodeText(h), c, c1, SP);
    assert CodeText(h) + [SP] + h.reason == StatusText(h);
    ThenText('\0', CodeText(h) + [SP], c, c2, h.reason);
    RunReason(SP, h.reason, c2);
    Then('\0', StatusText(h), c, c2, CR);
    Then('\0', StatusText(h) + [CR], c, c2.(state := StatusLineLF), LF);
    assert StatusText(h) + CRLF == StatusText(h) + [CR] + [LF];
  }

  lemma RunNameColonValue(before: char, f: Field, c: Config)
    requires c.state == HeaderName && c.msg.tempName == "" && c.msg.tempValue == ""
    requires Token(f.name) && Text(f.value)
    ensures Run(before, f.name + ":" + f.value, c)
         == Config(HeaderValue, c.msg.(tempName := f.name, tempValue := Kept(f.value)))
  {
    hide Run, Kept;
    RunName(before, f.name, c);
    assert "" + f.name == f.name && "" + Kept(f.value) == Kept(f.value);
    Then(before, f.name, c, c.(msg := c.msg.(tempName := f.name)), ':');
    var named := Config(HeaderValue, c.msg.(tempName := f.name));
    assert f.name + ":" == f.name + [':'];
    ThenText(before, f.name + ":", c, named, f.value);
    RunValue(f.value, named);
  }

  lemma RunLine(before: char, f: Field, c: Config)
    requires c.state == HeaderName && c.msg.tempName == "" && c.msg.tempValue == ""
    requires Token(f.name) && Text(f.value)
    ensures Run(before, RawLine(f), c)
         == c.(msg := c.msg.(headers := Emplace(c.msg.headers, Field(f.name, Kept(f.value)))))
  {
    hide Run, Kept, Text, Token;
    var s := f.name + ":" + f.value;
    var c' := Config(HeaderValue, c.msg.(tempName := f.name, tempValue := Kept(f.value)));
    RunNameColonValue(before, f, c);
    Then(before, s, c, c', CR);
    Then(before, s + [CR], c, c'.(state := HeaderValueLF), LF);
    assert RawLine(f) == s + [CR] + [LF];
  }

  lemma ThenLine(s: string, f: Field, c0: Config, c: Config)
    requires Run('\0', s, c0) == c
    requires c.state == HeaderName && c.msg.tempName == "" && c.msg.tempValue == ""
    requires Token(f.name) && Text(f.value)
    ensures Run('\0', s + RawLine(f), c0)
         == c.(msg := c.msg.(headers := Emplace(c.msg.headers, Field(f.name, Kept(f.value)))))
  {
    ThenText('\0', s, c0, c, RawLine(f));
    RunLine(Last('\0', s), f, c);
  }

  lemma {:induction false} RunLines(start: string, fields: seq<Field>, c0: Config, c: Config)
    requires Run('\0', start, c0) == c
    requires c.state == HeaderName && c.msg.headers == map[] && c.msg.tempName == "" && c.msg.tempValue == ""
    requires forall i :: 0 <= i < |fields| ==> Token(fields[i].name) && Text(fields[i].value)
    ensures Run('\0', start + RawLines(fields), c0) == c.(msg := c.msg.(headers := Collect(Stored(fields))))
  {
    hide Run, Token, Text, Emplace, RawLine;
    if fields == [] {
      assert start + RawLines(fields) == start;
    } else {
      var init, f := fields[..|fields| - 1], fields[|fields| - 1];
      RunLines(start, init, c0, c);
      assert fields == init + [f];
      StoredSnoc(init, f);
      ThenLine(start + RawLines(init), f, c0, c.(msg := c.msg.(headers := Collect(Stored(init)))));
      assert start + RawLines(fields) == start + RawLines(init) + RawLine(f);
    }
  }

  lemma RunHeadToCR(h: HeadParts, holder: CodeHolder)
    requires WellFormed(h)
    ensures Run('\0', HeadToCR(h), Start(holder)) == Config(HeaderEndLF, HeadMessage(h, holder))
  {
    hide Run, StatusText, RawLines, Token, Text, Atoi, Collect, Stored;
    var start := StatusText(h) + CRLF;
    var c := Config(HeaderName, NewResponse(holder.PushAll(h.digits)).(code := CodeOf(h, holder)));
    RunStatusLine(h, holder);
    RunLines(start, h.fields, Start(holder), c);
    var c' := c.(msg := c.msg.(headers := Collect(Stored(h.fields))));
    ThenText('\0', start + RawLines(h.fields), Start(holder), c', h.trailer);
    RunName(Last('\0', start + RawLines(h.fields)), h.trailer, c');
    assert "" + h.trailer == h.trailer;
    Then('\0', FieldsText(h), Start(holder), c'.(msg := HeadMessage(h, holder)), CR);
  }

  lemma RunHeadText(h: HeadParts, holder: CodeHolder)
    requires WellFormed(h)
    ensures Run('\0', HeadText(h), Start(holder)) == Final(h, holder, "")
    ensures !TakesBody('\0', HeadText(h), Start(holder))
  {
    RunHeadToCR(h, holder);
    TakesBodyEnds('\0', HeadToCR(h), Start(holder));
    RunOneMore('\0', HeadToCR(h), LF, Start(holder));
    TakesBodyEnds('\0', HeadText(h), Start(holder));
  }

  lemma RunRest(before: char, rest: string, c: Config)
    requires c.state == ParsingDone || c.state == ResponseMessageBody
    ensures Run(before, rest, c) == if c.state == ResponseMessageBody && rest != "" then TakeBody(c, rest) else c
  {
  }

  lemma RunHead(h: HeadParts, holder: CodeHolder, rest: string)
    requires WellFormed(h)
    ensures Run('\0', HeadText(h) + rest, Start(holder)) == Final(h, holder, rest)
    ensures TakesBody('\0', HeadText(h) + rest, Start(holder)) <==>
            CONTENT_LENGTH in HeadMessage(h, holder).headers && rest != ""
  {
    RunHeadText(h, holder);
    RunConcat('\0', HeadText(h), rest, Start(holder));
    RunRest(LF, rest, Final(h, holder, ""));
    assert "" + rest == rest;
    TakesBodyEnds('\0', HeadText(h) + rest, Start(holder));
  }

  // The main results

  /**
   * A run from the start reaches ParsingDone or ResponseMessageBody iff the input begins with a
   * well-formed head, and it then holds exactly the parts of that head: the code, the first-wins
   * fold of the kept values, and, when a Content-Length header is there, the rest as body.
   */
  lemma AcceptsExactlyTheGrammar(s: string, holder: CodeHolder)
    ensures Run('\0', s, Start(holder)).state in {ParsingDone, ResponseMessageBody}
       <==> exists h :: WellFormed(h) && HeadText(h) <= s
    ensures forall h | WellFormed(h) && HeadText(h) <= s ::
              Run('\0', s, Start(holder)) == Final(h, holder, s[|HeadText(h)|..])
  {
    hide Run, HeadText, WellFormed;
    var h, v := Explain(s, holder);
    forall h | WellFormed(h) && HeadText(h) <= s
      ensures Run('\0', s, Start(holder)) == Final(h, holder, s[|HeadText(h)|..])
    {
      RunHead(h, holder, s[|HeadText(h)|..]);
      assert HeadText(h) + s[|HeadText(h)|..] == s;
    }
  }

  // Some field is named Content-Length.
  ghost predicate HasContentLength(fields: seq<Field>) {
    exists i :: 0 <= i < |fields| && fields[i].name == "Content-Length"
  }

  lemma HasContentLengthInMap(fields: seq<Field>)
    ensures HasContentLength(fields) <==> CONTENT_LENGTH in Collect(Stored(fields))
  {
    hide Kept, Collect;
    var stored := Stored(fields);
    FirstValueWins(stored, "Content-Length");
    assert forall i :: 0 <= i < |fields| ==> stored[i].name == fields[i].name;
    if HasContentLength(fields) {
      var i :| 0 <= i < |fields| && fields[i].name == "Content-Length";
      assert stored[i].name == "Content-Length";
    }
  }

  /**
   * What the parser has found after a head: the code, the first-wins fold of the kept values, and
   * all that follows as body iff some field is named Content-Length; it is done unless such a
   * field announces a body of which nothing has come.
   */
  lemma AcceptedMessage(h: HeadParts, holder: CodeHolder, rest: string)
    requires WellFormed(h)
    ensures var c := Run('\0', HeadText(h) + rest, Start(holder));
            && c.msg.code == CodeOf(h, holder) && c.msg.version == HTTP1_1
            && c.msg.headers == Collect(Stored(h.fields))
            && c.msg.body == (if HasContentLength(h.fields) then rest else "")
            && c.state == (if HasContentLength(h.fields) && rest == "" then ResponseMessageBody else ParsingDone)
  {
    hide Run, HeadText, WellFormed, HasContentLength, Atoi;
    RunHead(h, holder, rest);
    HasContentLengthInMap(h.fields);
  }

  // A window cut is inside the body iff a head with a Content-Length field and at least one more
  // byte come before it.
  lemma CutInsideBody(s: string, holder: CodeHolder)
    ensures TakesBody('\0', s, Start(holder)) <==>
            exists h :: WellFormed(h) && HeadText(h) < s && HasContentLength(h.fields)
  {
    hide HasContentLength;
    var h, v := Explain(s, holder);
    HasContentLengthInMap(h.fields);
    TakesBodyEnds('\0', s, Start(holder));
    forall h | WellFormed(h) && HeadText(h) <= s
      ensures TakesBody('\0', s, Start(holder)) <==>
              HasContentLength(h.fields) && HeadText(h) < s
    {
      HasContentLengthInMap(h.fields);
      RunHead(h, holder, s[|HeadText(h)|..]);
      assert HeadText(h) + s[|HeadText(h)|..] == s;
    }
  }

  // The first three digits decide the code, whatever the holder contained.
  lemma CodeOfThreeDigits(h: HeadParts, holder: CodeHolder)
    requires Digits(h.digits) && |h.digits| >= 3 && holder.index == 0
    ensures CodeOf(h, holder)
         == 100 * DigitValue(h.digits[0]) + 10 * DigitValue(h.digits[1]) + DigitValue(h.digits[2])
  {
    PushAllKeepsThree(holder, h.digits);
    AtoiThreeDigits(h.digits[0], h.digits[1], h.digits[2]);
  }

  // Pushing digits fills the holder from the front, three at most, and touches nothing else.
  lemma {:induction false} HolderBytes(holder: CodeHolder, d: string)
    requires holder.index == 0
    ensures var r := holder.PushAll(d);
            && r.index == (if |d| < 3 then |d| else 3)
            && r.c0 == (if |d| > 0 then d[0] else holder.c0)
            && r.c1 == (if |d| > 1 then d[1] else holder.c1)
            && r.c2 == (if |d| > 2 then d[2] else holder.c2)
            && r.CString() == [r.c0, r.c1, r.c2, '\0']
  {
    if d != "" {
      HolderBytes(holder, d[..|d| - 1]);
    }
  }

  // With fewer digits the code is their number if the next byte the holder began with is no digit.
  lemma CodeOfFewerDigits(h: HeadParts, holder: CodeHolder)
    requires Digits(h.digits) && holder.index == 0
    ensures |h.digits| == 2 && !IsDigit(holder.c2) ==>
            CodeOf(h, holder) == 10 * DigitValue(h.digits[0]) + DigitValue(h.digits[1])
    ensures |h.digits| == 1 && !IsDigit(holder.c1) ==> CodeOf(h, holder) == DigitValue(h.digits[0])
    ensures |h.digits| == 0 && holder.c0 == '\0' ==> CodeOf(h, holder) == 0
  {
    HolderBytes(holder, h.digits);
    var r := holder.PushAll(h.digits);
    if |h.digits| == 2 && !IsDigit(holder.c2) {
      AtoiTwoDigits(r.c0, r.c1, r.c2);
    } else if |h.digits| == 1 && !IsDigit(holder.c1) {
      AtoiOneDigit(r.c0, r.c1, r.c2);
    }
  }

  lemma AtoiOneDigit(a: char, b: char, c: char)
    requires IsDigit(a) && !IsDigit(b)
    ensures Atoi([a, b, c, '\0']) == DigitValue(a)
  {
    assert LeadingNumber([b, c, '\0'], DigitValue(a)) == DigitValue(a);
    assert [a, b, c, '\0'][1..] == [b, c, '\0'];
  }

  lemma AtoiTwoDigits(a: char, b: char, c: char)
    requires IsDigit(a) && IsDigit(b) && !IsDigit(c)
    ensures Atoi([a, b, c, '\0']) == 10 * DigitValue(a) + DigitValue(b)
  {
    var n := DigitValue(a);
    assert LeadingNumber([c, '\0'], 10 * n + DigitValue(b)) == 10 * n + DigitValue(b);
    assert [b, c, '\0'][1..] == [c, '\0'];
    assert LeadingNumber([b, c, '\0'], n) == 10 * n + DigitValue(b);
    assert [a, b, c, '\0'][1..] == [b, c, '\0'];
  }

  lemma AtoiThreeDigits(a: char, b: char, c: char)
    requires IsDigit(a) && IsDigit(b) && IsDigit(c)
    ensures Atoi([a, b, c, '\0']) == 100 * DigitValue(a) + 10 * DigitValue(b) + DigitValue(c)
  {
    var n := DigitValue(a);
    assert LeadingNumber(['\0'], 10 * (10 * n + DigitValue(b)) + DigitValue(c))
        == 100 * n + 10 * DigitValue(b) + DigitValue(c);
    assert [c, '\0'][1..] == ['\0'];
    assert LeadingNumber([c, '\0'], 10 * n + DigitValue(b)) == 100 * n + 10 * DigitValue(b) + DigitValue(c);
    assert [b, c, '\0'][1..] == [c, '\0'];
    assert LeadingNumber([b, c, '\0'], n) == 100 * n + 10 * DigitValue(b) + DigitValue(c);
    assert [a, b, c, '\0'][1..] == [b, c, '\0'];
  }

  lemma {:induction false} PushAllKeepsThree(holder: CodeHolder, d: string)
    requires holder.index == 0 && |d| >= 3
    ensures holder.PushAll(d) == CodeHolder(d[0], d[1], d[2], 3)
  {
    if |d| == 3 {
      assert d[..2][..1] == d[..1] && d[..1][..0] == "";
      assert holder.PushAll(d[..1]) == holder.(c0 := d[0], index := 1);
      assert holder.PushAll(d[..2]) == holder.(c0 := d[0], c1 := d[1], index := 2);
    } else {
      PushAllKeepsThree(holder, d[..|d| - 1]);
    }
  }

  // The grammar is unambiguous

  function AfterReason(h: HeadParts, rest: string): string {
    CRLF + HeaderText(h.fields, h.trailer, rest)
  }

  function AfterMinor(h: HeadParts, rest: string): string {
    " " + (h.digits + (" " + (h.reason + AfterReason(h, rest))))
  }

  lemma HeadFromTheFront(h: HeadParts, rest: string)
    ensures HeadToCR(h) + rest == "HTTP/1." + (h.minor + AfterMinor(h, rest))
  {
    hide RawLines;
    assert HeadToCR(h) + rest == StatusText(h) + AfterReason(h, rest);
    assert StatusText(h) == "HTTP/1." + (h.minor + (" " + (h.digits + (" " + h.reason))));
  }

  lemma StatusIsUnique(h: HeadParts, rest: string, h': HeadParts, rest': string)
    requires WellFormed(h) && WellFormed(h') && AfterMinor(h, rest) == AfterMinor(h', rest')
    ensures h.digits == h'.digits && h.reason == h'.reason && AfterReason(h, rest) == AfterReason(h', rest')
  {
    hide HeaderText;
    var end, end' := AfterReason(h, rest), AfterReason(h', rest');
    SameFront(" ", h.digits + (" " + (h.reason + end)), h'.digits + (" " + (h'.reason + end')));
    UniqueSplit(IsDigit, h.digits, " " + (h.reason + end), h'.digits, " " + (h'.reason + end'));
    SameFront(" ", h.reason + end, h'.reason + end');
    UniqueSplit(IsText, h.reason, end, h'.reason, end');
  }

  lemma PartsAreUnique(h: HeadParts, rest: string, h': HeadParts, rest': string)
    requires WellFormed(h) && WellFormed(h')
    requires "HTTP/1." + (h.minor + AfterMinor(h, rest)) == "HTTP/1." + (h'.minor + AfterMinor(h', rest'))
    ensures h == h' && rest == rest'
  {
    hide HeaderText;
    var end, end' := AfterMinor(h, rest), AfterMinor(h', rest');
    SameFront("HTTP/1.", h.minor + end, h'.minor + end');
    assert end[0] == SP && end'[0] == SP;
    UniqueSplit(IsDigit, h.minor, end, h'.minor, end');
    StatusIsUnique(h, rest, h', rest');
    SameFront(CRLF, HeaderText(h.fields, h.trailer, rest), HeaderText(h'.fields, h'.trailer, rest'));
    FieldsAreUnique(h.fields, h.trailer, rest, h'.fields, h'.trailer, rest');
  }

  /** At most one head stands at the front of a text, whatever follows its last CR. */
  lemma HeadIsUnique(s: string, h: HeadParts, h': HeadParts)
    requires WellFormed(h) && HeadToCR(h) <= s
    requires WellFormed(h') && HeadToCR(h') <= s
    ensures h == h'
  {
    hide AfterMinor, AfterReason, HeaderText, HeadToCR;
    var rest, rest' := s[|HeadToCR(h)|..], s[|HeadToCR(h')|..];
    HeadFromTheFront(h, rest);
    HeadFromTheFront(h', rest');
    PartsAreUnique(h, rest, h', rest');
  }

  // A byte that brings a live state nearer to the end of the head, and how far that end is
  function NextByte(s: ResponseParserState): char {
    match s
    case ResponseProtocolH => 'H'
    case ResponseProtocolT1 => 'T'
    case ResponseProtocolT2 => 'T'
    case ResponseProtocolP => 'P'
    case ResponseProtocolSlash => '/'
    case ResponseProtocolVersionMajor => '1'
    case ResponseProtocolDot => '.'
    case ResponseProtocolVersionMinor => SP
    case StatusCode => SP
    case StatusLineLF => LF
    case HeaderValueLF => LF
    case _ => CR
  }

  function Distance(s: ResponseParserState): nat {
    match s
    case ResponseProtocolH => 12
    case ResponseProtocolT1 => 11
    case ResponseProtocolT2 => 10
    case ResponseProtocolP => 9
    case ResponseProtocolSlash => 8
    case ResponseProtocolVersionMajor => 7
    case ResponseProtocolDot => 6
    case ResponseProtocolVersionMinor => 5
    case StatusCode => 4
    case ResponseReasonPhrase => 3
    case StatusLineLF => 2
    case HeaderValue => 3
    case HeaderValueLF => 2
    case HeaderName => 1
    case _ => 0
  }

  lemma NextByteIsNearer(before: char, c: Config)
    requires Live(c.state) && c.state != HeaderEndLF
    ensures match Step(before, NextByte(c.state), c)
            case Advance(c') => Live(c'.state) && Distance(c'.state) < Distance(c.state)
            case _ => false
  {
  }

  lemma {:induction false} HeadEndIsInReach(s: string, holder: CodeHolder) returns (more: string)
    requires Live(Run('\0', s, Start(holder)).state)
    ensures Run('\0', s + more, Start(holder)).state == HeaderEndLF
    decreases Distance(Run('\0', s, Start(holder)).state)
  {
    hide Run, TakesBody;
    var c := Run('\0', s, Start(holder));
    if c.state == HeaderEndLF {
      more := "";
      assert s + more == s;
    } else {
      var b := NextByte(c.state);
      NextByteIsNearer(Last('\0', s), c);
      Then('\0', s, Start(holder), c, b);
      var rest := HeadEndIsInReach(s + [b], holder);
      more := [b] + rest;
      assert s + more == s + [b] + rest;
    }
  }

  lemma ErrorStays(s: string, more: string, c: Config)
    requires Run('\0', s, c).state == ProtocolError
    ensures Run('\0', s + more, c) == Run('\0', s, c)
  {
    TakesBodyEnds('\0', s, c);
    RunConcat('\0', s, more, c);
  }

  // h is a head that s begins with, or that s may yet become.
  ghost predicate Fits(s: string, h: HeadParts) {
    WellFormed(h) && (s <= HeadText(h) || HeadText(h) <= s)
  }

  lemma NoErrorFits(s: string, holder: CodeHolder) returns (h: HeadParts)
    requires Run('\0', s, Start(holder)).state != ProtocolError
    ensures Fits(s, h)
  {
    hide Run, FieldsText;
    var v;
    if Live(Run('\0', s, Start(holder)).state) {
      var more := HeadEndIsInReach(s, holder);
      h, v := Explain(s + more, holder);
    } else {
      h, v := Explain(s, holder);
    }
  }

  lemma FitsNoError(s: string, holder: CodeHolder, h: HeadParts)
    requires Fits(s, h)
    ensures Run('\0', s, Start(holder)).state != ProtocolError
  {
    hide Run, HeadText, HeadMessage, WellFormed;
    if s <= HeadText(h) {
      var more := HeadText(h)[|s|..];
      assert s + more == HeadText(h);
      RunHeadText(h, holder);
      if Run('\0', s, Start(holder)).state == ProtocolError {
        ErrorStays(s, more, Start(holder));
      }
    } else {
      var rest := s[|HeadText(h)|..];
      assert HeadText(h) + rest == s;
      RunHead(h, holder, rest);
    }
  }

  /**
   * Errors are raised at the first hopeless byte: the parser rejects an input iff the input
   * neither begins with a head nor is the beginning of one.
   */
  lemma RejectsExactlyTheHopeless(s: string, holder: CodeHolder)
    ensures Run('\0', s, Start(holder)).state == ProtocolError <==> forall h :: !Fits(s, h)
  {
    hide Run, Fits;
    if Run('\0', s, Start(holder)).state == ProtocolError {
      forall h ensures !Fits(s, h) {
        if Fits(s, h) {
          FitsNoError(s, holder, h);
        }
      }
    } else {
      var h := NoErrorFits(s, holder);
    }
  }

  // Cut bodies

  /**
   * A body that arrives in two windows loses its second part: here the head, announcing a body,
   * is followed by one byte in each of two windows.
   */
  lemma CutBodyIsLost(h: HeadParts, holder: CodeHolder, a: char, b: char)
    requires WellFormed(h) && HasContentLength(h.fields)
    ensures Run('\0', Concat([HeadText(h), [a], [b]]), Start(holder)) == Final(h, holder, [a, b])
    ensures RunWindows('\0', [HeadText(h), [a], [b]], Start(holder)) == Final(h, holder, [a])
  {
    HasContentLengthInMap(h.fields);
    hide Run, HeadText, WellFormed, Collect, Stored, HasContentLength;
    var c, text := Start(holder), HeadText(h);
    assert [text, [a], [b]][..2] == [text, [a]] && [text, [a]][..1] == [text] && [text][..0] == [];
    assert Concat([]) == "" && Concat([text]) == text && Concat([text, [a]]) == text + [a];
    assert Concat([text, [a], [b]]) == text + [a, b];
    RunHead(h, holder, [a, b]);
    RunHead(h, holder, [a]);
    RunHeadText(h, holder);
    RunConcat('\0', text, [a], c);
    assert RunWindows('\0', [], c) == c && RunWindows('\0', [text], c) == Run('\0', text, c);
    assert RunWindows('\0', [text, [a]], c) == Final(h, holder, [a]);
    DoneStays(Last('\0', text + [a]), [b], Final(h, holder, [a]));
  }

  // There is such a head.
  lemma AnnouncesBody()
    ensures var h := HeadParts("1", "200", "OK", [Field("Content-Length", " 2")], "");
            WellFormed(h) && HasContentLength(h.fields)
  {
    var fields := [Field("Content-Length", " 2")];
    assert fields[0].name == "Content-Length";
    ContentLengthIsToken();
    hide Token;
    assert Token("") by { EmptyIsToken(); }
  }

  lemma ContentLengthIsToken()
    ensures Token("Content-Length")
  {
  }

  lemma EmptyIsToken()
    ensures Token("")
  {
  }

  /**
   * An error leaves the message as the last good byte made it: k is the place of the first
   * hopeless byte.
   */
  lemma {:induction false} ErrorKeepsMessage(s: string, holder: CodeHolder) returns (k: nat)
    requires Run('\0', s, Start(holder)).state == ProtocolError
    ensures k < |s|
    ensures var c := Run('\0', s[..k], Start(holder));
            && Live(c.state) && Run('\0', s, Start(holder)) == c.(state := ProtocolError)
            && Run('\0', s[..k + 1], Start(holder)) == Run('\0', s, Start(holder))
  {
    hide Run, Live, TakesBody;
    if s == "" {
      NothingRead(holder);
    } else {
      var n, c := |s| - 1, Start(holder);
      var init, b := s[..n], s[n];
      assert s == init + [b];
      TakesBodyEnds('\0', init, c);
      if Run('\0', init, c).state == ProtocolError {
        RunOneMore('\0', init, b, c);
        k := ErrorKeepsMessage(init, holder);
        assert init[..k] == s[..k] && init[..k + 1] == s[..k + 1];
      } else {
        k := n;
        assert s[..k + 1] == s;
        ErrorComesFromLive(init, b, c);
      }
    }
  }

  lemma NothingRead(holder: CodeHolder)
    ensures Run('\0', "", Start(holder)) == Start(holder)
  {
  }

  lemma ErrorComesFromLive(init: string, b: char, c: Config)
    requires Run('\0', init, c).state != ProtocolError && Run('\0', init + [b], c).state == ProtocolError
    ensures Live(Run('\0', init, c).state)
    ensures Run('\0', init + [b], c) == Run('\0', init, c).(state := ProtocolError)
  {
    hide Run, TakesBody;
    if Live(Run('\0', init, c).state) {
      TakesBodyEnds('\0', init, c);
      RunOneMore('\0', init, b, c);
    } else {
      RunAfterEnd(init, b, c);
    }
  }
}
