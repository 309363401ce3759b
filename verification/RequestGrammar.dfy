/**
 * The language of the request automaton, stated as a grammar and proved equal to it:
 *
 *   head   = token+ SP target SP "HTTP/" digit "." digit* CRLF field* token* CRLF
 *   field  = token* ":" value CRLF
 *   target = printable bytes other than SP
 *   value  = text in which every SP directly follows a ":"
 */
module RequestGrammar {
  import opened Lexical
  import opened Headers
  import opened HTTPVersions
  import opened RequestAutomaton

  // The parts of a request head.  Field values are raw; `trailer` is a name that no colon follows.
  datatype HeadParts = HeadParts(
    meth: string,
    target: string,
    major: char,
    minor: string,
    fields: seq<Field>,
    trailer: string)

  predicate RawValue(v: string) {
    forall k :: 0 <= k < |v| ==> IsText(v[k]) && (v[k] == SP && k > 0 ==> v[k - 1] == ':')
  }

  predicate WellFormed(h: HeadParts) {
    && h.meth != "" && Token(h.meth)
    && Printable(h.target)
    && IsDigit(h.major) && Digits(h.minor)
    && (forall i :: 0 <= i < |h.fields| ==> Token(h.fields[i].name) && RawValue(h.fields[i].value))
    && Token(h.trailer)
  }

  function MethodAndTarget(h: HeadParts): string {
    h.meth + " " + h.target
  }

  function VersionText(h: HeadParts): string {
    MethodAndTarget(h) + " HTTP/" + [h.major] + "." + h.minor
  }

  function FieldsText(h: HeadParts): string {
    VersionText(h) + CRLF + RawLines(h.fields) + h.trailer
  }

  // The head up to its last CR, and all of it
  function HeadToCR(h: HeadParts): string {
    FieldsText(h) + [CR]
  }

  function HeadText(h: HeadParts): string {
    HeadToCR(h) + [LF]
  }

  // What the parser keeps of a raw value: everything but the spaces
  function Squeeze(v: string): string {
    if v == "" then ""
    else
      var init := Squeeze(v[..|v| - 1]);
      if v[|v| - 1] == SP then init else init + [v[|v| - 1]]
  }

  // Byte by byte: a space adds nothing to what is kept, any other byte is kept in its place.
  lemma {:induction false} SqueezedByte(v: string, i: nat)
    requires i < |v|
    ensures Squeeze(v[..i + 1]) <= Squeeze(v)
    ensures Squeeze(v[..i + 1]) == Squeeze(v[..i]) + if v[i] == ' ' then "" else [v[i]]
    decreases |v|
  {
    if i == |v| - 1 {
      assert v[..i + 1] == v;
    } else {
      SqueezedByte(v[..|v| - 1], i);
      assert v[..|v| - 1][..i + 1] == v[..i + 1] && v[..|v| - 1][..i] == v[..i];
    }
  }

  function Stored(fields: seq<Field>): (r: seq<Field>)
    ensures |r| == |fields|
  {
    seq(|fields|, i requires 0 <= i < |fields| => Field(fields[i].name, Squeeze(fields[i].value)))
  }

  // The message the parser holds when it has read the head to its last CR
  function HeadMessage(h: HeadParts): Request {
    NEW_REQUEST.(target := h.target, headers := Collect(Stored(h.fields)), tempMethod := h.meth, tempName := h.trailer)
  }

  // The configuration it ends with when `rest` follows a head whose method it supports
  function Final(h: HeadParts, rest: string): Config {
    var t := TypeOf(h.meth);
    Config(StateAfterHead(t),
           HeadMessage(h).(requestType := t, body := if StateAfterHead(t) == MessageBody then rest else ""))
  }

  // From the automaton to the grammar: the parts read so far, as a function of the state

  predicate Live(s: ParserState) {
    s !in {ProtocolError, MessageBody, ParsingDone}
  }

  predicate InValue(s: ParserState) {
    s == HeaderValue || s == HeaderValueLF
  }

  predicate AfterStartLine(s: ParserState) {
    s == HeaderName || InValue(s) || s == HeaderEndLF
  }

  // The text consumed when the automaton is in state s; v is the raw value being read
  function ConsumedText(s: ParserState, h: HeadParts, v: string): string {
    match s
    case RequestLineBegin => ""
    case RequestMethod => h.meth
    case RequestResource => MethodAndTarget(h)
    case RequestProtocolH => MethodAndTarget(h) + " "
    case RequestProtocolT1 => MethodAndTarget(h) + " H"
    case RequestProtocolT2 => MethodAndTarget(h) + " HT"
    case RequestProtocolP => MethodAndTarget(h) + " HTT"
    case RequestProtocolSlash => MethodAndTarget(h) + " HTTP"
    case RequestProtocolVersionMajor => MethodAndTarget(h) + " HTTP/"
    case RequestProtocolDot => MethodAndTarget(h) + " HTTP/" + [h.major]
    case RequestProtocolVersionMinor => VersionText(h)
    case RequestLineLF => VersionText(h) + [CR]
    case HeaderName => FieldsText(h)
    case HeaderValue => FieldsText(h) + ":" + v
    case HeaderValueLF => FieldsText(h) + ":" + v + [CR]
    case HeaderEndLF => HeadToCR(h)
    case _ => ""
  }

  // h and v are the parts read so far in state s, with nothing in the parts still to come
  predicate PartsSoFar(s: ParserState, h: HeadParts, v: string) {
    && Token(h.meth) && (s == RequestLineBegin <==> h.meth == "")
    && Printable(h.target) && (s == RequestLineBegin || s == RequestMethod ==> h.target == "")
    && IsDigit(h.major) && Digits(h.minor)
    && (s == RequestProtocolDot ==> h.minor == "")
    && (forall i :: 0 <= i < |h.fields| ==> Token(h.fields[i].name) && RawValue(h.fields[i].value))
    && Token(h.trailer) && RawValue(v)
    && (!AfterStartLine(s) ==> h.fields == [] && h.trailer == "")
    && (!InValue(s) ==> v == "")
  }

  predicate Tracks(c: Config, h: HeadParts, v: string) {
    && Live(c.state) && PartsSoFar(c.state, h, v)
    && c.msg == HeadMessage(h).(tempValue := Squeeze(v))
  }

  // The parts after one more byte
  function Extend(s: ParserState, h: HeadParts, v: string, b: char): (HeadParts, string) {
    match s
    case RequestLineBegin => (h.(meth := [b]), v)
    case RequestMethod => (if b == SP then h else h.(meth := h.meth + [b]), v)
    case RequestResource => (if b == SP then h else h.(target := h.target + [b]), v)
    case RequestProtocolVersionMajor => (h.(major := b, minor := ""), v)
    case RequestProtocolVersionMinor => (if b == CR then h else h.(minor := h.minor + [b]), v)
    case HeaderName => (if b == ':' || b == CR then h else h.(trailer := h.trailer + [b]), v)
    case HeaderValue => (h, if b == CR then v else v + [b])
    case HeaderValueLF => (h.(fields := h.fields + [Field(h.trailer, v)], trailer := ""), "")
    case _ => (h, v)
  }

  // Byte b, if it is consumed, moves the automaton and the parts on in step.
  predicate Extends(before: char, b: char, c: Config, h: HeadParts, v: string) {
    match Step(before, b, c)
    case Advance(c') =>
      var (h', v') := Extend(c.state, h, v, b);
      Live(c'.state) ==> Tracks(c', h', v') && ConsumedText(c'.state, h', v') == ConsumedText(c.state, h, v) + [b]
    case _ => true
  }

  // What one more byte does to the text, part by part

  lemma StartLineText(h: HeadParts, b: char)
    ensures MethodAndTarget(h.(target := h.target + [b])) == MethodAndTarget(h) + [b]
    ensures VersionText(h.(minor := h.minor + [b])) == VersionText(h) + [b]
    ensures h.minor == "" ==> VersionText(h) == MethodAndTarget(h) + " HTTP/" + [h.major] + ['.']
    ensures h.fields == [] && h.trailer == "" ==> FieldsText(h) == VersionText(h) + [CR] + [LF]
  {
    assert h.meth + " " + (h.target + [b]) == MethodAndTarget(h) + [b];
    assert MethodAndTarget(h) + " HTTP/" + [h.major] + "." + (h.minor + [b]) == VersionText(h) + [b];
  }

  lemma FieldText(h: HeadParts, v: string, b: char)
    ensures FieldsText(h.(trailer := h.trailer + [b])) == FieldsText(h) + [b]
    ensures FieldsText(h) + ":" + (v + [b]) == FieldsText(h) + ":" + v + [b]
    ensures FieldsText(h.(fields := h.fields + [Field(h.trailer, v)], trailer := ""))
         == FieldsText(h) + ":" + v + [CR] + [LF]
  {
    var start, f := VersionText(h) + CRLF, Field(h.trailer, v);
    assert start + RawLines(h.fields) + (h.trailer + [b]) == FieldsText(h) + [b];
    assert (h.fields + [f])[..|h.fields|] == h.fields;
    assert start + (RawLines(h.fields) + RawLine(f)) + "" == FieldsText(h) + ":" + v + [CR] + [LF];
  }

  lemma ExtendMethodAndTarget(before: char, b: char, c: Config, h: HeadParts, v: string)
    requires Tracks(c, h, v) && c.state in {RequestLineBegin, RequestMethod, RequestResource}
    ensures Extends(before, b, c, h, v)
  {
    hide FieldsText, RawLines, Squeeze, TypeOf, RawValue, Digits;
    StartLineText(h, b);
  }

  lemma ExtendVersion(before: char, b: char, c: Config, h: HeadParts, v: string)
    requires Tracks(c, h, v)
    requires !AfterStartLine(c.state) && c.state !in {RequestLineBegin, RequestMethod, RequestResource}
    ensures Extends(before, b, c, h, v)
  {
    hide RawLines, Squeeze, TypeOf, RawValue, Token, Printable;
    StartLineText(h, b);
  }

  lemma SqueezeSnoc(v: string, b: char)
    ensures Squeeze(v + [b]) == if b == SP then Squeeze(v) else Squeeze(v) + [b]
  {
    assert (v + [b])[..|v|] == v;
  }

  lemma StoredSnoc(fields: seq<Field>, f: Field)
    ensures Collect(Stored(fields + [f])) == Emplace(Collect(Stored(fields)), Field(f.name, Squeeze(f.value)))
  {
    assert (fields + [f])[..|fields|] == fields;
    assert Stored(fields + [f])[..|fields|] == Stored(fields);
  }

  lemma ExtendName(before: char, b: char, c: Config, h: HeadParts, v: string)
    requires Tracks(c, h, v) && c.state == HeaderName
    ensures Extends(before, b, c, h, v)
  {
    hide FieldsText, Squeeze, TypeOf, RawValue, Digits, Printable, Collect;
    FieldText(h, "", b);
  }

  lemma ExtendValue(before: char, b: char, c: Config, h: HeadParts, v: string)
    requires Tracks(c, h, v) && c.state == HeaderValue
    requires v != "" ==> before == v[|v| - 1]
    ensures Extends(before, b, c, h, v)
  {
    hide FieldsText, Squeeze, TypeOf, Token, Digits, Printable, Collect;
    SqueezeSnoc(v, b);
    FieldText(h, v, b);
  }

  lemma ExtendLine(before: char, b: char, c: Config, h: HeadParts, v: string)
    requires Tracks(c, h, v) && c.state == HeaderValueLF
    ensures Extends(before, b, c, h, v)
  {
    hide FieldsText, RawLines, TypeOf, Digits, Printable, Collect, HeadText, IsToken, IsText;
    StoredSnoc(h.fields, Field(h.trailer, v));
    FieldText(h, v, b);
  }

  lemma ExtendAny(before: char, b: char, c: Config, h: HeadParts, v: string)
    requires Tracks(c, h, v)
    requires c.state == HeaderValue && v != "" ==> before == v[|v| - 1]
    ensures Extends(before, b, c, h, v)
  {
    hide Squeeze, FieldsText;
    match c.state
    case HeaderName => ExtendName(before, b, c, h, v);
    case HeaderValue => ExtendValue(before, b, c, h, v);
    case HeaderValueLF => ExtendLine(before, b, c, h, v);
    case HeaderEndLF =>
    case RequestLineBegin => ExtendMethodAndTarget(before, b, c, h, v);
    case RequestMethod => ExtendMethodAndTarget(before, b, c, h, v);
    case RequestResource => ExtendMethodAndTarget(before, b, c, h, v);
    case _ => ExtendVersion(before, b, c, h, v);
  }

  const NO_HEAD := HeadParts("", "", '0', "", [], "")

  // What a call on s from the start has found, in terms of the parts of s
  ghost predicate Explains(s: string, h: HeadParts, v: string) {
    match Run('\0', s, START)
    case Returned(c) =>
      if Live(c.state) then Tracks(c, h, v) && s == ConsumedText(c.state, h, v)
      else if c.state == ProtocolError then true
      else WellFormed(h) && TypeOf(h.meth) != Unsupported && HeadText(h) <= s && c == Final(h, s[|HeadText(h)|..])
    case Hangs =>
      && WellFormed(h) && HeadToCR(h) < s
      && (s[|HeadToCR(h)|] != LF || TypeOf(h.meth) == Unsupported)
  }

  // A call on one byte more, from the configuration c' that the call before it reached
  function Next(before: char, b: char, c: Config): Outcome {
    match Step(before, b, c)
    case Advance(c') => Returned(c')
    case Stay(c') => if c'.state == ProtocolError then Returned(c') else Hangs
    case TakeRest => Returned(TakeBody(c, [b]))
    case Leave => Returned(c)
  }

  lemma RunOneMore(before: char, init: string, b: char, c: Config)
    ensures Run(before, init + [b], c)
         == match Run(before, init, c)
            case Hangs => Hangs
            case Returned(c') => Next(Last(before, init), b, c')
  {
    RunConcat(before, init, [b], c);
    assert [b][1..] == "";
  }

  lemma ExplainHung(init: string, b: char, h: HeadParts, v: string)
    requires Explains(init, h, v) && Run('\0', init, START).Hangs?
    ensures Explains(init + [b], h, v)
  {
    hide Run, HeadToCR, Tracks, TypeOf, WellFormed, HeadMessage, HeadText, Final, ConsumedText;
    RunOneMore('\0', init, b, START);
    assert (init + [b])[|HeadToCR(h)|] == init[|HeadToCR(h)|];
  }

  lemma ExplainDone(init: string, b: char, h: HeadParts, v: string)
    requires Explains(init, h, v) && Run('\0', init, START).Returned?
    requires Run('\0', init, START).config.state in {MessageBody, ParsingDone}
    ensures Explains(init + [b], h, v)
  {
    hide Run, HeadToCR, Tracks, TypeOf, WellFormed, HeadMessage, HeadText, ConsumedText;
    RunOneMore('\0', init, b, START);
    var text := HeadText(h);
    assert (init + [b])[|text|..] == init[|text|..] + [b];
  }

  lemma ExplainEnded(init: string, b: char, h: HeadParts, v: string)
    requires Explains(init, h, v)
    requires Run('\0', init, START).Returned? ==> !Live(Run('\0', init, START).config.state)
    ensures Explains(init + [b], h, v)
  {
    hide Run, HeadToCR, Tracks, TypeOf, WellFormed, HeadMessage, HeadText, Final, ConsumedText;
    if Run('\0', init, START).Hangs? {
      ExplainHung(init, b, h, v);
    } else if Run('\0', init, START).config.state == ProtocolError {
      RunOneMore('\0', init, b, START);
    } else {
      ExplainDone(init, b, h, v);
    }
  }

  lemma LiveStep(before: char, b: char, c: Config)
    requires Live(c.state) && c.state != HeaderEndLF
    ensures match Step(before, b, c)
            case Advance(c') => Live(c'.state)
            case Stay(c') => c'.state == ProtocolError
            case _ => false
  {
  }

  lemma ExplainLive(init: string, b: char, c: Config, h: HeadParts, v: string)
    requires Explains(init, h, v)
    requires Run('\0', init, START) == Returned(c) && Live(c.state) && c.state != HeaderEndLF
    ensures var (h', v') := Extend(c.state, h, v, b); Explains(init + [b], h', v')
  {
    hide Run;
    RunOneMore('\0', init, b, START);
    LastOfConsumed(c.state, h, v);
    var before := Last('\0', init);
    LiveStep(before, b, c);
    ExtendAny(before, b, c, h, v);
  }

  lemma ExplainHeadEnd(init: string, b: char, c: Config, h: HeadParts, v: string)
    requires Explains(init, h, v)
    requires Run('\0', init, START) == Returned(c) && c.state == HeaderEndLF
    ensures Explains(init + [b], h, v)
  {
    hide Run, TypeOf;
    RunOneMore('\0', init, b, START);
    assert b == LF ==> (init + [b])[|HeadText(h)|..] == "";
  }

  // From the automaton to the grammar, byte by byte
  lemma {:induction false} Explain(s: string) returns (h: HeadParts, v: string)
    ensures Explains(s, h, v)
  {
    if s == "" {
      h, v := NO_HEAD, "";
      return;
    }
    var init, b := s[..|s| - 1], s[|s| - 1];
    assert s == init + [b];
    h, v := Explain(init);
    match Run('\0', init, START)
    case Hangs => ExplainEnded(init, b, h, v);
    case Returned(c) =>
      if !Live(c.state) {
        ExplainEnded(init, b, h, v);
      } else if c.state == HeaderEndLF {
        ExplainHeadEnd(init, b, c, h, v);
      } else {
        ExplainLive(init, b, c, h, v);
        var parts := Extend(c.state, h, v, b);
        h, v := parts.0, parts.1;
      }
  }

  lemma LastOfConsumed(state: ParserState, h: HeadParts, v: string)
    ensures state == HeaderValue && v != "" ==> Last('\0', ConsumedText(state, h, v)) == v[|v| - 1]
  {
  }

  // From the grammar to the automaton, part by part

  lemma {:induction false} RunMethod(before: char, m: string, c: Config)
    requires c.state == RequestMethod && Token(m)
    ensures Run(before, m, c) == Returned(c.(msg := c.msg.(tempMethod := c.msg.tempMethod + m)))
    decreases |m|
  {
    if m == "" {
      assert c.msg.tempMethod + m == c.msg.tempMethod;
    } else {
      RunMethod(m[0], m[1..], c.(msg := c.msg.(tempMethod := c.msg.tempMethod + [m[0]])));
      assert c.msg.tempMethod + [m[0]] + m[1..] == c.msg.tempMethod + m;
    }
  }

  lemma {:induction false} RunTarget(before: char, t: string, c: Config)
    requires c.state == RequestResource && Printable(t)
    ensures Run(before, t, c) == Returned(c.(msg := c.msg.(target := c.msg.target + t)))
    decreases |t|
  {
    if t == "" {
      assert c.msg.target + t == c.msg.target;
    } else {
      RunTarget(t[0], t[1..], c.(msg := c.msg.(target := c.msg.target + [t[0]])));
      assert c.msg.target + [t[0]] + t[1..] == c.msg.target + t;
    }
  }

  lemma {:induction false} RunMinor(before: char, d: string, c: Config)
    requires c.state == RequestProtocolVersionMinor && c.msg.version == HTTP1_1 && Digits(d)
    ensures Run(before, d, c) == Returned(c)
    decreases |d|
  {
    if d != "" {
      RunMinor(d[0], d[1..], c);
    }
  }

  lemma {:induction false} RunName(before: char, n: string, c: Config)
    requires c.state == HeaderName && Token(n)
    ensures Run(before, n, c) == Returned(c.(msg := c.msg.(tempName := c.msg.tempName + n)))
    decreases |n|
  {
    if n == "" {
      assert c.msg.tempName + n == c.msg.tempName;
    } else {
      RunName(n[0], n[1..], c.(msg := c.msg.(tempName := c.msg.tempName + [n[0]])));
      assert c.msg.tempName + [n[0]] + n[1..] == c.msg.tempName + n;
    }
  }

  lemma {:induction false} RunValue(v: string, c: Config)
    requires c.state == HeaderValue && RawValue(v)
    ensures Run(':', v, c) == Returned(c.(msg := c.msg.(tempValue := c.msg.tempValue + Squeeze(v))))
  {
    hide Token;
    if v == "" {
      assert c.msg.tempValue + Squeeze(v) == c.msg.tempValue;
    } else {
      var init, b := v[..|v| - 1], v[|v| - 1];
      RunValue(init, c);
      RunConcat(':', init, [b], c);
      assert init + [b] == v && [b][1..] == "";
      assert c.msg.tempValue + Squeeze(init) + [b] == c.msg.tempValue + (Squeeze(init) + [b]);
    }
  }

  lemma RunMethodAndTarget(h: HeadParts)
    requires WellFormed(h)
    ensures Run('\0', MethodAndTarget(h), START)
         == Returned(Config(RequestResource, NEW_REQUEST.(target := h.target, tempMethod := h.meth)))
  {
    var first, rest := h.meth[0], h.meth[1..];
    RunMethod(first, rest, Config(RequestMethod, NEW_REQUEST.(tempMethod := [first])));
    assert [first] + rest == h.meth && "" + [first] == [first];
    RunOneMore('\0', h.meth, SP, START);
    RunConcat('\0', h.meth + [SP], h.target, START);
    assert h.meth + [SP] + h.target == MethodAndTarget(h);
    RunTarget(SP, h.target, Config(RequestResource, NEW_REQUEST.(tempMethod := h.meth)));
    assert "" + h.target == h.target;
  }

  lemma RunHTTP(s: string, c: Config)
    requires Run('\0', s, START) == Returned(c) && c.state == RequestProtocolH
    ensures Run('\0', s + "HTTP/", START) == Returned(c.(state := RequestProtocolVersionMajor))
  {
    RunOneMore('\0', s, 'H', START);
    assert s + "HT" == s + ['H'] + ['T'];
    RunOneMore('\0', s + ['H'], 'T', START);
    assert s + "HTT" == s + "HT" + ['T'];
    RunOneMore('\0', s + "HT", 'T', START);
    assert s + "HTTP" == s + "HTT" + ['P'];
    RunOneMore('\0', s + "HTT", 'P', START);
    assert s + "HTTP/" == s + "HTTP" + ['/'];
    RunOneMore('\0', s + "HTTP", '/', START);
  }

  lemma RunVersion(h: HeadParts)
    requires WellFormed(h)
    ensures Run('\0', VersionText(h), START)
         == Returned(Config(RequestProtocolVersionMinor, NEW_REQUEST.(target := h.target, tempMethod := h.meth)))
  {
    hide Run;
    var s := MethodAndTarget(h);
    var c := Config(RequestProtocolH, NEW_REQUEST.(target := h.target, tempMethod := h.meth));
    RunMethodAndTarget(h);
    RunOneMore('\0', s, SP, START);
    RunHTTP(s + [SP], c);
    assert s + [SP] + "HTTP/" == s + " HTTP/";
    RunOneMore('\0', s + " HTTP/", h.major, START);
    RunOneMore('\0', s + " HTTP/" + [h.major], '.', START);
    var dotted := s + " HTTP/" + [h.major] + ['.'];
    RunConcat('\0', dotted, h.minor, START);
    RunMinor('.', h.minor, c.(state := RequestProtocolVersionMinor));
  }

  lemma RunStartLine(h: HeadParts)
    requires WellFormed(h)
    ensures Run('\0', VersionText(h) + CRLF, START)
         == Returned(Config(HeaderName, NEW_REQUEST.(target := h.target, tempMethod := h.meth)))
  {
    hide Run, VersionText;
    RunVersion(h);
    RunOneMore('\0', VersionText(h), CR, START);
    RunOneMore('\0', VersionText(h) + [CR], LF, START);
    assert VersionText(h) + CRLF == VersionText(h) + [CR] + [LF];
  }

  lemma RunNameColonValue(before: char, f: Field, c: Config)
    requires c.state == HeaderName && c.msg.tempName == "" && c.msg.tempValue == ""
    requires Token(f.name) && RawValue(f.value)
    ensures Run(before, f.name + ":" + f.value, c)
         == Returned(Config(HeaderValue, c.msg.(tempName := f.name, tempValue := Squeeze(f.value))))
  {
    RunName(before, f.name, c);
    assert "" + f.name == f.name && "" + Squeeze(f.value) == Squeeze(f.value);
    RunOneMore(before, f.name, ':', c);
    var named := Config(HeaderValue, c.msg.(tempName := f.name));
    assert Run(before, f.name + ":", c) == Returned(named);
    RunConcat(before, f.name + ":", f.value, c);
    RunValue(f.value, named);
  }

  lemma RunLine(before: char, f: Field, c: Config)
    requires c.state == HeaderName && c.msg.tempName == "" && c.msg.tempValue == ""
    requires Token(f.name) && RawValue(f.value)
    ensures Run(before, RawLine(f), c)
         == Returned(c.(msg := c.msg.(headers := Emplace(c.msg.headers, Field(f.name, Squeeze(f.value))))))
  {
    hide Run;
    var s := f.name + ":" + f.value;
    RunNameColonValue(before, f, c);
    RunOneMore(before, s, CR, c);
    RunOneMore(before, s + [CR], LF, c);
    assert RawLine(f) == s + [CR] + [LF];
  }

  lemma {:induction false} RunLines(start: string, fields: seq<Field>, c: Config)
    requires Run('\0', start, START) == Returned(c)
    requires c.state == HeaderName && c.msg.headers == map[] && c.msg.tempName == "" && c.msg.tempValue == ""
    requires forall i :: 0 <= i < |fields| ==> Token(fields[i].name) && RawValue(fields[i].value)
    ensures Run('\0', start + RawLines(fields), START)
         == Returned(c.(msg := c.msg.(headers := Collect(Stored(fields)))))
  {
    hide Run, Step, Token, RawValue, Emplace, RawLine;
    if fields == [] {
      assert start + RawLines(fields) == start;
    } else {
      var init, f := fields[..|fields| - 1], fields[|fields| - 1];
      RunLines(start, init, c);
      assert fields == init + [f];
      StoredSnoc(init, f);
      RunConcat('\0', start + RawLines(init), RawLine(f), START);
      RunLine(Last('\0', start + RawLines(init)), f, c.(msg := c.msg.(headers := Collect(Stored(init)))));
      assert start + RawLines(fields) == start + RawLines(init) + RawLine(f);
    }
  }

  lemma RunHeadToCR(h: HeadParts)
    requires WellFormed(h)
    ensures Run('\0', HeadToCR(h), START) == Returned(Config(HeaderEndLF, HeadMessage(h)))
  {
    hide Run, VersionText, RawLines, Token, RawValue;
    var start := VersionText(h) + CRLF;
    RunStartLine(h);
    var c := Config(HeaderName, NEW_REQUEST.(target := h.target, tempMethod := h.meth));
    RunLines(start, h.fields, c);
    var c' := c.(msg := c.msg.(headers := Collect(Stored(h.fields))));
    RunConcat('\0', start + RawLines(h.fields), h.trailer, START);
    RunName(Last('\0', start + RawLines(h.fields)), h.trailer, c');
    assert "" + h.trailer == h.trailer;
    RunOneMore('\0', FieldsText(h), CR, START);
  }

  lemma RunRest(before: char, rest: string, c: Config)
    requires c.state == ParsingDone || c.state == MessageBody
    ensures Run(before, rest, c) == Returned(if c.state == MessageBody then TakeBody(c, rest) else c)
  {
    if rest == "" {
      assert c.msg.body + rest == c.msg.body;
    }
  }

  lemma RunStuck(before: char, rest: string, c: Config)
    requires Stuck(Running(before, rest, c))
    ensures Run(before, rest, c).Hangs?
  {
  }

  lemma RunHeadText(h: HeadParts)
    requires WellFormed(h) && TypeOf(h.meth) != Unsupported
    ensures Run('\0', HeadText(h), START) == Returned(Final(h, ""))
  {
    hide Run, HeadToCR, TypeOf;
    RunHeadToCR(h);
    RunOneMore('\0', HeadToCR(h), LF, START);
  }

  lemma RunHead(h: HeadParts, rest: string)
    requires WellFormed(h) && TypeOf(h.meth) != Unsupported
    ensures Run('\0', HeadText(h) + rest, START) == Returned(Final(h, rest))
  {
    hide Run, HeadToCR, HeadMessage, WellFormed, TypeOf;
    RunHeadText(h);
    RunConcat('\0', HeadText(h), rest, START);
    RunRest(LF, rest, Final(h, ""));
    assert "" + rest == rest;
  }

  // The main results

  // The methods the parser knows are those with one of four prefixes.
  predicate KnownMethod(m: string) {
    "GET" <= m || "HEAD" <= m || "POST" <= m || "PUT" <= m
  }

  lemma KnownMethodHasType(m: string)
    ensures KnownMethod(m) <==> TypeOf(m) != Unsupported
  {
    TypeOfIsPrefix(m);
    hide TypeOf;
  }

  /**
   * A run from the start reaches ParsingDone or MessageBody iff the input begins with a
   * well-formed head whose method is known, and it then holds exactly the parts of that head.
   */
  lemma AcceptsExactlyTheGrammar(s: string)
    ensures (Run('\0', s, START).Returned? && Run('\0', s, START).config.state in {ParsingDone, MessageBody})
       <==> exists h :: WellFormed(h) && KnownMethod(h.meth) && HeadText(h) <= s
    ensures forall h | WellFormed(h) && KnownMethod(h.meth) && HeadText(h) <= s ::
              Run('\0', s, START) == Returned(Final(h, s[|HeadText(h)|..]))
  {
    hide Run, HeadText, WellFormed, Tracks, KnownMethod, TypeOf;
    var h, v := Explain(s);
    KnownMethodHasType(h.meth);
    forall h | WellFormed(h) && KnownMethod(h.meth) && HeadText(h) <= s
      ensures Run('\0', s, START) == Returned(Final(h, s[|HeadText(h)|..]))
    {
      KnownMethodHasType(h.meth);
      RunHead(h, s[|HeadText(h)|..]);
      assert HeadText(h) + s[|HeadText(h)|..] == s;
    }
  }

  /**
   * What the parser has found then, part by part: the type and whether there is a body follow
   * from the prefix of the method; the headers are the first-wins fold of the squeezed fields; all
   * that follows the head of a POST or a PUT is the body.
   */
  lemma AcceptedMessage(h: HeadParts, rest: string)
    requires WellFormed(h) && KnownMethod(h.meth)
    ensures Run('\0', HeadText(h) + rest, START).Returned?
    ensures var c := Run('\0', HeadText(h) + rest, START).config;
            && ("GET" <= h.meth ==> c.msg.requestType == Get && c.state == ParsingDone && c.msg.body == "")
            && ("HEAD" <= h.meth ==> c.msg.requestType == Head && c.state == ParsingDone && c.msg.body == "")
            && ("POST" <= h.meth ==> c.msg.requestType == Post && c.state == MessageBody && c.msg.body == rest)
            && ("PUT" <= h.meth ==> c.msg.requestType == Put && c.state == MessageBody && c.msg.body == rest)
            && c.msg.version == HTTP1_1 && c.msg.target == h.target && c.msg.headers == Collect(Stored(h.fields))
  {
    hide Run, HeadText, WellFormed, TypeOf;
    KnownMethodHasType(h.meth);
    TypeOfIsPrefix(h.meth);
    RunHead(h, rest);
  }

  /**
   * The parser hangs iff the input begins with a well-formed head up to its last CR and goes on
   * with a byte other than LF, or with LF when the method has none of the four prefixes.
   */
  lemma HangsExactlyAtHeadEnd(s: string)
    ensures Run('\0', s, START).Hangs?
       <==> exists h :: WellFormed(h) && HeadToCR(h) < s
              && (s[|HeadToCR(h)|] != '\n' || !KnownMethod(h.meth))
  {
    hide Run, HeadToCR, WellFormed, TypeOf, KnownMethod;
    var h, v := Explain(s);
    KnownMethodHasType(h.meth);
    forall h | WellFormed(h) && HeadToCR(h) < s && (s[|HeadToCR(h)|] != LF || !KnownMethod(h.meth))
      ensures Run('\0', s, START).Hangs?
    {
      var rest := s[|HeadToCR(h)|..];
      KnownMethodHasType(h.meth);
      assert HeadToCR(h) + rest == s && rest != "";
      RunHeadToCR(h);
      RunConcat('\0', HeadToCR(h), rest, START);
      RunStuck(Last('\0', HeadToCR(h)), rest, Config(HeaderEndLF, HeadMessage(h)));
    }
  }

  // The head, from its first part on

  function AfterMinor(h: HeadParts, rest: string): string {
    CRLF + HeaderText(h.fields, h.trailer, rest)
  }

  function AfterTarget(h: HeadParts, rest: string): string {
    " HTTP/" + ([h.major] + ("." + (h.minor + AfterMinor(h, rest))))
  }

  lemma HeadFromTheFront(h: HeadParts, rest: string)
    ensures HeadToCR(h) + rest == h.meth + (" " + (h.target + AfterTarget(h, rest)))
  {
    hide RawLines;
    assert HeadToCR(h) + rest == VersionText(h) + AfterMinor(h, rest);
    assert VersionText(h) == h.meth + (" " + (h.target + (" HTTP/" + ([h.major] + ("." + h.minor)))));
  }

  lemma VersionIsUnique(h: HeadParts, rest: string, h': HeadParts, rest': string)
    requires WellFormed(h) && WellFormed(h') && AfterTarget(h, rest) == AfterTarget(h', rest')
    ensures h.major == h'.major && h.minor == h'.minor && AfterMinor(h, rest) == AfterMinor(h', rest')
  {
    hide HeaderText;
    var end, end' := AfterMinor(h, rest), AfterMinor(h', rest');
    SameFront(" HTTP/", [h.major] + ("." + (h.minor + end)), [h'.major] + ("." + (h'.minor + end')));
    UniqueSplit(IsDigit, [h.major], "." + (h.minor + end), [h'.major], "." + (h'.minor + end'));
    SameFront(".", h.minor + end, h'.minor + end');
    UniqueSplit(IsDigit, h.minor, end, h'.minor, end');
  }

  /**
   * The grammar is unambiguous: at most one head stands at the front of a text, whatever follows
   * its last CR.
   */
  lemma HeadIsUnique(s: string, h: HeadParts, h': HeadParts)
    requires WellFormed(h) && HeadToCR(h) <= s
    requires WellFormed(h') && HeadToCR(h') <= s
    ensures h == h'
  {
    hide AfterTarget, AfterMinor, HeaderText, HeadToCR;
    var rest, rest' := s[|HeadToCR(h)|..], s[|HeadToCR(h')|..];
    HeadFromTheFront(h, rest);
    HeadFromTheFront(h', rest');
    PartsAreUnique(h, rest, h', rest');
  }

  lemma PartsAreUnique(h: HeadParts, rest: string, h': HeadParts, rest': string)
    requires WellFormed(h) && WellFormed(h')
    requires h.meth + (" " + (h.target + AfterTarget(h, rest)))
          == h'.meth + (" " + (h'.target + AfterTarget(h', rest')))
    ensures h == h' && rest == rest'
  {
    hide HeaderText;
    var end, end' := AfterTarget(h, rest), AfterTarget(h', rest');
    assert end[0] == SP && end'[0] == SP;
    UniqueSplit(IsToken, h.meth, " " + (h.target + end), h'.meth, " " + (h'.target + end'));
    SameFront(" ", h.target + end, h'.target + end');
    UniqueSplit(c => IsPrint(c) && c != SP, h.target, end, h'.target, end');
    VersionIsUnique(h, rest, h', rest');
    SameFront(CRLF, HeaderText(h.fields, h.trailer, rest), HeaderText(h'.fields, h'.trailer, rest'));
    FieldsAreUnique(h.fields, h.trailer, rest, h'.fields, h'.trailer, rest');
  }

  // A byte that brings a live state nearer to the end of the head, and how far that end is
  function NextByte(s: ParserState): char {
    match s
    case RequestLineBegin => 'G'
    case RequestMethod => SP
    case RequestResource => SP
    case RequestProtocolH => 'H'
    case RequestProtocolT1 => 'T'
    case RequestProtocolT2 => 'T'
    case RequestProtocolP => 'P'
    case RequestProtocolSlash => '/'
    case RequestProtocolVersionMajor => '1'
    case RequestProtocolDot => '.'
    case RequestLineLF => LF
    case HeaderValueLF => LF
    case _ => CR
  }

  function Distance(s: ParserState): nat {
    match s
    case RequestLineBegin => 13
    case RequestMethod => 12
    case RequestResource => 11
    case RequestProtocolH => 10
    case RequestProtocolT1 => 9
    case RequestProtocolT2 => 8
    case RequestProtocolP => 7
    case RequestProtocolSlash => 6
    case RequestProtocolVersionMajor => 5
    case RequestProtocolDot => 4
    case RequestProtocolVersionMinor => 3
    case RequestLineLF => 2
    case HeaderValue => 3
    case HeaderValueLF => 2
    case HeaderName => 1
    case _ => 0
  }

  lemma NextByteIsNearer(before: char, c: Config)
    requires Live(c.state) && c.state != HeaderEndLF
    ensures match Step(before, NextByte(c.state), c)
            case Advance(c') => Live(c'.state) && Distance(c'.state) < Distance(c.state)
            case _ => false
  {
  }

  lemma {:induction false} HeadEndIsInReach(s: string) returns (more: string)
    requires Run('\0', s, START).Returned? && Live(Run('\0', s, START).config.state)
    ensures Run('\0', s + more, START).Returned? && Run('\0', s + more, START).config.state == HeaderEndLF
    decreases Distance(Run('\0', s, START).config.state)
  {
    hide Run;
    var c := Run('\0', s, START).config;
    if c.state == HeaderEndLF {
      more := "";
      assert s + more == s;
    } else {
      var b := NextByte(c.state);
      NextByteIsNearer(Last('\0', s), c);
      RunOneMore('\0', s, b, START);
      var rest := HeadEndIsInReach(s + [b]);
      more := [b] + rest;
      assert s + more == s + [b] + rest;
    }
  }

  lemma {:induction false} ErrorStays(s: string, more: string)
    requires Run('\0', s, START).Returned? && Run('\0', s, START).config.state == ProtocolError
    ensures Run('\0', s + more, START) == Run('\0', s, START)
  {
    RunConcat('\0', s, more, START);
  }

  // h is a head that s begins with, or that s may yet become.
  ghost predicate Fits(s: string, h: HeadParts) {
    WellFormed(h) && (s <= HeadToCR(h) || HeadToCR(h) <= s)
  }

  lemma NoErrorFits(s: string) returns (h: HeadParts)
    requires Run('\0', s, START).Returned? ==> Run('\0', s, START).config.state != ProtocolError
    ensures Fits(s, h)
  {
    hide Run, HeadToCR;
    var v;
    if Run('\0', s, START).Returned? && Live(Run('\0', s, START).config.state) {
      var more := HeadEndIsInReach(s);
      h, v := Explain(s + more);
    } else {
      h, v := Explain(s);
    }
  }

  lemma FitsNoError(s: string, h: HeadParts)
    requires Fits(s, h)
    ensures Run('\0', s, START).Returned? ==> Run('\0', s, START).config.state != ProtocolError
  {
    hide HeadToCR, HeadMessage, WellFormed;
    RunHeadToCR(h);
    if s <= HeadToCR(h) {
      var more := HeadToCR(h)[|s|..];
      assert s + more == HeadToCR(h);
      if Run('\0', s, START).Returned? && Run('\0', s, START).config.state == ProtocolError {
        ErrorStays(s, more);
      }
    } else {
      var rest := s[|HeadToCR(h)|..];
      assert HeadToCR(h) + rest == s;
      RunConcat('\0', HeadToCR(h), rest, START);
      RunFromHeadEnd(Last('\0', HeadToCR(h)), rest, Config(HeaderEndLF, HeadMessage(h)));
    }
  }

  lemma RunFromHeadEnd(before: char, rest: string, c: Config)
    requires c.state == HeaderEndLF
    ensures Run(before, rest, c).Returned? ==> Run(before, rest, c).config.state != ProtocolError
  {
    if rest != "" && Step(before, rest[0], c).Advance? {
      RunRest(rest[0], rest[1..], Step(before, rest[0], c).next);
    }
  }

  /**
   * Errors are raised at the first hopeless byte: the parser rejects an input iff the input
   * neither begins with a head, up to the last CR, nor is the beginning of one.
   */
  lemma RejectsExactlyTheHopeless(s: string)
    ensures (Run('\0', s, START).Returned? && Run('\0', s, START).config.state == ProtocolError)
       <==> forall h :: !Fits(s, h)
  {
    hide Run, Fits;
    if Run('\0', s, START).Returned? && Run('\0', s, START).config.state == ProtocolError {
      forall h ensures !Fits(s, h) {
        if Fits(s, h) {
          FitsNoError(s, h);
        }
      }
    } else {
      var h := NoErrorFits(s);
    }
  }

  /**
   * An error leaves the message as the last good byte made it: k is the place of the first
   * hopeless byte, and the parts read before it are those that Explain gives for s[..k].
   */
  lemma {:induction false} ErrorKeepsMessage(s: string) returns (k: nat)
    requires Run('\0', s, START).Returned? && Run('\0', s, START).config.state == ProtocolError
    ensures k < |s| && Run('\0', s[..k], START).Returned?
    ensures var c := Run('\0', s[..k], START).config;
            && Live(c.state) && Run('\0', s, START) == Returned(c.(state := ProtocolError))
            && Run('\0', s[..k + 1], START) == Run('\0', s, START)
  {
    hide Run, Live;
    if s == "" {
      NothingRead();
    } else {
      var n := |s| - 1;
      var init, b := s[..n], s[n];
      assert s == init + [b];
      RunOneMore('\0', init, b, START);
      if Run('\0', init, START).Returned? && Run('\0', init, START).config.state == ProtocolError {
        k := ErrorKeepsMessage(init);
        assert init[..k] == s[..k] && init[..k + 1] == s[..k + 1];
      } else {
        k := n;
        assert s[..k + 1] == s;
        ErrorComesFromLive(Last('\0', init), b, Run('\0', init, START).config);
      }
    }
  }

  lemma NothingRead()
    ensures Run('\0', "", START) == Returned(START)
  {
  }

  lemma ErrorComesFromLive(before: char, b: char, c: Config)
    requires c.state != ProtocolError
    requires Next(before, b, c).Returned? && Next(before, b, c).config.state == ProtocolError
    ensures Live(c.state) && Next(before, b, c) == Returned(c.(state := ProtocolError))
  {
  }
}
