/**
 * Printing a request message and parsing the result: exactly which messages come back.
 */
module RequestRoundTrip {
  import opened Lexical
  import opened Headers
  import opened HTTPVersions
  import opened RequestAutomaton
  import opened RequestMessages
  import opened RequestGrammar
  import opened Windows

  // A message the parser can give back
  ghost predicate Parseable(m: Request) {
    && m.requestType in {Get, Head, Post, Put}
    && m.version == HTTP1_1
    && Printable(m.target)
    && (forall k :: k in m.headers ==> Token(k) && Text(m.headers[k]) && SpaceFree(m.headers[k]))
    && (m.requestType in {Get, Head} ==> m.body == "")
  }

  // The parser succeeds on s and finds the type, version, target, headers and body of m there.
  ghost predicate ParsesTo(o: Outcome, m: Request) {
    && o.Returned? && o.config.state in {ParsingDone, MessageBody}
    && var r := o.config.msg;
       && r.requestType == m.requestType && r.version == m.version && r.target == m.target
       && r.headers == m.headers && r.body == m.body
  }

  function PartsOf(m: Request, order: seq<Field>): HeadParts {
    HeadParts(MethodWord(m.requestType), m.target, '1', "1", RawFields(order), "")
  }

  lemma PrintedIsHeadText(m: Request, order: seq<Field>)
    ensures Printed(m, order) == HeadText(PartsOf(m, order)) + m.body
  {
    var h := PartsOf(m, order);
    LinesAreRawLines(order);
    assert VersionText(h) == MethodWord(m.requestType) + " " + m.target + " HTTP/1.1";
    assert HeadText(h) == VersionText(h) + CRLF + Lines(order) + CRLF;
  }

  lemma {:induction false} SqueezeSpaceFree(v: string)
    requires SpaceFree(v)
    ensures Squeeze(" " + v) == v
  {
    if v == "" {
      assert (" " + v)[..0] == "";
    } else {
      SqueezeSpaceFree(v[..|v| - 1]);
      assert (" " + v)[..|v|] == " " + v[..|v| - 1];
    }
  }

  lemma {:induction false} SqueezeIsSpaceFree(v: string)
    requires Text(v)
    ensures Text(Squeeze(v)) && SpaceFree(Squeeze(v))
  {
    if v != "" {
      SqueezeIsSpaceFree(v[..|v| - 1]);
    }
  }

  lemma PrintedValue(v: string)
    requires Text(v) && SpaceFree(v)
    ensures RawValue(" " + v) && Squeeze(" " + v) == v
  {
    SqueezeSpaceFree(v);
    assert forall k :: 1 <= k < |" " + v| ==> (" " + v)[k] == v[k - 1];
  }

  lemma PrintedFields(headers: map<string, string>, order: seq<Field>)
    requires Enumerates(order, headers)
    requires forall k :: k in headers ==> Token(k) && Text(headers[k]) && SpaceFree(headers[k])
    ensures forall i :: 0 <= i < |order| ==> Token(RawFields(order)[i].name) && RawValue(RawFields(order)[i].value)
    ensures Stored(RawFields(order)) == order
  {
    forall i | 0 <= i < |order|
      ensures Token(RawFields(order)[i].name) && RawValue(RawFields(order)[i].value)
      ensures Stored(RawFields(order))[i] == order[i]
    {
      assert order[i].name in headers;
      PrintedValue(order[i].value);
    }
  }

  lemma PrintedHeadIsWellFormed(m: Request, order: seq<Field>)
    requires Printable(m.target) && Enumerates(order, m.headers)
    requires forall k :: k in m.headers ==> Token(k) && Text(m.headers[k]) && SpaceFree(m.headers[k])
    ensures WellFormed(PartsOf(m, order))
    ensures Collect(Stored(PartsOf(m, order).fields)) == m.headers
  {
    hide Stored, Text, SpaceFree, RawValue, Printable, Collect;
    PrintedFields(m.headers, order);
    CollectEnumeration(order, m.headers);
  }

  // Whatever the parser accepts is parseable.
  lemma AcceptedIsParseable(s: string, m: Request)
    requires ParsesTo(Run('\0', s, START), m)
    ensures Parseable(m)
  {
    hide Run, HeadText;
    var h, v := Explain(s);
    forall k | k in m.headers ensures Token(k) && Text(m.headers[k]) && SpaceFree(m.headers[k]) {
      FirstValueWins(Stored(h.fields), k);
      var i :| 0 <= i < |h.fields| && Stored(h.fields)[i].name == k && m.headers[k] == Stored(h.fields)[i].value;
      SqueezeIsSpaceFree(h.fields[i].value);
    }
  }

  /**
   * Round trip: for every message and every order in which its headers are printed, parsing the
   * printed text gives the message back iff the message is parseable.
   */
  lemma RoundTrip(m: Request, order: seq<Field>)
    requires Enumerates(order, m.headers)
    ensures ParsesTo(Run('\0', Printed(m, order), START), m) <==> Parseable(m)
  {
    hide Run, WellFormed, Printed, HeadText;
    if Parseable(m) {
      PrintedIsHeadText(m, order);
      PrintedHeadIsWellFormed(m, order);
      RunHead(PartsOf(m, order), m.body);
    }
    if ParsesTo(Run('\0', Printed(m, order), START), m) {
      AcceptedIsParseable(Printed(m, order), m);
    }
  }

  // It may be cut into windows anywhere.
  lemma RoundTripInWindows(m: Request, order: seq<Field>, windows: seq<string>)
    requires Enumerates(order, m.headers) && Concat(windows) == Printed(m, order)
    ensures ParsesTo(RunWindows('\0', windows, START), m) <==> Parseable(m)
  {
    WindowsDoNotMatter('\0', windows, START);
    RoundTrip(m, order);
  }

  // A printed CONNECT or UNSUPPORTED message that is otherwise fine makes the parser hang.
  lemma UnsupportedMethodHangs(m: Request, order: seq<Field>)
    requires Enumerates(order, m.headers) && m.requestType in {Connect, Unsupported}
    requires Printable(m.target)
    requires forall k :: k in m.headers ==> Token(k) && Text(m.headers[k]) && SpaceFree(m.headers[k])
    ensures Run('\0', Printed(m, order), START).Hangs?
  {
    hide Run;
    var h, s := PartsOf(m, order), Printed(m, order);
    PrintedIsHeadText(m, order);
    PrintedHeadIsWellFormed(m, order);
    assert HeadToCR(h) < s && s[|HeadToCR(h)|] == LF;
    assert h.meth[0] == 'C' || h.meth[0] == 'U';
    assert !KnownMethod(h.meth);
    HangsExactlyAtHeadEnd(s);
  }
}
