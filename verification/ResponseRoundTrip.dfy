/**
 * Printing a response message and parsing the result: exactly which messages come back.
 */
module ResponseRoundTrip {
  import opened Lexical
  import opened Headers
  import opened HTTPVersions
  import opened Windows
  import opened ReasonPhrases
  import opened ResponseAutomaton
  import opened ResponseCodes
  import opened ResponseMessages
  import opened ResponseGrammar

  // No ":" except possibly at the end
  predicate ColonOnlyLast(v: string) {
    forall i :: 0 <= i < |v| - 1 ==> v[i] != ':'
  }

  // The headers are printed as text the parser accepts.
  ghost predicate TextHeaders(headers: map<string, string>) {
    forall k :: k in headers ==> Token(k) && Text(headers[k])
  }

  // A message the parser can give back
  ghost predicate Parseable(m: Response) {
    && m.version == HTTP1_1 && Listed(m.code)
    && TextHeaders(m.headers)
    && (forall k :: k in m.headers ==> ColonOnlyLast(m.headers[k]))
    && (m.body != "" ==> "Content-Length" in m.headers)
  }

  // The parser gets past the head and finds the code, version, headers and body of m.
  ghost predicate ParsesTo(c: Config, m: Response) {
    && c.state in {ParsingDone, ResponseMessageBody}
    && c.msg.code == m.code && c.msg.version == m.version && c.msg.headers == m.headers && c.msg.body == m.body
  }

  lemma DecimalOfThreeDigits(n: nat)
    requires 100 <= n <= 999
    ensures var d := Decimal(n);
            |d| == 3 && Digits(d) && 100 * DigitValue(d[0]) + 10 * DigitValue(d[1]) + DigitValue(d[2]) == n
  {
    assert Decimal(n / 10 / 10) == [('0' as int + n / 10 / 10) as char];
  }

  function PartsOf(m: Response, phrase: string, order: seq<Field>): HeadParts
    requires Listed(m.code)
  {
    HeadParts("1", Decimal(m.code), phrase, RawFields(order), "")
  }

  lemma PrintedIsHeadText(m: Response, phrase: string, order: seq<Field>)
    requires m.version == HTTP1_1 && Listed(m.code)
    ensures Printed(m, phrase, order) == HeadText(PartsOf(m, phrase, order)) + m.body
  {
    var h := PartsOf(m, phrase, order);
    LinesAreRawLines(order);
    assert StatusText(h) == "HTTP/1.1 " + CodeAndPhrase(m.code, phrase);
    assert HeadText(h) == StatusText(h) + CRLF + Lines(order) + CRLF;
  }

  lemma ColonOnlyLastSnoc(v: string, b: char)
    ensures ColonOnlyLast(v + [b]) <==> ColonOnlyLast(v) && (v == "" || v[|v| - 1] != ':')
  {
    var w := v + [b];
    assert forall i :: 0 <= i < |v| ==> w[i] == v[i];
    assert v != "" && ColonOnlyLast(w) ==> w[|v| - 1] != ':';
  }

  lemma KeptPrintedSnoc(v: string, b: char)
    ensures Kept(" " + (v + [b]))
         == if v != "" && v[|v| - 1] == ':' then Kept(" " + v) else Kept(" " + v) + [b]
  {
    hide Kept;
    assert " " + (v + [b]) == (" " + v) + [b];
    KeptSnoc(" " + v, b);
    assert Last(':', " " + v) == if v == "" then ' ' else v[|v| - 1];
  }

  // A printed value comes back iff its only ":" may be its last byte.
  lemma {:induction false} KeptOfPrinted(v: string)
    ensures |Kept(" " + v)| <= |v|
    ensures Kept(" " + v) == v <==> ColonOnlyLast(v)
  {
    hide ColonOnlyLast, Last;
    if v == "" {
      KeptOfNothing();
    } else {
      hide Kept;
      var init, b := v[..|v| - 1], v[|v| - 1];
      assert v == init + [b];
      KeptOfPrinted(init);
      KeptPrintedSnoc(init, b);
      ColonOnlyLastSnoc(init, b);
      assert Kept(" " + init) + [b] == v ==> Kept(" " + init) == (Kept(" " + init) + [b])[..|v| - 1];
    }
  }

  lemma KeptOfNothing()
    ensures Kept(" ") == "" && " " + "" == " " && ColonOnlyLast("")
  {
    assert " "[..0] == "";
  }

  lemma {:induction false} KeptIsText(v: string)
    requires Text(v)
    ensures Text(Kept(v))
  {
    if v != "" {
      KeptIsText(v[..|v| - 1]);
    }
  }

  lemma PrintedFields(headers: map<string, string>, order: seq<Field>)
    requires Enumerates(order, headers) && TextHeaders(headers)
    ensures forall i :: 0 <= i < |order| ==> Token(RawFields(order)[i].name) && Text(RawFields(order)[i].value)
  {
    forall i | 0 <= i < |order|
      ensures Token(RawFields(order)[i].name) && Text(RawFields(order)[i].value)
    {
      assert order[i].name in headers;
    }
  }

  // The headers the parser finds are the printed ones iff every value comes back.
  lemma StoredPrintedFields(headers: map<string, string>, order: seq<Field>)
    requires Enumerates(order, headers)
    ensures Collect(Stored(RawFields(order))) == headers
       <==> forall k :: k in headers ==> ColonOnlyLast(headers[k])
  {
    var stored := Stored(RawFields(order));
    forall k
      ensures k in Collect(stored) <==> k in headers
      ensures k in headers ==> (Collect(stored)[k] == headers[k] <==> ColonOnlyLast(headers[k]))
    {
      FirstValueWins(stored, k);
      if k in headers {
        var i :| 0 <= i < |order| && order[i].name == k;
        assert stored[i].name == k;
        var j :| 0 <= j < |stored| && stored[j].name == k && Collect(stored)[k] == stored[j].value;
        assert order[j].name == k;
        KeptOfPrinted(headers[k]);
      }
    }
  }

  // What parsing a printed message yields, when it is printed as text with a listed code
  lemma ParsePrinted(m: Response, phrase: string, order: seq<Field>, holder: CodeHolder)
    requires m.version == HTTP1_1 && Listed(m.code) && Text(phrase) && holder.index == 0
    requires Enumerates(order, m.headers) && TextHeaders(m.headers)
    ensures var h := PartsOf(m, phrase, order);
            && WellFormed(h) && CodeOf(h, holder) == m.code
            && Run('\0', Printed(m, phrase, order), Start(holder)) == Final(h, holder, m.body)
  {
    hide Run, Decimal, Atoi, Collect;
    var h := PartsOf(m, phrase, order);
    DecimalOfThreeDigits(m.code);
    PrintedFields(m.headers, order);
    PrintedIsHeadText(m, phrase, order);
    CodeOfThreeDigits(h, holder);
    RunHead(h, holder, m.body);
  }

  // A message with another version, or whose code the printer does not know, is never accepted.
  lemma UnprintableIsRejected(m: Response, phrase: string, order: seq<Field>, holder: CodeHolder)
    requires m.version != HTTP1_1 || !Listed(m.code)
    ensures Run('\0', Printed(m, phrase, order), Start(holder)).state !in {ParsingDone, ResponseMessageBody}
  {
    hide TakesBody, Atoi, Collect, Lines;
    if m.version == HTTP1_1 && m.code != INVALID_HTTP_CODE {
      var h := HeadParts("1", "", "", [], "");
      var rest := [LF] + Lines(order) + CRLF + m.body;
      var c := Start(holder);
      assert CodeText(h) == "HTTP/1.1 ";
      RunCodeText(h, holder);
      TakesBodyEnds('\0', CodeText(h), c);
      assert Printed(m, phrase, order) == CodeText(h) + ([CR] + rest);
      RunConcat('\0', CodeText(h), [CR] + rest, c);
    }
  }

  // Whatever the parser accepts has token names and text values.
  lemma AcceptedHasTextHeaders(s: string, holder: CodeHolder)
    requires Run('\0', s, Start(holder)).state in {ParsingDone, ResponseMessageBody}
    ensures TextHeaders(Run('\0', s, Start(holder)).msg.headers)
    ensures Run('\0', s, Start(holder)).msg.version == HTTP1_1
  {
    hide Run, HeadText;
    var h, v := Explain(s, holder);
    var headers := Run('\0', s, Start(holder)).msg.headers;
    forall k | k in headers ensures Token(k) && Text(headers[k]) {
      FirstValueWins(Stored(h.fields), k);
      var i :| 0 <= i < |h.fields| && Stored(h.fields)[i].name == k && headers[k] == Stored(h.fields)[i].value;
      KeptIsText(h.fields[i].value);
    }
  }

  /**
   * Round trip: for every message, every order in which its headers are printed, every text as
   * reason phrase and whatever the code holder contained, parsing the printed text gives the
   * message back iff the message is parseable; it is then complete iff there is a body to take or
   * none is announced.
   */
  lemma RoundTrip(m: Response, phrase: string, order: seq<Field>, holder: CodeHolder)
    requires Text(phrase) && holder.index == 0 && Enumerates(order, m.headers)
    ensures ParsesTo(Run('\0', Printed(m, phrase, order), Start(holder)), m) <==> Parseable(m)
    ensures Parseable(m) ==>
            (Run('\0', Printed(m, phrase, order), Start(holder)).state == ParsingDone
             <==> ("Content-Length" in m.headers ==> m.body != ""))
  {
    hide Run, Printed, Atoi;
    var s := Printed(m, phrase, order);
    if m.version != HTTP1_1 || !Listed(m.code) {
      UnprintableIsRejected(m, phrase, order, holder);
    } else if !TextHeaders(m.headers) {
      if ParsesTo(Run('\0', s, Start(holder)), m) {
        AcceptedHasTextHeaders(s, holder);
      }
    } else {
      ParsePrinted(m, phrase, order, holder);
      StoredPrintedFields(m.headers, order);
    }
  }

  /**
   * Every named code comes back, printed with the phrase the printer gives it, and InvalidHttpCode
   * does not.
   */
  lemma EveryCodeRoundTrips(code: HTTPResponseCode, m: Response, order: seq<Field>, holder: CodeHolder)
    requires m.code == Value(code) && m.version == HTTP1_1 && holder.index == 0
    requires Enumerates(order, m.headers) && TextHeaders(m.headers)
    requires forall k :: k in m.headers ==> ColonOnlyLast(m.headers[k])
    requires m.body != "" ==> "Content-Length" in m.headers
    ensures ParsesTo(Run('\0', Printed(m, PrintedPhrase(m.code), order), Start(holder)), m)
       <==> code != InvalidHttpCode
  {
    hide Run, Printed, PrintedPhrase, Listed, Value, NameOf;
    RoundTrip(m, PrintedPhrase(m.code), order, holder);
    ListedMeansNamed(m.code);
    NameOfValue(code);
  }

  // With a cut inside the body the message does not come back.
  lemma CutPrintedIsLost(m: Response, phrase: string, order: seq<Field>, holder: CodeHolder, windows: seq<string>)
    requires Text(phrase) && holder.index == 0 && Enumerates(order, m.headers)
    requires Concat(windows) == Printed(m, phrase, order) && !BodyUncut('\0', windows, Start(holder))
    ensures !ParsesTo(RunWindows('\0', windows, Start(holder)), m)
  {
    hide Run, RunWindows, BodyUncut, Printed, Atoi;
    var s, got := Printed(m, phrase, order), RunWindows('\0', windows, Start(holder));
    CutBody('\0', windows, Start(holder));
    TakesBodyEnds('\0', s, Start(holder));
    AcceptedHasTextHeaders(s, holder);
    if m.version != HTTP1_1 || !Listed(m.code) {
      UnprintableIsRejected(m, phrase, order, holder);
    } else if TextHeaders(m.headers) {
      ParsePrinted(m, phrase, order, holder);
    }
  }

  /** It may be cut into windows anywhere but inside the body, and nowhere else. */
  lemma RoundTripInWindows(m: Response, phrase: string, order: seq<Field>, holder: CodeHolder, windows: seq<string>)
    requires Text(phrase) && holder.index == 0 && Enumerates(order, m.headers)
    requires Concat(windows) == Printed(m, phrase, order)
    ensures ParsesTo(RunWindows('\0', windows, Start(holder)), m)
       <==> Parseable(m) && BodyUncut('\0', windows, Start(holder))
  {
    hide Run, RunWindows, BodyUncut, Printed;
    if BodyUncut('\0', windows, Start(holder)) {
      WindowsDoNotMatter('\0', windows, Start(holder));
      RoundTrip(m, phrase, order, holder);
    } else {
      CutPrintedIsLost(m, phrase, order, holder, windows);
    }
  }
}
