/**
 * The request message object: header container, body buffer, start line, and the holders the
 * parser fills byte by byte.
 */
module RequestMessages {
  import opened Lexical
  import opened Headers
  import opened HTTPVersions
  import opened IOBuffers
  import opened RequestAutomaton

  const INITIAL_CAPACITY: nat := 2048

  // The word printed for each request type
  function MethodWord(t: HTTPRequestType): string {
    match t
    case Get => "GET"
    case Post => "POST"
    case Head => "HEAD"
    case Put => "PUT"
    case Connect => "CONNECT"
    case Unsupported => "UNSUPPORTED"
  }

  // The message printed with its header entries in the given order
  function Printed(m: Request, order: seq<Field>): string {
    MethodWord(m.requestType) + " " + m.target + " HTTP/1.1" + CRLF + Lines(order) + CRLF + m.body
  }

  /** The printed text, byte for byte, for each of the six types */
  lemma PrintedText(m: Request, order: seq<Field>)
    ensures var rest := m.target + " HTTP/1.1\r\n" + Lines(order) + "\r\n" + m.body;
            match m.requestType
            case Get => Printed(m, order) == "GET " + rest
            case Post => Printed(m, order) == "POST " + rest
            case Head => Printed(m, order) == "HEAD " + rest
            case Put => Printed(m, order) == "PUT " + rest
            case Connect => Printed(m, order) == "CONNECT " + rest
            case Unsupported => Printed(m, order) == "UNSUPPORTED " + rest
  {
    PrintedParts(m, order);
    WordAndSpace(m.requestType);
    hide Printed, MethodWord, Lines;
    var rest := m.target + " HTTP/1.1\r\n" + Lines(order) + "\r\n" + m.body;
    assert MethodWord(m.requestType) + (" " + rest) == MethodWord(m.requestType) + " " + rest;
  }

  lemma PrintedParts(m: Request, order: seq<Field>)
    ensures Printed(m, order)
         == MethodWord(m.requestType) + (" " + (m.target + " HTTP/1.1\r\n" + Lines(order) + "\r\n" + m.body))
  {
    hide MethodWord, Lines;
    LineEnds();
    hide CRLF;
    assert " HTTP/1.1" + "\r\n" == " HTTP/1.1\r\n";
  }

  lemma WordAndSpace(t: HTTPRequestType)
    ensures match t
            case Get => MethodWord(t) + " " == "GET "
            case Post => MethodWord(t) + " " == "POST "
            case Head => MethodWord(t) + " " == "HEAD "
            case Put => MethodWord(t) + " " == "PUT "
            case Connect => MethodWord(t) + " " == "CONNECT "
            case Unsupported => MethodWord(t) + " " == "UNSUPPORTED "
  {
  }

  // The words are told apart by their first letters, and end at the first space.
  lemma WordsDiffer(t: HTTPRequestType, t': HTTPRequestType)
    requires MethodWord(t) == MethodWord(t')
    ensures t == t'
  {
    var w := MethodWord(t);
    assert |w| >= 3 && w[0] == (match t case Get => 'G' case Head => 'H' case Post => 'P' case Put => 'P'
                                        case Connect => 'C' case Unsupported => 'U');
    assert t == Post ==> w[1] == 'O';
    assert t == Put ==> w[1] == 'U';
  }

  lemma WordsHaveNoSpace(t: HTTPRequestType)
    ensures forall i :: 0 <= i < |MethodWord(t)| ==> MethodWord(t)[i] != ' '
  {
  }

  lemma WordAndTargetAreUnique(t: HTTPRequestType, target: string, t': HTTPRequestType, target': string, end: string)
    requires MethodWord(t) + " " + target + end == MethodWord(t') + " " + target' + end
    ensures t == t' && target == target'
  {
    hide MethodWord;
    assert MethodWord(t) + " " + target + end == MethodWord(t) + (" " + (target + end));
    assert MethodWord(t') + " " + target' + end == MethodWord(t') + (" " + (target' + end));
    WordsHaveNoSpace(t);
    WordsHaveNoSpace(t');
    UniqueSplit(c => c != ' ', MethodWord(t), " " + (target + end), MethodWord(t'), " " + (target' + end));
    WordsDiffer(t, t');
    SameFront(" ", target + end, target' + end);
    SameBack(target, target', end);
  }

  lemma SameBack(front: string, front': string, end: string)
    requires front + end == front' + end
    ensures front == front'
  {
    assert |front| == |front'|;
    assert front == (front + end)[..|front|] && front' == (front' + end)[..|front|];
  }

  /** Two start lines are the same only if type and target are. */
  lemma StartLineIsUnique(t: HTTPRequestType, target: string, t': HTTPRequestType, target': string)
    requires MethodWord(t) + " " + target + " HTTP/1.1\r\n" == MethodWord(t') + " " + target' + " HTTP/1.1\r\n"
    ensures t == t' && target == target'
  {
    hide MethodWord;
    WordAndTargetAreUnique(t, target, t', target', " HTTP/1.1\r\n");
  }

  /** Two messages that print alike have the same type. */
  lemma TypesPrintDifferently(m: Request, order: seq<Field>, m': Request, order': seq<Field>)
    requires Printed(m, order) == Printed(m', order')
    ensures m.requestType == m'.requestType
  {
    PrintedParts(m, order);
    PrintedParts(m', order');
    hide Printed, MethodWord, Lines;
    WordsHaveNoSpace(m.requestType);
    WordsHaveNoSpace(m'.requestType);
    UniqueSplit(c => c != ' ',
                MethodWord(m.requestType), " " + (m.target + " HTTP/1.1\r\n" + Lines(order) + "\r\n" + m.body),
                MethodWord(m'.requestType), " " + (m'.target + " HTTP/1.1\r\n" + Lines(order') + "\r\n" + m'.body));
    WordsDiffer(m.requestType, m'.requestType);
  }

  class RequestMessage {
    const headers: HTTPHeaders
    const rawBody: IOBuffer
    var requestType: HTTPRequestType
    var version: HTTPVersion
    var target: string
    var tempValue: string
    var tempName: string
    var tempMethod: string

    ghost function Repr(): (r: set<object>)
      reads this, rawBody
    {
      {this, headers, rawBody, rawBody.data}
    }

    ghost predicate Valid()
      reads this, rawBody
    {
      rawBody.Valid()
    }

    ghost function View(): (m: Request)
      reads this, headers, rawBody, rawBody.data
      requires Valid()
    {
      Request(requestType, version, target, headers.fields, rawBody.View(), tempMethod, tempName, tempValue)
    }

    constructor ()
      ensures Valid() && fresh(Repr()) && rawBody.data.Length == 2048
      ensures View() == NEW_REQUEST
    {
      headers := new HTTPHeaders();
      rawBody := new IOBuffer(INITIAL_CAPACITY);
      requestType, version := Unsupported, HTTP1_1;
      target, tempValue, tempName, tempMethod := "", "", "", "";
    }

    method SetRequestType(t: HTTPRequestType)
      requires Valid()
      modifies this`requestType
      ensures View() == old(View()).(requestType := t)
    {
      requestType := t;
    }

    method SetHTTPVersion(v: HTTPVersion)
      requires Valid()
      modifies this`version
      ensures View() == old(View()).(version := v)
    {
      version := v;
    }

    method PushBackTargetResource(c: char)
      requires Valid()
      modifies this`target
      ensures View() == old(View()).(target := old(target) + [c])
    {
      target := target + [c];
    }

    method PushBackRequestMethod(c: char)
      requires Valid()
      modifies this`tempMethod
      ensures View() == old(View()).(tempMethod := old(tempMethod) + [c])
    {
      tempMethod := tempMethod + [c];
    }

    method PushBackHeaderName(c: char)
      requires Valid()
      modifies this`tempName
      ensures View() == old(View()).(tempName := old(tempName) + [c])
    {
      tempName := tempName + [c];
    }

    method PushBackHeaderValue(c: char)
      requires Valid()
      modifies this`tempValue
      ensures View() == old(View()).(tempValue := old(tempValue) + [c])
    {
      tempValue := tempValue + [c];
    }

    method AddTempHeadersHolderToMessage()
      requires Valid()
      modifies this`tempName, this`tempValue, headers
      ensures View() == old(View()).(headers := Emplace(old(headers.fields), Field(old(tempName), old(tempValue))),
                                     tempName := "", tempValue := "")
    {
      headers.AddHeader(tempName, tempValue);
      tempName := "";
      tempValue := "";
    }

    method PushBackRawBody(bytes: string)
      requires Valid()
      modifies rawBody, rawBody.data
      ensures Valid() && fresh(Repr() - old(Repr()))
      ensures View() == old(View()).(body := old(rawBody.View()) + bytes)
    {
      rawBody.AppendRawBytes(bytes);
    }

    /** `buildRawMessage` */
    method BuildRawMessage() returns (raw: string)
      requires Valid()
      ensures exists order :: Enumerates(order, headers.fields) && raw == Printed(View(), order)
    {
      hide Enumerates, Lines;
      match requestType {
        case Get => raw := "GET ";
        case Post => raw := "POST ";
        case Head => raw := "HEAD ";
        case Put => raw := "PUT ";
        case Connect => raw := "CONNECT ";
        case Unsupported => raw := "UNSUPPORTED ";
      }
      assert raw == MethodWord(requestType) + " ";
      raw := raw + target;
      raw := raw + " ";
      raw := raw + "HTTP/1.1";
      raw := raw + CRLF;
      var printedHeaders := headers.BuildRawHeader();
      ghost var order :| Enumerates(order, headers.fields) && printedHeaders == Lines(order) + CRLF;
      ghost var startLine := raw;
      raw := raw + printedHeaders;
      raw := raw + rawBody.data[rawBody.startOffset..rawBody.endOffset];
      assert startLine == MethodWord(requestType) + " " + target + " HTTP/1.1" + CRLF;
      assert startLine + (Lines(order) + CRLF) == startLine + Lines(order) + CRLF;
      assert raw == Printed(View(), order);
    }
  }
}
