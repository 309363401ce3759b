/**
 * The response message object and its printer.
 */
module ResponseMessages {
  import opened Lexical
  import opened Headers
  import opened HTTPVersions
  import opened IOBuffers
  import opened ReasonPhrases
  import opened ResponseAutomaton
  import opened ResponseCodes

  const INITIAL_CAPACITY: nat := 2048

  // The codes the printer's switch names, all of HTTPResponseCodes but InvalidHttpCode
  predicate Listed(code: int) {
    || 100 <= code <= 101
    || 200 <= code <= 206
    || 300 <= code <= 305 || code == 307
    || 400 <= code <= 417
    || 500 <= code <= 505
  }

  // `std::to_string` of a number
  function Decimal(n: nat): string {
    var digit := [('0' as int + n % 10) as char];
    if n < 10 then digit else Decimal(n / 10) + digit
  }

  // What the switch over the codes prints: nothing for a value it does not name
  function CodeAndPhrase(code: int, phrase: string): string {
    if Listed(code) then Decimal(code) + " " + phrase else ""
  }

  const INVALID_HTTP_CODE := 506

  // The message printed with its header entries in the given order and a reason phrase
  function Printed(m: Response, phrase: string, order: seq<Field>): string {
    if m.version != HTTP1_1 || m.code == INVALID_HTTP_CODE then ""
    else "HTTP/1.1 " + CodeAndPhrase(m.code, phrase) + CRLF + Lines(order) + CRLF + m.body
  }

  /** The listed codes are the named ones, InvalidHttpCode apart, and those that have a phrase. */
  lemma ListedMeansNamed(code: int)
    ensures Listed(code) <==> NameOf(code) != InvalidHttpCode
    ensures Listed(code) <==> ReasonPhrase(code) != ""
    ensures Listed(code) <==> exists c :: c != InvalidHttpCode && Value(c) == code
  {
    PhraseIffNamed(code);
    hide ReasonPhrase;
    NamedMeansListed(code);
    hide NameOf, Listed;
    ValueOfName(code);
    if c :| c != InvalidHttpCode && Value(c) == code {
      NameOfValue(c);
    }
  }

  lemma NamedMeansListed(code: int)
    ensures Listed(code) <==> NameOf(code) != InvalidHttpCode
  {
  }

  // The three characters of a code
  function CodeDigits(code: int): string
    requires 100 <= code <= 999
  {
    [('0' as int + code / 100) as char, ('0' as int + code / 10 % 10) as char, ('0' as int + code % 10) as char]
  }

  lemma DecimalDigits(n: nat)
    requires 100 <= n <= 999
    ensures Decimal(n) == CodeDigits(n)
  {
    assert Decimal(n / 10 / 10) == [('0' as int + n / 10 / 10) as char];
  }

  /**
   * The printed text, byte for byte: the status line of a named code, a bare status line for a
   * number that is no code, and nothing for another version or InvalidHttpCode.
   */
  lemma PrintedText(m: Response, phrase: string, order: seq<Field>)
    ensures Listed(m.code) ==> 100 <= m.code <= 999
    ensures var rest := "\r\n" + Lines(order) + "\r\n" + m.body;
            if m.version != HTTP1_1 || m.code == 506 then Printed(m, phrase, order) == ""
            else if NameOf(m.code) == InvalidHttpCode then Printed(m, phrase, order) == "HTTP/1.1 " + rest
            else Listed(m.code) && Printed(m, phrase, order) == "HTTP/1.1 " + CodeDigits(m.code) + " " + phrase + rest
  {
    hide Lines, Decimal, NameOf;
    NamedMeansListed(m.code);
    LineEnds();
    if Listed(m.code) {
      DecimalDigits(m.code);
      hide CodeDigits;
      var status := "HTTP/1.1 " + (Decimal(m.code) + " " + phrase);
      assert status == "HTTP/1.1 " + Decimal(m.code) + " " + phrase;
      assert status + "\r\n" + Lines(order) + "\r\n" + m.body == status + ("\r\n" + Lines(order) + "\r\n" + m.body);
    } else {
      var status := "HTTP/1.1 " + "";
      assert status + "\r\n" + Lines(order) + "\r\n" + m.body == status + ("\r\n" + Lines(order) + "\r\n" + m.body);
      assert status == "HTTP/1.1 ";
    }
  }

  class ResponseMessage {
    const headers: HTTPHeaders
    const rawBody: IOBuffer
    const codeHolder: array<char>
    var codeIndex: nat
    var responseCode: int
    var version: HTTPVersion
    var tempValue: string
    var tempName: string

    ghost function Repr(): (r: set<object>)
      reads this, rawBody
    {
      {this, headers, rawBody, rawBody.data, codeHolder}
    }

    ghost predicate Valid()
      reads this, rawBody, codeHolder
    {
      rawBody.Valid() && rawBody.data != codeHolder
      && codeHolder.Length == 4 && codeHolder[3] == '\0' && codeIndex <= 3
    }

    ghost function Holder(): CodeHolder
      reads this, rawBody, codeHolder
      requires Valid()
    {
      CodeHolder(codeHolder[0], codeHolder[1], codeHolder[2], codeIndex)
    }

    ghost function View(): (m: Response)
      reads this, headers, rawBody, rawBody.data, codeHolder
      requires Valid()
    {
      Response(responseCode, version, headers.fields, rawBody.View(), tempName, tempValue, Holder())
    }

    constructor ()
      ensures Valid() && fresh(Repr()) && rawBody.data.Length == 2048
      ensures View() == NewResponse(Holder()) && codeIndex == 0
    {
      headers := new HTTPHeaders();
      rawBody := new IOBuffer(INITIAL_CAPACITY);
      codeHolder := new char[4];
      codeIndex := 0;
      responseCode, version := BAD_REQUEST, HTTP1_1;
      tempValue, tempName := "", "";
      new;
      codeHolder[3] := '\0';
    }

    method SetResponseCode(code: int)
      requires Valid()
      modifies this`responseCode
      ensures Valid() && View() == old(View()).(code := code)
    {
      responseCode := code;
    }

    method SetHTTPVersion(v: HTTPVersion)
      requires Valid()
      modifies this`version
      ensures Valid() && View() == old(View()).(version := v)
    {
      version := v;
    }

    /** `pushBackResponseCode`: keeps the first three bytes it is given. */
    method PushBackResponseCode(c: char)
      requires Valid()
      modifies this`codeIndex, codeHolder
      ensures Valid() && View() == old(View()).(holder := old(Holder()).Push(c))
    {
      if codeIndex <= 2 {
        codeHolder[codeIndex] := c;
        codeIndex := codeIndex + 1;
      }
    }

    method GetTempStatusCode() returns (s: string)
      requires Valid()
      ensures s == Holder().CString()
    {
      s := codeHolder[..];
    }

    method PushBackHeaderName(c: char)
      requires Valid()
      modifies this`tempName
      ensures Valid() && View() == old(View()).(tempName := old(tempName) + [c])
    {
      tempName := tempName + [c];
    }

    method PushBackHeaderValue(c: char)
      requires Valid()
      modifies this`tempValue
      ensures Valid() && View() == old(View()).(tempValue := old(tempValue) + [c])
    {
      tempValue := tempValue + [c];
    }

    method AddTempHeadersHolderToMessage()
      requires Valid()
      modifies this`tempName, this`tempValue, headers
      ensures Valid()
      ensures View() == old(View()).(headers := Emplace(old(headers.fields), Field(old(tempName), old(tempValue))),
                                     tempName := "", tempValue := "")
    {
      headers.AddHeader(tempName, tempValue);
      tempName := "";
      tempValue := "";
    }

    method PushBackRawBody(bytes: string)
      requires Valid()
      modifies rawBody, rawBody.data
      ensures Valid() && fresh(Repr() - old(Repr()))
      ensures View() == old(View()).(body := old(rawBody.View()) + bytes)
    {
      rawBody.AppendRawBytes(bytes);
    }

    /** `buildRawMessage` */
    method BuildRawMessage() returns (raw: string)
      requires Valid()
      ensures exists order ::
        Enumerates(order, headers.fields) && raw == Printed(View(), PrintedPhrase(responseCode), order)
    {
      hide Enumerates, Lines, PrintedPhrase;
      var phrase := PrintedPhrase(responseCode);
      var printedHeaders := headers.BuildRawHeader();
      ghost var order :| Enumerates(order, headers.fields) && printedHeaders == Lines(order) + CRLF;
      if version != HTTP1_1 {
        assert Printed(View(), phrase, order) == "";
        return "";
      }
      raw := "HTTP/1.1 ";
      if responseCode == INVALID_HTTP_CODE {
        assert Printed(View(), phrase, order) == "";
        return "";
      }
      raw := raw + CodeAndPhrase(responseCode, phrase);
      raw := raw + CRLF;
      ghost var startLine := raw;
      raw := raw + printedHeaders;
      raw := raw + rawBody.data[rawBody.startOffset..rawBody.endOffset];
      assert startLine + (Lines(order) + CRLF) == startLine + Lines(order) + CRLF;
      assert raw == Printed(View(), phrase, order);
    }
  }
}
