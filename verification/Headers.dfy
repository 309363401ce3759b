/**
 * The header container: a map in which the first value stored under a name wins, printed in
 * whatever order the unordered map enumerates its entries.
 */
module Headers {
  import opened Lexical
  import opened Options

  datatype Field = Field(name: string, value: string)

  // `unordered_map::emplace`: no effect when the name is already present
  function Emplace(m: map<string, string>, f: Field): map<string, string> {
    if f.name in m then m else m[f.name := f.value]
  }

  // The container after adding the fields in order
  function Collect(fields: seq<Field>): map<string, string> {
    if fields == [] then map[]
    else Emplace(Collect(fields[..|fields| - 1]), fields[|fields| - 1])
  }

  // No field before the i-th bears its name
  predicate IsFirst(fields: seq<Field>, i: nat)
    requires i < |fields|
  {
    forall j :: 0 <= j < i ==> fields[j].name != fields[i].name
  }

  lemma FirstStays(fields: seq<Field>, last: Field, i: nat)
    requires i < |fields| && IsFirst(fields, i)
    ensures IsFirst(fields + [last], i)
  {
    assert forall j :: 0 <= j < |fields| ==> (fields + [last])[j] == fields[j];
  }

  lemma LastIsFirst(fields: seq<Field>, last: Field)
    requires forall i :: 0 <= i < |fields| ==> fields[i].name != last.name
    ensures IsFirst(fields + [last], |fields|)
  {
  }

  // The container knows a name iff some field bears it, and its value is that of the first.
  lemma {:induction false} FirstValueWins(fields: seq<Field>, name: string)
    ensures name in Collect(fields) <==> exists i :: 0 <= i < |fields| && fields[i].name == name
    ensures name in Collect(fields) ==>
            exists i :: 0 <= i < |fields| && fields[i].name == name && IsFirst(fields, i)
                     && Collect(fields)[name] == fields[i].value
  {
    if fields != [] {
      hide IsFirst;
      var n := |fields| - 1;
      var init := fields[..n];
      FirstValueWins(init, name);
      assert fields == init + [fields[n]];
      if name in Collect(init) {
        var i :| 0 <= i < n && init[i].name == name && IsFirst(init, i) && Collect(init)[name] == init[i].value;
        FirstStays(init, fields[n], i);
        assert fields[i] == init[i];
      } else if fields[n].name == name {
        LastIsFirst(init, fields[n]);
        assert fields[n].name == name;
      } else {
        assert forall j :: 0 <= j < n ==> init[j] == fields[j];
      }
    }
  }

  // The entries of a map in some order, each exactly once
  ghost predicate Enumerates(order: seq<Field>, m: map<string, string>) {
    && (forall i, j :: 0 <= i < j < |order| ==> order[i].name != order[j].name)
    && (forall i :: 0 <= i < |order| ==> order[i].name in m && m[order[i].name] == order[i].value)
    && (forall k :: k in m ==> exists i :: 0 <= i < |order| && order[i].name == k)
  }

  // Adding the entries again, in whatever order, gives the map back.
  lemma CollectEnumeration(order: seq<Field>, m: map<string, string>)
    requires Enumerates(order, m)
    ensures Collect(order) == m
  {
    forall k
      ensures k in Collect(order) <==> k in m
      ensures k in m ==> Collect(order)[k] == m[k]
    {
      FirstValueWins(order, k);
    }
  }

  // Lines as they stand in a message, with nothing between the colon and the value
  function RawLine(f: Field): string {
    f.name + ":" + f.value + CRLF
  }

  function RawLines(fields: seq<Field>): string {
    if fields == [] then "" else RawLines(fields[..|fields| - 1]) + RawLine(fields[|fields| - 1])
  }

  lemma {:induction false} RawLinesFirst(fields: seq<Field>)
    requires fields != []
    ensures RawLines(fields) == RawLine(fields[0]) + RawLines(fields[1..])
  {
    hide RawLine;
    var n := |fields| - 1;
    var first, last := RawLine(fields[0]), RawLine(fields[n]);
    if n == 0 {
      assert fields[..0] == [] && fields[1..] == [] && "" + first == first + "";
    } else {
      RawLinesFirst(fields[..n]);
      assert fields[..n][1..] == fields[1..][..n - 1];
      assert first + RawLines(fields[1..][..n - 1]) + last == first + (RawLines(fields[1..][..n - 1]) + last);
    }
  }

  lemma NotShorter(p: char -> bool, x: string, rest: string, x': string, rest': string)
    requires forall i :: 0 <= i < |x'| ==> p(x'[i])
    requires rest != "" && !p(rest[0]) && x + rest == x' + rest'
    ensures |x| >= |x'|
  {
    var text := x + rest;
    assert text[|x|] == rest[0];
    assert forall i :: 0 <= i < |x'| ==> text[i] == x'[i];
  }

  // Two texts of one class, each ended by a byte outside the class, are the same if the whole is.
  lemma UniqueSplit(p: char -> bool, x: string, rest: string, x': string, rest': string)
    requires forall i :: 0 <= i < |x| ==> p(x[i])
    requires forall i :: 0 <= i < |x'| ==> p(x'[i])
    requires rest != "" && !p(rest[0]) && rest' != "" && !p(rest'[0])
    requires x + rest == x' + rest'
    ensures x == x' && rest == rest'
  {
    NotShorter(p, x, rest, x', rest');
    NotShorter(p, x', rest', x, rest);
    assert x == (x + rest)[..|x|] && x' == (x' + rest')[..|x'|];
    assert rest == (x + rest)[|x|..] && rest' == (x' + rest')[|x'|..];
  }

  // What remains when the same front is taken from two equal texts
  lemma SameFront(front: string, rest: string, rest': string)
    requires front + rest == front + rest'
    ensures rest == rest'
  {
    assert rest == (front + rest)[|front|..];
    assert rest' == (front + rest')[|front|..];
  }

  // The header part of a message, up to its last CR and on
  function HeaderText(fields: seq<Field>, trailer: string, rest: string): string {
    RawLines(fields) + trailer + [CR] + rest
  }

  predicate TextFields(fields: seq<Field>) {
    forall i :: 0 <= i < |fields| ==> Token(fields[i].name) && Text(fields[i].value)
  }

  lemma HeaderTextFirst(fields: seq<Field>, trailer: string, rest: string)
    requires fields != []
    ensures HeaderText(fields, trailer, rest)
         == fields[0].name + (":" + (fields[0].value + (CRLF + HeaderText(fields[1..], trailer, rest))))
  {
    RawLinesFirst(fields);
    assert RawLine(fields[0]) == fields[0].name + ":" + fields[0].value + CRLF;
  }

  // A field and the lines after it, against another field and the lines after it
  lemma FirstFieldIsUnique(f: Field, rest: string, f': Field, rest': string)
    requires Token(f.name) && Text(f.value) && Token(f'.name) && Text(f'.value)
    requires f.name + (":" + (f.value + (CRLF + rest))) == f'.name + (":" + (f'.value + (CRLF + rest')))
    ensures f == f' && rest == rest'
  {
    UniqueSplit(IsToken, f.name, ":" + (f.value + (CRLF + rest)), f'.name, ":" + (f'.value + (CRLF + rest')));
    SameFront(":", f.value + (CRLF + rest), f'.value + (CRLF + rest'));
    UniqueSplit(IsText, f.value, CRLF + rest, f'.value, CRLF + rest');
    SameFront(CRLF, rest, rest');
  }

  // A field is never read as the trailing name: its name ends at ":", the other at CR.
  lemma FieldIsNotTrailer(f: Field, rest: string, trailer: string, rest': string)
    requires Token(f.name) && Token(trailer)
    ensures f.name + (":" + rest) != trailer + ([CR] + rest')
  {
    assert (":" + rest)[0] != ([CR] + rest')[0];
    if f.name + (":" + rest) == trailer + ([CR] + rest') {
      UniqueSplit(IsToken, f.name, ":" + rest, trailer, [CR] + rest');
    }
  }

  // The header part can be read in one way only.
  lemma {:induction false} FieldsAreUnique(
    fields: seq<Field>, trailer: string, rest: string, fields': seq<Field>, trailer': string, rest': string)
    requires TextFields(fields) && Token(trailer) && TextFields(fields') && Token(trailer')
    requires HeaderText(fields, trailer, rest) == HeaderText(fields', trailer', rest')
    ensures fields == fields' && trailer == trailer' && rest == rest'
    decreases |fields|
  {
    hide Token, Text, IsToken, IsText;
    assert fields == [] ==> HeaderText(fields, trailer, rest) == trailer + ([CR] + rest);
    assert fields' == [] ==> HeaderText(fields', trailer', rest') == trailer' + ([CR] + rest');
    if fields != [] {
      HeaderTextFirst(fields, trailer, rest);
    }
    if fields' != [] {
      HeaderTextFirst(fields', trailer', rest');
    }
    hide HeaderText;
    if fields != [] && fields' != [] {
      FirstFieldIsUnique(fields[0], HeaderText(fields[1..], trailer, rest),
                         fields'[0], HeaderText(fields'[1..], trailer', rest'));
      FieldsAreUnique(fields[1..], trailer, rest, fields'[1..], trailer', rest');
      assert fields == [fields[0]] + fields[1..] && fields' == [fields'[0]] + fields'[1..];
    } else if fields != [] {
      FieldIsNotTrailer(fields[0], fields[0].value + (CRLF + HeaderText(fields[1..], trailer, rest)), trailer', rest');
    } else if fields' != [] {
      var more := fields'[0].value + (CRLF + HeaderText(fields'[1..], trailer', rest'));
      FieldIsNotTrailer(fields'[0], more, trailer, rest);
    } else {
      TrailerIsUnique(trailer, rest, trailer', rest');
    }
  }

  lemma TrailerIsUnique(trailer: string, rest: string, trailer': string, rest': string)
    requires Token(trailer) && Token(trailer') && trailer + ([CR] + rest) == trailer' + ([CR] + rest')
    ensures trailer == trailer' && rest == rest'
  {
    UniqueSplit(IsToken, trailer, [CR] + rest, trailer', [CR] + rest');
    SameFront([CR], rest, rest');
  }

  // One printed line, and all of them

  function Line(f: Field): string {
    f.name + ": " + f.value + CRLF
  }

  function Lines(order: seq<Field>): string {
    if order == [] then "" else Lines(order[..|order| - 1]) + Line(order[|order| - 1])
  }

  // Byte for byte: name, ": ", value and "\r\n", line after line
  lemma LinesText(order: seq<Field>, f: Field)
    ensures Lines([]) == ""
    ensures Lines(order + [f]) == Lines(order) + f.name + ": " + f.value + "\r\n"
  {
    LinesSnoc(order, f);
    LineEnds();
  }

  lemma EnumeratesNothing()
    ensures Enumerates([], map[]) && Lines([]) == ""
  {
  }

  lemma LinesSnoc(order: seq<Field>, f: Field)
    ensures Lines(order + [f]) == Lines(order) + f.name + ": " + f.value + CRLF
  {
    assert (order + [f])[..|order|] == order;
    assert Lines(order) + Line(f) == Lines(order) + f.name + ": " + f.value + CRLF;
  }

  lemma EnumeratesSnoc(order: seq<Field>, m: map<string, string>, f: Field)
    requires Enumerates(order, m) && f.name !in m
    ensures Enumerates(order + [f], m[f.name := f.value])
  {
    var longer := order + [f];
    assert longer[|order|] == f && forall i :: 0 <= i < |order| ==> longer[i] == order[i];
    forall k | k in m ensures exists i :: 0 <= i < |longer| && longer[i].name == k {
      var i :| 0 <= i < |order| && order[i].name == k;
      assert longer[i].name == k;
    }
  }

  // Printing puts a space before every value.
  function RawFields(order: seq<Field>): (r: seq<Field>)
    ensures |r| == |order|
  {
    seq(|order|, i requires 0 <= i < |order| => Field(order[i].name, " " + order[i].value))
  }

  lemma {:induction false} LinesAreRawLines(order: seq<Field>)
    ensures RawLines(RawFields(order)) == Lines(order)
  {
    if order != [] {
      var init, f := order[..|order| - 1], order[|order| - 1];
      LinesAreRawLines(init);
      assert RawFields(order)[..|order| - 1] == RawFields(init);
      assert RawLine(RawFields(order)[|order| - 1]) == Line(f);
    }
  }

  class HTTPHeaders {
    var fields: map<string, string>

    constructor ()
      ensures fields == map[]
    {
      fields := map[];
    }

    method AddHeader(name: string, value: string)
      modifies this
      ensures fields == Emplace(old(fields), Field(name, value))
    {
      if name !in fields {
        fields := fields[name := value];
      }
    }

    method RemoveHeader(name: string) returns (found: bool)
      modifies this
      ensures found <==> name in old(fields)
      ensures fields == old(fields) - {name}
    {
      if name !in fields {
        return false;
      }
      fields := fields - {name};
      return true;
    }

    method HeaderContains(name: string) returns (found: bool)
      ensures found <==> name in fields
    {
      found := name in fields;
    }

    method GetHeaderValue(name: string) returns (value: Option<string>)
      ensures value == if name in fields then Some(fields[name]) else None
    {
      if name !in fields {
        return None;
      }
      value := Some(fields[name]);
    }

    /** `buildRawHeader`: prints every entry once, in an order the container chooses. */
    method BuildRawHeader() returns (raw: string)
      ensures exists order :: Enumerates(order, fields) && raw == Lines(order) + CRLF
    {
      hide Enumerates, Lines;
      raw := "";
      ghost var order: seq<Field> := [];
      EnumeratesNothing();
      var todo := fields.Keys;
      assert fields - todo == map[];
      while todo != {}
        invariant todo <= fields.Keys
        invariant Enumerates(order, fields - todo) && raw == Lines(order)
      {
        var name :| name in todo;
        EnumeratesSnoc(order, fields - todo, Field(name, fields[name]));
        LinesSnoc(order, Field(name, fields[name]));
        assert fields - (todo - {name}) == (fields - todo)[name := fields[name]];
        order := order + [Field(name, fields[name])];
        raw := raw + name;
        raw := raw + ": ";
        raw := raw + fields[name];
        raw := raw + CRLF;
        todo := todo - {name};
      }
      assert fields - todo == fields;
      raw := raw + CRLF;
    }
  }
}
