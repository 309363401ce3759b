/**
 * The lexical classes of section 2.2 of RFC 2616 as the parsers test them, byte by byte.
 *
 * A byte is a Dafny `char`.  Only the values 0..255 occur in the source; a byte above 127 is
 * neither a control character nor a token character there, whether `char` is signed or not,
 * and that is what the definitions below give for every value above 127.
 */
module Lexical {

  const CR: char := '\r'
  const LF: char := '\n'
  const SP: char := ' '
  const HT: char := '\t'
  const CRLF: string := [CR, LF]

  predicate IsSeparator(c: char) {
    || c == '(' || c == ')' || c == '<' || c == '>' || c == '@'
    || c == ',' || c == ';' || c == ':' || c == '\\' || c == '"'
    || c == '/' || c == '[' || c == ']' || c == '?' || c == '='
    || c == '{' || c == '}' || c == SP || c == HT
  }

  predicate IsChar(c: char) {
    c as int <= 127
  }

  predicate IsControl(c: char) {
    c as int <= 31 || c as int == 127
  }

  predicate IsToken(c: char) {
    IsChar(c) && !(IsControl(c) || IsSeparator(c))
  }

  predicate IsText(c: char) {
    !IsControl(c) || c == SP || c == HT
  }

  // isprint and isdigit of the C locale
  predicate IsPrint(c: char) {
    32 <= c as int <= 126
  }

  predicate IsDigit(c: char) {
    '0' <= c <= '9'
  }

  // The classes by their members, over all bytes

  lemma TokenBytes(c: char)
    ensures IsToken(c) <==>
            || 'a' <= c <= 'z' || 'A' <= c <= 'Z' || '0' <= c <= '9'
            || c == '!' || c == '#' || c == '$' || c == '%' || c == '&' || c == '\'' || c == '*' || c == '+'
            || c == '-' || c == '.' || c == '^' || c == '_' || c == '`' || c == '|' || c == '~'
  {
  }

  lemma TextBytes(c: char)
    ensures IsText(c) <==> c == '\t' || (' ' <= c && c != 127 as char)
    ensures IsPrint(c) <==> ' ' <= c <= '~'
    ensures IsDigit(c) <==> c in {'0', '1', '2', '3', '4', '5', '6', '7', '8', '9'}
  {
  }

  // The strings made of bytes of one class

  predicate Token(s: string) {
    forall i :: 0 <= i < |s| ==> IsToken(s[i])
  }

  predicate Text(s: string) {
    forall i :: 0 <= i < |s| ==> IsText(s[i])
  }

  predicate Digits(s: string) {
    forall i :: 0 <= i < |s| ==> IsDigit(s[i])
  }

  predicate Printable(s: string) {
    forall i :: 0 <= i < |s| ==> IsPrint(s[i]) && s[i] != SP
  }

  predicate SpaceFree(s: string) {
    forall i :: 0 <= i < |s| ==> s[i] != SP
  }

  // The byte at index i of the C string of s: NUL at and after its end
  function CStringAt(s: string, i: nat): char {
    if i < |s| then s[i] else '\0'
  }

  /** `str3cmp`: compares the first three bytes only. */
  predicate Str3Cmp(p: string, q: string) {
    && CStringAt(p, 0) == CStringAt(q, 0)
    && CStringAt(p, 1) == CStringAt(q, 1)
    && CStringAt(p, 2) == CStringAt(q, 2)
  }

  /** `str4cmp`: compares the first four bytes only. */
  predicate Str4Cmp(p: string, q: string) {
    Str3Cmp(p, q) && CStringAt(p, 3) == CStringAt(q, 3)
  }

  // On NUL-free method names the two comparisons are prefix tests, so "GETAWAY" passes for "GET".
  lemma StrCmpIsPrefix(p: string, q: string)
    requires '\0' !in q
    ensures |q| == 3 ==> (Str3Cmp(p, q) <==> q <= p)
    ensures |q| == 4 ==> (Str4Cmp(p, q) <==> q <= p)
  {
    if |q| == 3 && Str3Cmp(p, q) {
      assert q[0] in q && q[1] in q && q[2] in q;
      assert p[..3] == q;
    }
    if |q| == 4 && Str4Cmp(p, q) {
      assert q[0] in q && q[1] in q && q[2] in q && q[3] in q;
      assert p[..4] == q;
    }
  }

  lemma LineEnds()
    ensures CRLF == "\r\n" && [CR] == "\r" && [LF] == "\n" && [SP] == " "
  {
  }

  // The byte before position |s| of a text that continues `before`
  function Last(before: char, s: string): char {
    if s == "" then before else s[|s| - 1]
  }
}
