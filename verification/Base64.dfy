/**
 * base64_encode and b64decode, with the shifts and masks of the source on bit-vectors.  The
 * standard alphabet is that of section 4 of RFC 4648; the decoder also maps section 5's.
 */
module Base64 {

  type byte = bv8

  const PAD: byte := 0x3D  // '='

  /** `base64_table`: A-Z, a-z, 0-9, '+', '/' */
  function Table(v: byte): byte
    requires v < 64
  {
    if v < 26 then v + 0x41
    else if v < 52 then v - 26 + 0x61
    else if v < 62 then v - 52 + 0x30
    else if v == 62 then 0x2B
    else 0x2F
  }

  /** `B64index`, irregular entries included: ',' and '_' count as '/', '-' and '.' as '+'. */
  function Index(c: byte): (v: byte)
    ensures v < 64
  {
    if 0x41 <= c <= 0x5A then c - 0x41
    else if 0x61 <= c <= 0x7A then c - 0x61 + 26
    else if 0x30 <= c <= 0x39 then c - 0x30 + 52
    else if c == 0x2B || c == 0x2D || c == 0x2E then 62
    else if c == 0x2C || c == 0x2F || c == 0x5F then 63
    else 0
  }

  // The characters that stand for zero bits
  lemma LetterA()
    ensures Index(0x41) == Index(PAD) == Index(0) == 0
  {
  }

  // Membership in the standard alphabet
  predicate Standard(c: byte) {
    0x41 <= c <= 0x5A || 0x61 <= c <= 0x7A || 0x30 <= c <= 0x39 || c == 0x2B || c == 0x2F
  }

  // The table and the index are inverse to each other on the standard alphabet.
  lemma IndexInvertsTable(v: byte)
    requires v < 64
    ensures Index(Table(v)) == v && Standard(Table(v)) && Table(v) != PAD
  {
  }

  lemma TableInvertsIndex(c: byte)
    ensures Table(Index(c)) == c <==> Standard(c)
  {
  }

  // The alphabet of section 4 of RFC 4648: A-Z, a-z and 0-9 run on, then come "+" and "/".
  lemma TableIsTheAlphabet(v: byte)
    ensures Table(0) == 0x41 && Table(26) == 0x61 && Table(52) == 0x30 && Table(62) == 0x2B && Table(63) == 0x2F
    ensures v < 63 && v != 25 && v != 51 && v != 61 && v != 62 ==> Table(v + 1) == Table(v) + 1
  {
  }

  // Outside it the decoder maps "-" and "." as "+", "_" and "," as "/", and all else to zero.
  lemma IndexOutsideTheAlphabet(c: byte)
    requires !Standard(c)
    ensures Index(c) == if c == 0x2D || c == 0x2E then 62 else if c == 0x5F || c == 0x2C then 63 else 0
  {
  }

  // Three bytes as four sextets, and back through a 32-bit number

  function Sextet1(a: byte): byte { a >> 2 }

  function Sextet2(a: byte, b: byte): byte { ((a & 0x03) << 4) | (b >> 4) }

  function Sextet3(b: byte, c: byte): byte { ((b & 0x0f) << 2) | (c >> 6) }

  function Sextet4(c: byte): byte { c & 0x3f }

  function Pack(v1: byte, v2: byte, v3: byte, v4: byte): bv32 {
    ((v1 as bv32) << 18) | ((v2 as bv32) << 12) | ((v3 as bv32) << 6) | (v4 as bv32)
  }

  // The low byte, which is what a conversion to char keeps
  function LowByte(n: bv32): byte {
    (n & 0xFF) as byte
  }

  lemma PackInvertsSextets(a: byte, b: byte, c: byte)
    ensures var n := Pack(Sextet1(a), Sextet2(a, b), Sextet3(b, c), Sextet4(c));
            LowByte(n >> 16) == a && LowByte(n >> 8) == b && LowByte(n) == c
    ensures Sextet1(a) < 64 && Sextet2(a, b) < 64 && Sextet3(b, c) < 64 && Sextet4(c) < 64
  {
  }

  // The four sextets are the 24 bits of the three bytes, from the left.
  lemma SextetsAreTheBits(a: byte, b: byte, c: byte)
    ensures ((Sextet1(a) as bv32) << 18) | ((Sextet2(a, b) as bv32) << 12) | ((Sextet3(b, c) as bv32) << 6)
          | (Sextet4(c) as bv32)
         == ((a as bv32) << 16) | ((b as bv32) << 8) | (c as bv32)
  {
  }

  lemma SextetsInvertPack(v1: byte, v2: byte, v3: byte, v4: byte)
    requires v1 < 64 && v2 < 64 && v3 < 64 && v4 < 64
    ensures var n := Pack(v1, v2, v3, v4);
            var a, b, c := LowByte(n >> 16), LowByte(n >> 8), LowByte(n);
            Sextet1(a) == v1 && Sextet2(a, b) == v2 && Sextet3(b, c) == v3 && Sextet4(c) == v4
  {
  }

  // Encoding

  function Quartet(a: byte, b: byte, c: byte): (q: seq<byte>)
    ensures |q| == 4
  {
    PackInvertsSextets(a, b, c);
    [Table(Sextet1(a)), Table(Sextet2(a, b)), Table(Sextet3(b, c)), Table(Sextet4(c))]
  }

  function Encode(x: seq<byte>): seq<byte> {
    if |x| == 0 then []
    else if |x| == 1 then Quartet(x[0], 0, 0)[..2] + [PAD, PAD]
    else if |x| == 2 then Quartet(x[0], x[1], 0)[..3] + [PAD]
    else Quartet(x[0], x[1], x[2]) + Encode(x[3..])
  }

  lemma {:induction false} EncodeLength(x: seq<byte>)
    ensures |Encode(x)| == 4 * ((|x| + 2) / 3)
  {
    hide Triple, Quartet;
    if |x| >= 3 {
      EncodeLength(x[3..]);
    }
  }

  // The byte at index i, zero bits after the end
  function ByteOrZero(x: seq<byte>, i: nat): byte {
    if i < |x| then x[i] else 0
  }

  // The q-th quartet of an encoding
  function QuartetAt(x: seq<byte>, q: nat): seq<byte> {
    var i := 3 * q;
    var full := Quartet(ByteOrZero(x, i), ByteOrZero(x, i + 1), ByteOrZero(x, i + 2));
    [full[0], full[1], if i + 1 < |x| then full[2] else 0x3D, if i + 2 < |x| then full[3] else 0x3D]
  }

  lemma QuartetAtShift(x: seq<byte>, q: nat)
    requires |x| >= 3
    ensures QuartetAt(x[3..], q) == QuartetAt(x, q + 1)
  {
    hide Quartet;
    var i := 3 * q;
    assert ByteOrZero(x[3..], i) == ByteOrZero(x, i + 3);
    assert ByteOrZero(x[3..], i + 1) == ByteOrZero(x, i + 4);
    assert ByteOrZero(x[3..], i + 2) == ByteOrZero(x, i + 5);
  }

  lemma FirstQuartet(x: seq<byte>)
    requires x != []
    ensures |Encode(x)| >= 4 && Encode(x)[..4] == QuartetAt(x, 0)
  {
    hide Quartet;
  }

  lemma {:induction false} EncodedQuartet(x: seq<byte>, q: nat)
    requires 3 * q < |x|
    ensures 4 * q + 4 <= |Encode(x)| && Encode(x)[4 * q..4 * q + 4] == QuartetAt(x, q)
    decreases q
  {
    hide Quartet, QuartetAt;
    if q == 0 {
      FirstQuartet(x);
    } else {
      EncodedQuartet(x[3..], q - 1);
      QuartetAtShift(x, q - 1);
      EncodeStep(x);
      hide Encode;
      var front, rest := Quartet(x[0], x[1], x[2]), Encode(x[3..]);
      assert (front + rest)[4 * q..4 * q + 4] == rest[4 * (q - 1)..4 * (q - 1) + 4];
    }
  }

  /**
   * Every character of an encoding: the k-th is the k-th sextet of the bytes, followed by zero
   * bits, or "=" where not even the first bit of that sextet is in the bytes.
   */
  lemma EncodedCharacter(x: seq<byte>, k: nat)
    requires k < |Encode(x)|
    ensures var i := k / 4 * 3;
            var a, b, c := ByteOrZero(x, i), ByteOrZero(x, i + 1), ByteOrZero(x, i + 2);
            Encode(x)[k] ==
            if k % 4 == 0 then Table(Sextet1(a))
            else if k % 4 == 1 then Table(Sextet2(a, b))
            else if k % 4 == 2 then (if i + 1 < |x| then Table(Sextet3(b, c)) else 0x3D)
            else (if i + 2 < |x| then Table(Sextet4(c)) else 0x3D)
  {
    hide Table, Sextet1, Sextet2, Sextet3, Sextet4, Encode;
    var q, r := k / 4, k % 4;
    EncodeLength(x);
    EncodedQuartet(x, q);
    assert Encode(x)[k] == Encode(x)[4 * q..4 * q + 4][r];
  }

  // Writing four characters
  method PutFour(out: array<byte>, pos: nat, c1: byte, c2: byte, c3: byte, c4: byte)
    requires pos + 4 <= out.Length
    modifies out
    ensures out[..pos + 4] == old(out[..pos]) + [c1, c2, c3, c4]
  {
    out[pos] := c1;
    out[pos + 1] := c2;
    out[pos + 2] := c3;
    out[pos + 3] := c4;
  }

  // The four characters written for a block of three bytes
  method PutBlock(out: array<byte>, pos: nat, a: byte, b: byte, c: byte)
    requires pos + 4 <= out.Length
    modifies out
    ensures out[..pos + 4] == old(out[..pos]) + Quartet(a, b, c)
  {
    PackInvertsSextets(a, b, c);
    PutFour(out, pos, Table(a >> 2), Table(((a & 0x03) << 4) | (b >> 4)),
            Table(((b & 0x0f) << 2) | (c >> 6)), Table(c & 0x3f));
  }

  lemma EncodeOne(a: byte)
    ensures a >> 2 < 64 && (a & 0x03) << 4 < 64
    ensures Encode([a]) == [Table(a >> 2), Table((a & 0x03) << 4), PAD, PAD]
  {
    PackInvertsSextets(a, 0, 0);
    LowBitsOfSextets(a);
  }

  lemma EncodeTwo(a: byte, b: byte)
    ensures a >> 2 < 64 && ((a & 0x03) << 4) | (b >> 4) < 64 && (b & 0x0f) << 2 < 64
    ensures Encode([a, b]) == [Table(a >> 2), Table(((a & 0x03) << 4) | (b >> 4)), Table((b & 0x0f) << 2), PAD]
  {
    PackInvertsSextets(a, b, 0);
    LowBitsOfSextets(b);
  }

  // The four characters written for the last byte, and for the last two
  method PutOne(out: array<byte>, pos: nat, a: byte)
    requires pos + 4 == out.Length
    modifies out
    ensures out[..] == old(out[..pos]) + Encode([a])
  {
    hide Table, Encode;
    EncodeOne(a);
    PutFour(out, pos, Table(a >> 2), Table((a & 0x03) << 4), PAD, PAD);
    assert out[..] == out[..pos + 4];
  }

  method PutTwo(out: array<byte>, pos: nat, a: byte, b: byte)
    requires pos + 4 == out.Length
    modifies out
    ensures out[..] == old(out[..pos]) + Encode([a, b])
  {
    hide Table, Encode;
    EncodeTwo(a, b);
    PutFour(out, pos, Table(a >> 2), Table(((a & 0x03) << 4) | (b >> 4)), Table((b & 0x0f) << 2), PAD);
    assert out[..] == out[..pos + 4];
  }

  lemma EncodeStep(x: seq<byte>)
    ensures |x| >= 3 ==> Encode(x) == Quartet(x[0], x[1], x[2]) + Encode(x[3..])
    ensures 0 < |x| < 3 ==> |Encode(x)| == 4
    ensures |x| == 0 ==> Encode(x) == []
  {
    hide Quartet;
  }

  /** `base64_encode` */
  method Base64Encode(src: array<byte>) returns (out: array<byte>)
    ensures fresh(out) && out[..] == Encode(src[..])
  {
    hide Quartet, Encode;
    EncodeLength(src[..]);
    var olen := 4 * ((src.Length + 2) / 3);
    out := new byte[olen];
    var i, pos := 0, 0;
    while src.Length - i >= 3
      invariant 0 <= i <= src.Length && 0 <= pos <= olen
      invariant src[..] == old(src[..])
      invariant pos + |Encode(src[i..])| == olen
      invariant out[..pos] + Encode(src[i..]) == Encode(src[..])
    {
      EncodeStep(src[i..]);
      PutBlock(out, pos, src[i], src[i + 1], src[i + 2]);
      assert src[i..][3..] == src[i + 3..];
      pos, i := pos + 4, i + 3;
    }
    EncodeStep(src[i..]);
    if src.Length - i == 1 {
      assert src[i..] == [src[i]];
      PutOne(out, pos, src[i]);
    } else if src.Length - i == 2 {
      assert src[i..] == [src[i], src[i + 1]];
      PutTwo(out, pos, src[i], src[i + 1]);
    } else {
      assert out[..pos] == out[..];
    }
  }

  // Decoding

  // The byte at index i; the data is followed by a NUL, which is read when |p| % 4 == 1
  function At(p: seq<byte>, i: nat): byte {
    if i < |p| then p[i] else 0
  }

  predicate Padded(p: seq<byte>) {
    |p| > 0 && (|p| % 4 != 0 || p[|p| - 1] == PAD)
  }

  // The part decoded in whole quartets
  function BodyLength(p: seq<byte>): (l: nat)
    ensures l % 4 == 0 && (if Padded(p) then l < |p| <= l + 4 else l == |p|)
  {
    4 * ((|p| + 3) / 4 - if Padded(p) then 1 else 0)
  }

  function Triple(w: byte, x: byte, y: byte, z: byte): (t: seq<byte>)
    ensures |t| == 3
  {
    var n := Pack(Index(w), Index(x), Index(y), Index(z));
    [LowByte(n >> 16), LowByte(n >> 8), LowByte(n)]
  }

  function Triples(p: seq<byte>): (r: seq<byte>)
    requires |p| % 4 == 0
    ensures |r| == |p| / 4 * 3
  {
    if p == [] then [] else Triple(p[0], p[1], p[2], p[3]) + Triples(p[4..])
  }

  function Tail(p: seq<byte>, l: nat): seq<byte> {
    var t := Triple(At(p, l), At(p, l + 1), At(p, l + 2), 0x41);
    if |p| > l + 2 && p[l + 2] != PAD then t[..2] else t[..1]
  }

  function Decode(p: seq<byte>): seq<byte> {
    Triples(p[..BodyLength(p)]) + if Padded(p) then Tail(p, BodyLength(p)) else []
  }

  // Each byte of a triple is made of the last bits of one sextet and the first of the next.
  lemma TripleBits(w: byte, x: byte, y: byte, z: byte)
    ensures var t := Triple(w, x, y, z);
            && t[0] == (Index(w) << 2) | (Index(x) >> 4)
            && t[1] == (Index(x) << 4) | (Index(y) >> 2)
            && t[2] == (Index(y) << 6) | Index(z)
  {
    hide Index;
    PackBits(Index(w), Index(x), Index(y), Index(z));
  }

  lemma PackBits(v1: byte, v2: byte, v3: byte, v4: byte)
    requires v1 < 64 && v2 < 64 && v3 < 64 && v4 < 64
    ensures var n := Pack(v1, v2, v3, v4);
            && LowByte(n >> 16) == (v1 << 2) | (v2 >> 4)
            && LowByte(n >> 8) == (v2 << 4) | (v3 >> 2)
            && LowByte(n) == (v3 << 6) | v4
  {
  }

  // The first byte of a triple depends on two characters only, the second on three.
  lemma TripleBytes(w: byte, x: byte, y: byte, z: byte)
    ensures Triple(w, x, y, z)[0] == LowByte((((Index(w) as bv32) << 18) | ((Index(x) as bv32) << 12)) >> 16)
    ensures Triple(w, x, y, z)[1]
         == LowByte((((Index(w) as bv32) << 18) | ((Index(x) as bv32) << 12) | ((Index(y) as bv32) << 6)) >> 8)
  {
    hide Index;
    ShiftedPack(Index(w), Index(x), Index(y), Index(z));
  }

  lemma ShiftedPack(v1: byte, v2: byte, v3: byte, v4: byte)
    requires v1 < 64 && v2 < 64 && v3 < 64 && v4 < 64
    ensures LowByte(Pack(v1, v2, v3, v4) >> 16) == LowByte((((v1 as bv32) << 18) | ((v2 as bv32) << 12)) >> 16)
    ensures LowByte(Pack(v1, v2, v3, v4) >> 8)
         == LowByte((((v1 as bv32) << 18) | ((v2 as bv32) << 12) | ((v3 as bv32) << 6)) >> 8)
  {
  }

  lemma {:induction false} TriplesSnoc(p: seq<byte>, q: seq<byte>)
    requires |p| % 4 == 0 && |q| == 4
    ensures Triples(p + q) == Triples(p) + Triple(q[0], q[1], q[2], q[3])
  {
    hide Triple, Quartet;
    if p == [] {
      assert p + q == q && q[4..] == [];
    } else {
      TriplesSnoc(p[4..], q);
      assert (p + q)[4..] == p[4..] + q;
    }
  }

  method PutThree(str: seq<byte>, j: nat, a: byte, b: byte, c: byte) returns (r: seq<byte>)
    requires j + 3 <= |str|
    ensures r == str[..j] + [a, b, c] + str[j + 3..]
  {
    r := str[j := a];
    r := r[j + 1 := b];
    r := r[j + 2 := c];
  }

  // The three bytes written for a quartet
  method PutTriple(str: seq<byte>, j: nat, w: byte, x: byte, y: byte, z: byte) returns (r: seq<byte>)
    requires j + 3 <= |str|
    ensures r == str[..j] + Triple(w, x, y, z) + str[j + 3..]
  {
    hide Index;
    var n := ((Index(w) as bv32) << 18) | ((Index(x) as bv32) << 12) | ((Index(y) as bv32) << 6) | (Index(z) as bv32);
    r := PutThree(str, j, LowByte(n >> 16), LowByte(n >> 8), LowByte(n));
  }

  // The pass of the loop that decodes the quartet at index i
  method PutQuartet(str: seq<byte>, j: nat, p: seq<byte>, i: nat) returns (r: seq<byte>)
    requires i % 4 == 0 && i + 4 <= |p| && j + 3 <= |str| && str[..j] == Triples(p[..i])
    ensures |r| == |str| && r[..j + 3] == Triples(p[..i + 4])
  {
    hide Triple;
    r := PutTriple(str, j, p[i], p[i + 1], p[i + 2], p[i + 3]);
    TriplesSnoc(p[..i], p[i..i + 4]);
    assert p[..i + 4] == p[..i] + p[i..i + 4];
  }

  // The one or two bytes written for a padded or incomplete quartet
  method PutDecodedTail(str: seq<byte>, p: seq<byte>, l: nat) returns (r: seq<byte>)
    requires |str| > 0 && l < |p|
    ensures r == str[..|str| - 1] + Tail(p, l)
  {
    hide Index;
    TripleBytes(At(p, l), At(p, l + 1), At(p, l + 2), 0x41);
    var n := ((Index(p[l]) as bv32) << 18) | ((Index(At(p, l + 1)) as bv32) << 12);
    hide Triple;
    r := str[|str| - 1 := LowByte(n >> 16)];
    if |p| > l + 2 && p[l + 2] != PAD {
      n := n | ((Index(p[l + 2]) as bv32) << 6);
      r := r + [LowByte(n >> 8)];
    }
  }

  /** `b64decode`; the bytes of p are followed by a NUL. */
  method B64Decode(p: seq<byte>) returns (str: seq<byte>)
    ensures str == Decode(p)
  {
    hide Triple, Triples, Tail;
    var len := |p|;
    var pad := if len > 0 && (len % 4 != 0 || p[len - 1] == PAD) then 1 else 0;
    var l := ((len + 3) / 4 - pad) * 4;
    assert l == BodyLength(p);
    str := seq(l / 4 * 3 + pad, _ => 0);
    var i, j := 0, 0;
    while i < l
      invariant 0 <= i <= l && i % 4 == 0 && 4 * j == 3 * i && 4 * |str| == 3 * l + 4 * pad
      invariant str[..j] == Triples(p[..i])
    {
      str := PutQuartet(str, j, p, i);
      i, j := i + 4, j + 3;
    }
    if pad == 1 {
      str := PutDecodedTail(str, p, l);
    } else {
      assert str == str[..j];
    }
  }

  // How many bytes a text gives: three for each quartet, one or two for the rest
  function DecodedLength(p: seq<byte>): nat {
    var quartets := (|p| + 3) / 4;
    if |p| % 4 == 0 && (p == [] || p[|p| - 1] != 0x3D) then 3 * quartets
    else if |p| % 4 == 1 || |p| % 4 == 2 then 3 * quartets - 2
    else if p[4 * quartets - 2] != 0x3D then 3 * quartets - 1
    else 3 * quartets - 2
  }

  lemma {:induction false} TriplesAt(p: seq<byte>, q: nat, r: nat)
    requires |p| % 4 == 0 && 4 * q < |p| && r < 3
    ensures 4 * q + 3 < |p| && 3 * q + r < |Triples(p)|
    ensures Triples(p)[3 * q + r] == Triple(p[4 * q], p[4 * q + 1], p[4 * q + 2], p[4 * q + 3])[r]
    decreases q
  {
    hide Triple;
    if q > 0 {
      var rest := p[4..];
      TriplesAt(rest, q - 1, r);
      assert Triples(p)[3 * q + r] == Triples(rest)[3 * (q - 1) + r];
      assert rest[4 * (q - 1)] == p[4 * q] && rest[4 * (q - 1) + 1] == p[4 * q + 1];
      assert rest[4 * (q - 1) + 2] == p[4 * q + 2] && rest[4 * (q - 1) + 3] == p[4 * q + 3];
    }
  }

  lemma DecodeLength(p: seq<byte>)
    ensures |Decode(p)| == DecodedLength(p)
  {
    hide Triple, Triples;
    var l := BodyLength(p);
    assert |Triples(p[..l])| == l / 4 * 3;
  }

  /**
   * Every byte of a decoding, for every text whatever its characters: the k-th byte is bits 8k to
   * 8k + 7 of the indices, six bits each, of the characters.
   */
  lemma DecodedByte(p: seq<byte>, k: nat)
    requires k < |Decode(p)|
    ensures var i := k / 3 * 4;
            var w, x, y, z := Index(At(p, i)), Index(At(p, i + 1)), Index(At(p, i + 2)), Index(At(p, i + 3));
            Decode(p)[k] ==
            if k % 3 == 0 then (w << 2) | (x >> 4)
            else if k % 3 == 1 then (x << 4) | (y >> 2)
            else (y << 6) | z
  {
    hide Triple, Index, Triples, Decode;
    DecodedParts(p, k / 3, k % 3);
    var i := k / 3 * 4;
    TripleBits(At(p, i), At(p, i + 1), At(p, i + 2), At(p, i + 3));
    TripleBits(At(p, i), At(p, i + 1), At(p, i + 2), 0x41);
  }

  // Byte r of the q-th three comes from the q-th quartet, whose last place may be empty.
  lemma DecodedParts(p: seq<byte>, q: nat, r: nat)
    requires r < 3 && 3 * q + r < |Decode(p)|
    ensures var i := 4 * q;
            var t := Triple(At(p, i), At(p, i + 1), At(p, i + 2), At(p, i + 3));
            var short := Triple(At(p, i), At(p, i + 1), At(p, i + 2), 0x41);
            Decode(p)[3 * q + r] == t[r] || (r < 2 && Decode(p)[3 * q + r] == short[r])
  {
    hide Triple, Index, Triples;
    var l := BodyLength(p);
    assert |Triples(p[..l])| == l / 4 * 3;
    if 4 * q < l {
      TriplesAt(p[..l], q, r);
    } else {
      assert 4 * q == l;
    }
  }

  // The examples of section 10 of RFC 4648, from "f" to "foobar"
  lemma Examples()
    ensures Encode([0x66]) == [0x5A, 0x67, 0x3D, 0x3D]
    ensures Encode([0x66, 0x6F]) == [0x5A, 0x6D, 0x38, 0x3D]
    ensures Encode([0x66, 0x6F, 0x6F]) == [0x5A, 0x6D, 0x39, 0x76]
    ensures Encode([0x66, 0x6F, 0x6F, 0x62, 0x61, 0x72]) == [0x5A, 0x6D, 0x39, 0x76, 0x59, 0x6D, 0x46, 0x79]
  {
    assert [0x66, 0x6F, 0x6F, 0x62, 0x61, 0x72 as byte][3..] == [0x62, 0x61, 0x72];
  }

  // Main results

  lemma TailShift(q: seq<byte>, p: seq<byte>, l: nat)
    requires |q| == 4
    ensures Tail(q + p, l + 4) == Tail(p, l)
  {
    hide Triple;
    assert At(q + p, l + 4) == At(p, l);
    assert At(q + p, l + 5) == At(p, l + 1);
    assert At(q + p, l + 6) == At(p, l + 2);
  }

  lemma DecodeCons(q: seq<byte>, p: seq<byte>)
    requires |q| == 4 && (p != [] || q[3] != PAD)
    ensures Decode(q + p) == Triple(q[0], q[1], q[2], q[3]) + Decode(p)
  {
    hide Triple, Tail, Index, At;
    var l := BodyLength(p);
    assert Padded(q + p) <==> Padded(p);
    assert BodyLength(q + p) == l + 4;
    assert (q + p)[..l + 4] == q + p[..l];
    assert (q + p[..l])[4..] == p[..l];
    TailShift(q, p, l);
  }

  lemma QuartetTriple(a: byte, b: byte, c: byte)
    ensures var q := Quartet(a, b, c); Triple(q[0], q[1], q[2], q[3]) == [a, b, c] && q[3] != PAD && q[2] != PAD
  {
    PackInvertsSextets(a, b, c);
    IndexInvertsTable(Sextet1(a));
    IndexInvertsTable(Sextet2(a, b));
    IndexInvertsTable(Sextet3(b, c));
    IndexInvertsTable(Sextet4(c));
  }

  // The first two or three characters of a quartet already determine one or two bytes.
  lemma ShortTriple(w: byte, x: byte, y: byte, y': byte, z: byte, z': byte)
    ensures Triple(w, x, y, z)[..1] == Triple(w, x, y', z')[..1]
    ensures Triple(w, x, y, z)[..2] == Triple(w, x, y, z')[..2]
  {
    TripleBytes(w, x, y, z);
    TripleBytes(w, x, y', z');
    TripleBytes(w, x, y, z');
  }

  lemma OneRoundTrip(a: byte)
    ensures Decode(Encode([a])) == [a]
  {
    hide Triple, Quartet, Index;
    var e, q := Encode([a]), Quartet(a, 0, 0);
    QuartetTriple(a, 0, 0);
    ShortTriple(q[0], q[1], q[2], PAD, q[3], 0x41);
    assert e[..0] == [];
  }

  lemma TwoRoundTrip(a: byte, b: byte)
    ensures Decode(Encode([a, b])) == [a, b]
  {
    hide Triple, Quartet, Index;
    var e, q := Encode([a, b]), Quartet(a, b, 0);
    QuartetTriple(a, b, 0);
    ShortTriple(q[0], q[1], q[2], q[2], q[3], 0x41);
    assert e[..0] == [];
  }

  /** Decoding inverts encoding, for every byte sequence. */
  lemma {:induction false} DecodeInvertsEncode(x: seq<byte>)
    ensures Decode(Encode(x)) == x
  {
    hide Triple, Quartet, Index;
    if |x| == 0 {
    } else if |x| == 1 {
      assert x == [x[0]];
      OneRoundTrip(x[0]);
    } else if |x| == 2 {
      assert x == [x[0], x[1]];
      TwoRoundTrip(x[0], x[1]);
    } else {
      hide Decode;
      DecodeInvertsEncode(x[3..]);
      QuartetTriple(x[0], x[1], x[2]);
      DecodeCons(Quartet(x[0], x[1], x[2]), Encode(x[3..]));
      assert x == [x[0], x[1], x[2]] + x[3..];
    }
  }

  // The shape of encoded text

  // The four characters of a final, possibly padded quartet whose unused bits are zero
  predicate FinalQuartet(q: seq<byte>)
    requires |q| == 4
  {
    Standard(q[0]) && Standard(q[1]) &&
    if q[2] == PAD then q[3] == PAD && Index(q[1]) & 0x0f == 0
    else Standard(q[2]) && if q[3] == PAD then Index(q[2]) & 0x03 == 0 else Standard(q[3])
  }

  predicate Canonical(s: seq<byte>) {
    && |s| % 4 == 0
    && (forall i :: 0 <= i < |s| - 4 ==> Standard(s[i]))
    && (s != [] ==> FinalQuartet(s[|s| - 4..]))
  }

  lemma LowBitsOfSextets(a: byte)
    ensures Sextet2(a, 0) == (a & 0x03) << 4 && Sextet3(a, 0) == (a & 0x0f) << 2
    ensures Sextet2(a, 0) & 0x0f == 0 && Sextet3(a, 0) & 0x03 == 0
  {
  }

  lemma QuartetIsStandard(a: byte, b: byte, c: byte)
    ensures forall i :: 0 <= i < 4 ==> Standard(Quartet(a, b, c)[i]) && Quartet(a, b, c)[i] != PAD
    ensures Index(Quartet(a, b, c)[1]) == Sextet2(a, b) && Index(Quartet(a, b, c)[2]) == Sextet3(b, c)
  {
    PackInvertsSextets(a, b, c);
    IndexInvertsTable(Sextet1(a));
    IndexInvertsTable(Sextet2(a, b));
    IndexInvertsTable(Sextet3(b, c));
    IndexInvertsTable(Sextet4(c));
  }

  lemma ShortEncodingIsCanonical(x: seq<byte>)
    requires 1 <= |x| <= 3
    ensures |Encode(x)| == 4 && FinalQuartet(Encode(x))
  {
    hide Quartet, Index, Standard, Sextet2, Sextet3;
    var b, c := if |x| > 1 then x[1] else 0, if |x| > 2 then x[2] else 0;
    QuartetIsStandard(x[0], b, c);
    LowBitsOfSextets(x[0]);
    LowBitsOfSextets(b);
  }

  lemma CanonicalCons(q: seq<byte>, rest: seq<byte>)
    requires |q| == 4 && forall i :: 0 <= i < 4 ==> Standard(q[i])
    requires Canonical(rest) && rest != []
    ensures Canonical(q + rest)
  {
    hide FinalQuartet, Standard;
    assert (q + rest)[|q + rest| - 4..] == rest[|rest| - 4..];
  }

  lemma {:induction false} EncodeIsCanonical(x: seq<byte>)
    ensures Canonical(Encode(x))
  {
    hide Quartet, FinalQuartet, Standard;
    if 1 <= |x| <= 3 {
      ShortEncodingIsCanonical(x);
      assert Encode(x)[0..] == Encode(x);
    } else if |x| > 3 {
      hide Canonical;
      QuartetIsStandard(x[0], x[1], x[2]);
      EncodeIsCanonical(x[3..]);
      EncodeLength(x[3..]);
      CanonicalCons(Quartet(x[0], x[1], x[2]), Encode(x[3..]));
    }
  }

  // "=" stands in the last two places only, as the length modulo 3 requires.
  lemma PaddingPlaces(x: seq<byte>)
    ensures var e := Encode(x);
            forall i :: 0 <= i < |e| ==>
              (e[i] == PAD <==> (|x| % 3 == 1 && i >= |e| - 2) || (|x| % 3 == 2 && i == |e| - 1))
  {
    hide Encode;
    forall i: nat | i < |Encode(x)|
      ensures Encode(x)[i] == PAD
         <==> (|x| % 3 == 1 && i >= |Encode(x)| - 2) || (|x| % 3 == 2 && i == |Encode(x)| - 1)
    {
      PaddingAt(x, i / 4, i % 4);
    }
  }

  lemma PaddingAt(x: seq<byte>, q: nat, r: nat)
    requires r < 4 && 4 * q + r < |Encode(x)|
    ensures var i, n := 4 * q + r, |Encode(x)|;
            Encode(x)[i] == PAD <==> (|x| % 3 == 1 && i >= n - 2) || (|x| % 3 == 2 && i == n - 1)
  {
    hide Encode, Quartet, Standard, Index;
    EncodeLength(x);
    EncodedQuartet(x, q);
    var a, b, c := ByteOrZero(x, 3 * q), ByteOrZero(x, 3 * q + 1), ByteOrZero(x, 3 * q + 2);
    QuartetIsStandard(a, b, c);
    assert Encode(x)[4 * q + r] == QuartetAt(x, q)[r];
    hide ByteOrZero;
  }

  lemma TripleQuartet(w: byte, x: byte, y: byte, z: byte)
    requires Standard(w) && Standard(x) && Standard(y) && Standard(z)
    ensures var t := Triple(w, x, y, z); Quartet(t[0], t[1], t[2]) == [w, x, y, z]
  {
    SextetsInvertPack(Index(w), Index(x), Index(y), Index(z));
    TableInvertsIndex(w);
    TableInvertsIndex(x);
    TableInvertsIndex(y);
    TableInvertsIndex(z);
  }

  lemma PackWithZeroBits(v1: byte, v2: byte, v3: byte)
    requires v1 < 64 && v2 < 64 && v3 < 64
    ensures v2 & 0x0f == 0 ==> LowByte(Pack(v1, v2, 0, 0) >> 8) == 0
    ensures v3 & 0x03 == 0 ==> LowByte(Pack(v1, v2, v3, 0)) == 0
    ensures LowByte(Pack(v1, v2, 0, 0)) == 0
  {
  }

  lemma TripleZeroBits(w: byte, x: byte, y: byte)
    ensures Index(x) & 0x0f == 0 ==> Triple(w, x, 0x41, 0x41)[1] == 0
    ensures Index(y) & 0x03 == 0 ==> Triple(w, x, y, 0x41)[2] == 0
    ensures Triple(w, x, 0x41, 0x41)[2] == 0
  {
    LetterA();
    PackWithZeroBits(Index(w), Index(x), Index(y));
  }

  lemma FinalQuartetRoundTrip(q: seq<byte>)
    requires |q| == 4 && FinalQuartet(q)
    ensures Encode(Decode(q)) == q
  {
    hide Triple, Quartet;
    var A: byte := 0x41;
    LetterA();
    if q[2] == PAD {
      TripleZeroBits(q[0], q[1], A);
      TripleQuartet(q[0], q[1], A, A);
      ShortTriple(q[0], q[1], PAD, A, A, A);
      assert q[..0] == [] && Decode(q) == Triple(q[0], q[1], A, A)[..1];
    } else if q[3] == PAD {
      TripleZeroBits(q[0], q[1], q[2]);
      TripleQuartet(q[0], q[1], q[2], A);
      assert q[..0] == [] && Decode(q) == Triple(q[0], q[1], q[2], A)[..2];
    } else {
      TripleQuartet(q[0], q[1], q[2], q[3]);
      assert q[..4] == q && q[4..] == [];
      assert Decode(q) == Triple(q[0], q[1], q[2], q[3]);
    }
  }

  lemma {:induction false} EncodeInvertsDecodeCanonical(s: seq<byte>)
    requires Canonical(s)
    ensures Encode(Decode(s)) == s
  {
    hide Triple, Quartet, FinalQuartet, Index, Tail;
    if s == [] {
    } else if |s| == 4 {
      assert s[0..] == s;
      FinalQuartetRoundTrip(s);
    } else {
      var q, rest := s[..4], s[4..];
      assert s == q + rest;
      assert rest[|rest| - 4..] == s[|s| - 4..];
      EncodeInvertsDecodeCanonical(rest);
      DecodeCons(q, rest);
      TripleQuartet(q[0], q[1], q[2], q[3]);
      var t := Triple(q[0], q[1], q[2], q[3]);
      assert (t + Decode(rest))[3..] == Decode(rest);
      assert Encode(t + Decode(rest)) == Quartet(t[0], t[1], t[2]) + Encode(Decode(rest));
    }
  }

  /** Encoding inverts decoding exactly on the canonical texts, which are the encoded ones. */
  lemma EncodeInvertsDecode(s: seq<byte>)
    ensures Encode(Decode(s)) == s <==> Canonical(s)
  {
    hide Triple, Quartet;
    if Canonical(s) {
      EncodeInvertsDecodeCanonical(s);
    } else {
      EncodeIsCanonical(Decode(s));
    }
  }

  // Tolerance

  lemma PaddedTail(t: seq<byte>, s: seq<byte>, l: nat)
    requires l < |t| < |s| == l + 4 && t == s[..|t|]
    requires forall i :: |t| <= i < |s| ==> s[i] == PAD
    ensures Tail(s, l) == Tail(t, l)
  {
    hide Triple, Index;
    LetterA();
    TripleAlike(At(s, l), At(s, l + 1), At(s, l + 2), 0x41, At(t, l), At(t, l + 1), At(s, l + 2), 0x41);
    ShortTriple(At(t, l), At(t, l + 1), At(s, l + 2), At(t, l + 2), 0x41, 0x41);
  }

  // Removing the padding of a last quartet changes nothing, whatever the text.
  lemma PaddingIsOptional(t: seq<byte>, s: seq<byte>)
    requires |s| % 4 == 0 && |s| - 4 < |t| < |s| && t == s[..|t|]
    requires forall i :: |t| <= i < |s| ==> s[i] == PAD
    ensures Decode(t) == Decode(s)
  {
    hide Tail, Triple;
    var l := |s| - 4;
    assert BodyLength(t) == l == BodyLength(s) && s[..l] == t[..l];
    if t != [] {
      PaddedTail(t, s, l);
    }
  }

  // Only the indices of the characters and the places of "=" matter.
  predicate Alike(s: seq<byte>, t: seq<byte>) {
    |s| == |t| && forall i :: 0 <= i < |s| ==> Index(s[i]) == Index(t[i]) && (s[i] == PAD <==> t[i] == PAD)
  }

  lemma TripleAlike(w: byte, x: byte, y: byte, z: byte, w': byte, x': byte, y': byte, z': byte)
    requires Index(w) == Index(w') && Index(x) == Index(x') && Index(y) == Index(y') && Index(z) == Index(z')
    ensures Triple(w, x, y, z) == Triple(w', x', y', z')
  {
    hide Index;
  }

  lemma {:induction false} TriplesAlike(s: seq<byte>, t: seq<byte>)
    requires |s| % 4 == 0 && Alike(s, t)
    ensures Triples(s) == Triples(t)
  {
    hide Triple, Quartet;
    if s != [] {
      TriplesAlike(s[4..], t[4..]);
      TripleAlike(s[0], s[1], s[2], s[3], t[0], t[1], t[2], t[3]);
    }
  }

  lemma TailsAlike(s: seq<byte>, t: seq<byte>, l: nat)
    requires Alike(s, t)
    ensures Tail(s, l) == Tail(t, l)
  {
    hide Triple, Index;
    TripleAlike(At(s, l), At(s, l + 1), At(s, l + 2), 0x41, At(t, l), At(t, l + 1), At(t, l + 2), 0x41);
  }

  lemma AlikeDecodeAlike(s: seq<byte>, t: seq<byte>)
    requires Alike(s, t)
    ensures Decode(s) == Decode(t)
  {
    hide Triple, Tail, Index;
    var l := BodyLength(s);
    assert Padded(s) <==> Padded(t);
    TriplesAlike(s[..l], t[..l]);
    TailsAlike(s, t, l);
  }

  // The alphabet of section 5 of RFC 4648: '-' for '+' and '_' for '/'
  function UrlSafe(c: byte): byte {
    if c == 0x2B then 0x2D else if c == 0x2F then 0x5F else c
  }

  function UrlSafeText(s: seq<byte>): (t: seq<byte>)
    ensures |t| == |s| && forall i :: 0 <= i < |s| ==> t[i] == UrlSafe(s[i])
  {
    if s == [] then [] else [UrlSafe(s[0])] + UrlSafeText(s[1..])
  }

  /** The decoder gives the same bytes for both alphabets. */
  lemma DecodesBothAlphabets(x: seq<byte>)
    ensures Decode(UrlSafeText(Encode(x))) == x
  {
    hide Triple, Quartet;
    DecodeInvertsEncode(x);
    UrlSafeIsAlike(Encode(x));
    AlikeDecodeAlike(Encode(x), UrlSafeText(Encode(x)));
  }

  lemma UrlSafeIsAlike(s: seq<byte>)
    ensures Alike(s, UrlSafeText(s))
  {
    forall i | 0 <= i < |s|
      ensures Index(s[i]) == Index(UrlSafe(s[i])) && (s[i] == PAD <==> UrlSafe(s[i]) == PAD)
    {
      UrlSafeIndex(s[i]);
    }
  }

  lemma UrlSafeIndex(c: byte)
    ensures Index(UrlSafe(c)) == Index(c) && (UrlSafe(c) == PAD <==> c == PAD)
  {
  }

  /** The decoder gives the same bytes without the padding. */
  lemma DecodesUnpadded(x: seq<byte>)
    requires |x| % 3 != 0
    ensures |Encode(x)| >= 4 && Decode(Encode(x)[..|Encode(x)| - 3 + |x| % 3]) == x
  {
    hide Encode, Decode;
    var e := Encode(x);
    DecodeInvertsEncode(x);
    EncodeLength(x);
    PaddingPlaces(x);
    PaddingIsOptional(e[..|e| - 3 + |x| % 3], e);
  }
}
