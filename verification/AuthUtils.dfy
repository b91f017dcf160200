/** Base64 and HTTP Basic credentials of src/auth_utils.c (lines 107-259). Shifts and masks of the
    24-bit groups are written as multiplication, division and remainder by powers of two. */
module AuthUtils {
  import opened Common

  const UPPER: string := "ABCDEFGHIJKLM" + "NOPQRSTUVWXYZ"
  const LOWER: string := "abcdefghijklm" + "nopqrstuvwxyz"
  const DIGITS: string := "0123456789+/"
  const BASE64_CHARS: string := UPPER + LOWER + DIGITS

  // ---- Specification of the codec ----

  function Char64(sextet: nat): char
    requires sextet < 64
  {
    BASE64_CHARS[sextet]
  }

  /** Three octets as one 24-bit group, and back: `triple >> 16`, `>> 8` and `>> 0`, masked with 255. */
  function Triple(a: int, b: int, c: int): int {
    a * 65536 + b * 256 + c
  }

  function Octet0(triple: int): byte {
    triple / 65536 % 256
  }

  function Octet1(triple: int): byte {
    triple / 256 % 256
  }

  function Octet2(triple: int): byte {
    triple % 256
  }

  /** Four sextets as one 24-bit group, and back: `triple >> 18`, `>> 12`, `>> 6`, `>> 0`, masked with 63. */
  function Quadruple(a: int, b: int, c: int, d: int): int {
    a * 262144 + b * 4096 + c * 64 + d
  }

  function Sextet0(triple: int): (r: int)
    ensures 0 <= r < 64
  {
    triple / 262144 % 64
  }

  function Sextet1(triple: int): (r: int)
    ensures 0 <= r < 64
  {
    triple / 4096 % 64
  }

  function Sextet2(triple: int): (r: int)
    ensures 0 <= r < 64
  {
    triple / 64 % 64
  }

  function Sextet3(triple: int): (r: int)
    ensures 0 <= r < 64
  {
    triple % 64
  }

  /** The bytes of `b` from `n` on, if any. */
  function From(b: seq<byte>, n: nat): seq<byte> {
    if n < |b| then b[n..] else []
  }

  /** The four characters for the first one to three bytes of `b`. */
  function EncodeGroup(b: seq<byte>): string
    requires b != []
  {
    var triple := Triple(b[0], if |b| > 1 then b[1] else 0, if |b| > 2 then b[2] else 0);
    [Char64(Sextet0(triple)),
     Char64(Sextet1(triple)),
     if |b| > 1 then Char64(Sextet2(triple)) else '=',
     if |b| > 2 then Char64(Sextet3(triple)) else '=']
  }

  function Encode(b: seq<byte>): string
    decreases |b|
  {
    if b == [] then "" else EncodeGroup(b) + Encode(From(b, 3))
  }

  predicate InTable(c: char) {
    c in BASE64_CHARS
  }

  /** Value of a character; padding counts as zero. */
  function Sextet(c: char): nat {
    if c == '=' then 0 else IndexOf(BASE64_CHARS, c)
  }

  /** What `strchr` on the table can deal with. */
  predicate IsText(s: string) {
    forall i :: 0 <= i < |s| ==> s[i] == '=' || InTable(s[i])
  }

  function DecodeGroup(s: string): seq<byte>
    requires |s| >= 4
  {
    var triple := Quadruple(Sextet(s[0]), Sextet(s[1]), Sextet(s[2]), Sextet(s[3]));
    [Octet0(triple)]
    + (if s[2] != '=' then [Octet1(triple)] else [])
    + (if s[3] != '=' then [Octet2(triple)] else [])
  }

  function Decode(s: string): seq<byte>
    requires |s| % 4 == 0
  {
    if s == "" then [] else DecodeGroup(s[..4]) + Decode(s[4..])
  }

  // ---- The loops ----

  /** Lines 126-129: four characters at `at`. */
  method PutGroup(output: array<char>, at: nat, c0: char, c1: char, c2: char, c3: char)
    requires at + 4 <= output.Length
    modifies output
    ensures output[..] == old(output[..at]) + [c0, c1, c2, c3] + old(output[at + 4..])
  {
    output[at] := c0;
    output[at + 1] := c1;
    output[at + 2] := c2;
    output[at + 3] := c3;
  }

  /** `auth_base64_encode`: the text and its terminator are written to `output`. */
  method Base64Encode(input: seq<byte>, inputLen: int, output: array<char>) returns (outputLen: int)
    requires inputLen <= |input|
    requires inputLen >= 0 ==> |Encode(input[..inputLen])| < output.Length
    modifies output
    ensures inputLen < 0 ==> outputLen == -1 && output[..] == old(output[..])
    ensures inputLen >= 0 ==>
              && outputLen == |Encode(input[..inputLen])|
              && output[..outputLen] == Encode(input[..inputLen])
              && output[outputLen] == '\0'
              && output[outputLen + 1..] == old(output[outputLen + 1..])
  {
    hide Encode, EncodeGroup, Char64, Triple, Sextet0, Sextet1, Sextet2, Sextet3;
    if inputLen < 0 {
      return -1;
    }
    ghost var b := input[..inputLen];
    outputLen := 0;
    var i := 0;
    assert From(b, 0) == b;
    while i < inputLen
      invariant 0 <= i && 0 <= outputLen < output.Length
      invariant output[..outputLen] + Encode(From(b, i)) == Encode(b)
      invariant output[outputLen..] == old(output[outputLen..])
    {
      var octetA := input[i];
      var octetB := if i + 1 < inputLen then input[i + 1] else 0;
      var octetC := if i + 2 < inputLen then input[i + 2] else 0;
      var triple := Triple(octetA, octetB, octetC);
      var c0 := Char64(Sextet0(triple));
      var c1 := Char64(Sextet1(triple));
      var c2 := if i + 1 < inputLen then Char64(Sextet2(triple)) else '=';
      var c3 := if i + 2 < inputLen then Char64(Sextet3(triple)) else '=';
      EncodeStep(b, i);
      ghost var before := output[..outputLen];
      assert Encode(b) == before + [c0, c1, c2, c3] + Encode(From(b, i + 3));
      PutGroup(output, outputLen, c0, c1, c2, c3);
      outputLen := outputLen + 4;
      assert output[..outputLen] == before + [c0, c1, c2, c3];
      i := i + 3;
    }
    EncodeNothing();
    output[outputLen] := '\0';
  }

  lemma {:induction false} EncodeNothing()
    ensures Encode([]) == ""
  {
  }

  /** One iteration of the encoder. */
  lemma {:induction false} EncodeStep(b: seq<byte>, i: nat)
    requires i < |b|
    ensures var triple := Triple(b[i], if i + 1 < |b| then b[i + 1] else 0, if i + 2 < |b| then b[i + 2] else 0);
            Encode(From(b, i)) ==
            [Char64(Sextet0(triple)),
             Char64(Sextet1(triple)),
             if i + 1 < |b| then Char64(Sextet2(triple)) else '=',
             if i + 2 < |b| then Char64(Sextet3(triple)) else '=']
            + Encode(From(b, i + 3))
  {
    hide Char64, Triple, Sextet0, Sextet1, Sextet2, Sextet3;
    assert From(From(b, i), 3) == From(b, i + 3);
  }

  /** Lines 156-165: the bytes of one group of four characters at `at`. */
  method PutDecoded(group: string, output: array<byte>, at: nat) returns (written: nat)
    requires |group| == 4 && at + |DecodeGroup(group)| <= output.Length
    modifies output
    ensures written == |DecodeGroup(group)|
    ensures output[..] == old(output[..at]) + DecodeGroup(group) + old(output[at + written..])
  {
    hide Sextet, Quadruple, Octet0, Octet1, Octet2;
    var sextetA := Sextet(group[0]);
    var sextetB := Sextet(group[1]);
    var sextetC := Sextet(group[2]);
    var sextetD := Sextet(group[3]);
    var triple := Quadruple(sextetA, sextetB, sextetC, sextetD);
    output[at] := Octet0(triple);
    written := 1;
    if group[2] != '=' {
      output[at + written] := Octet1(triple);
      written := written + 1;
    }
    if group[3] != '=' {
      output[at + written] := Octet2(triple);
      written := written + 1;
    }
  }

  /** `auth_base64_decode`: the bytes are written to `output`. */
  method Base64Decode(input: string, output: array<byte>) returns (outputLen: int)
    requires IsText(input)
    requires |input| % 4 == 0 ==> |Decode(input)| <= output.Length
    modifies output
    ensures |input| % 4 != 0 ==> outputLen == -1 && output[..] == old(output[..])
    ensures |input| % 4 == 0 ==>
              && outputLen == |Decode(input)|
              && output[..outputLen] == Decode(input)
              && output[outputLen..] == old(output[outputLen..])
  {
    hide InTable, IsText, Decode, DecodeGroup;
    if |input| % 4 != 0 {
      return -1;
    }
    outputLen := 0;
    var i := 0;
    assert input[0..] == input;
    while i < |input|
      invariant 0 <= i <= |input| && i % 4 == 0
      invariant 0 <= outputLen <= output.Length
      invariant output[..outputLen] + Decode(input[i..]) == Decode(input)
      invariant output[outputLen..] == old(output[outputLen..])
    {
      DecodeStep(input, i);
      ghost var before := output[..outputLen];
      ghost var group := DecodeGroup(input[i..i + 4]);
      assert Decode(input) == before + group + Decode(input[i + 4..]);
      assert outputLen + |group| <= output.Length;
      var written := PutDecoded(input[i..i + 4], output, outputLen);
      outputLen := outputLen + written;
      assert output[..outputLen] == before + group;
      i := i + 4;
    }
    DecodeNothing();
  }

  lemma {:induction false} DecodeNothing()
    ensures Decode("") == []
  {
  }

  /** One iteration of the decoder. */
  lemma {:induction false} DecodeStep(s: string, i: nat)
    requires i < |s| && |s| % 4 == 0 && i % 4 == 0
    ensures Decode(s[i..]) == DecodeGroup(s[i..i + 4]) + Decode(s[i + 4..])
  {
    assert s[i..][..4] == s[i..i + 4];
    assert s[i..][4..] == s[i + 4..];
  }

  // ---- The alphabet ----

  /** The 64 characters are the letters, digits and signs in the order of section 4 of RFC 4648. */
  lemma {:induction false} AlphabetShape(i: nat)
    requires i < 64
    ensures BASE64_CHARS[i] as int ==
            if i < 26 then i + 65 else if i < 52 then i + 71 else if i < 62 then i - 4 else if i == 62 then 43 else 47
  {
    hide UPPER, LOWER, DIGITS;
    if i < 26 {
      UpperShape(i);
    } else if i < 52 {
      LowerShape(i - 26);
    } else {
      DigitShape(i - 52);
    }
    PartLengths();
  }

  lemma {:induction false} PartLengths()
    ensures |UPPER| == 26 && |LOWER| == 26 && |DIGITS| == 12
  {
  }

  lemma {:induction false} UpperShape(i: nat)
    requires i < 26
    ensures |UPPER| == 26 && UPPER[i] as int == i + 65
  {
  }

  lemma {:induction false} LowerShape(i: nat)
    requires i < 26
    ensures |LOWER| == 26 && LOWER[i] as int == i + 97
  {
  }

  lemma {:induction false} DigitShape(i: nat)
    requires i < 12
    ensures |DIGITS| == 12
    ensures DIGITS[i] as int == if i < 10 then i + 48 else if i == 10 then 43 else 47
  {
  }

  lemma {:induction false} SextetOfChar(i: nat)
    requires i < 64
    ensures Sextet(Char64(i)) == i && Char64(i) != '=' && InTable(Char64(i))
  {
    AlphabetShape(i);
    forall j | 0 <= j < i
      ensures BASE64_CHARS[j] != BASE64_CHARS[i]
    {
      AlphabetShape(j);
    }
    IndexOfIs(BASE64_CHARS, BASE64_CHARS[i], i);
  }

  lemma {:induction false} CharOfSextet(c: char)
    requires InTable(c)
    ensures c != '=' && Sextet(c) < 64 && Char64(Sextet(c)) == c
  {
    var i :| 0 <= i < |BASE64_CHARS| && BASE64_CHARS[i] == c;
    SextetOfChar(i);
  }

  // ---- The 24-bit groups ----

  lemma {:induction false} DivMod64(q: int, r: int)
    requires 0 <= r < 64
    ensures (q * 64 + r) / 64 == q && (q * 64 + r) % 64 == r
  {
  }

  lemma {:induction false} DivMod256(q: int, r: int)
    requires 0 <= r < 256
    ensures (q * 256 + r) / 256 == q && (q * 256 + r) % 256 == r
  {
  }

  /** A shift by several digits is several shifts by one digit. */
  lemma {:induction false} ShiftBySteps(t: int)
    ensures t / 4096 == t / 64 / 64 && t / 262144 == t / 64 / 64 / 64 && t / 65536 == t / 256 / 256
  {
  }

  lemma {:induction false} SplitQuadruple(a: int, b: int, c: int, d: int)
    requires 0 <= a < 64 && 0 <= b < 64 && 0 <= c < 64 && 0 <= d < 64
    ensures var t := Quadruple(a, b, c, d);
            0 <= t < 0x100_0000 && Sextet0(t) == a && Sextet1(t) == b && Sextet2(t) == c && Sextet3(t) == d
  {
    var t := Quadruple(a, b, c, d);
    assert t == ((a * 64 + b) * 64 + c) * 64 + d;
    ShiftBySteps(t);
    DivMod64((a * 64 + b) * 64 + c, d);
    DivMod64(a * 64 + b, c);
    DivMod64(a, b);
    DivMod64(0, a);
  }

  lemma {:induction false} JoinSextets(t: int)
    requires 0 <= t < 0x100_0000
    ensures Quadruple(Sextet0(t), Sextet1(t), Sextet2(t), Sextet3(t)) == t
  {
    ShiftBySteps(t);
    assert t == t / 64 * 64 + t % 64;
    assert t / 64 == t / 64 / 64 * 64 + t / 64 % 64;
    assert t / 64 / 64 == t / 64 / 64 / 64 * 64 + t / 64 / 64 % 64;
    DivMod64(0, t / 64 / 64 / 64);
  }

  lemma {:induction false} SplitTriple(a: int, b: int, c: int)
    requires 0 <= a < 256 && 0 <= b < 256 && 0 <= c < 256
    ensures var t := Triple(a, b, c);
            0 <= t < 0x100_0000 && Octet0(t) == a && Octet1(t) == b && Octet2(t) == c
  {
    var t := Triple(a, b, c);
    assert t == (a * 256 + b) * 256 + c;
    ShiftBySteps(t);
    DivMod256(a * 256 + b, c);
    DivMod256(a, b);
    DivMod256(0, a);
  }

  lemma {:induction false} JoinOctets(t: int)
    requires 0 <= t < 0x100_0000
    ensures Triple(Octet0(t), Octet1(t), Octet2(t)) == t
  {
    ShiftBySteps(t);
    assert t == t / 256 * 256 + t % 256;
    assert t / 256 == t / 256 / 256 * 256 + t / 256 % 256;
    DivMod256(0, t / 256 / 256);
  }

  /** Missing octets leave zero sextets and zero pad bits. */
  lemma {:induction false} PadTwo(a: int)
    requires 0 <= a < 256
    ensures Sextet1(Triple(a, 0, 0)) % 16 == 0 && Sextet2(Triple(a, 0, 0)) == 0 && Sextet3(Triple(a, 0, 0)) == 0
  {
    var t := Triple(a, 0, 0);
    ShiftBySteps(t);
    assert t / 64 == a * 1024 && t % 64 == 0 by { DivMod64(a * 1024, 0); }
    assert t / 64 / 64 == a * 16 && t / 64 % 64 == 0 by { DivMod64(a * 16, 0); }
    assert a * 16 % 64 == a % 4 * 16 by { DivMod64(a / 4, a % 4 * 16); }
  }

  lemma {:induction false} PadOne(a: int, b: int)
    requires 0 <= a < 256 && 0 <= b < 256
    ensures Sextet2(Triple(a, b, 0)) % 4 == 0 && Sextet3(Triple(a, b, 0)) == 0
  {
    DivMod64(a * 1024 + b * 4, 0);
    DivMod64(a * 16 + b / 16, b % 16 * 4);
  }

  /** Zero pad bits leave zero octets. */
  lemma {:induction false} UnpadTwo(a: int, b: int)
    requires 0 <= a < 64 && 0 <= b < 64 && b % 16 == 0
    ensures Octet1(Quadruple(a, b, 0, 0)) == 0 && Octet2(Quadruple(a, b, 0, 0)) == 0
  {
    DivMod256((a * 4 + b / 16) * 256, 0);
    DivMod256(a * 4 + b / 16, 0);
  }

  lemma {:induction false} UnpadOne(a: int, b: int, c: int)
    requires 0 <= a < 64 && 0 <= b < 64 && 0 <= c < 64 && c % 4 == 0
    ensures Octet2(Quadruple(a, b, c, 0)) == 0
  {
    DivMod256(a * 1024 + b * 16 + c / 4, 0);
  }

  // ---- Round trips ----

  /** The characters of a group stand for the sextets of its bits. */
  lemma {:induction false} GroupSextets(b: seq<byte>)
    requires b != []
    ensures var t := Triple(b[0], if |b| > 1 then b[1] else 0, if |b| > 2 then b[2] else 0);
            var s := EncodeGroup(b);
            && |s| == 4
            && Sextet(s[0]) == Sextet0(t) && Sextet(s[1]) == Sextet1(t)
            && Sextet(s[2]) == Sextet2(t) && Sextet(s[3]) == Sextet3(t)
            && (s[2] == '=' <==> |b| < 2) && (s[3] == '=' <==> |b| < 3)
            && InTable(s[0]) && InTable(s[1])
            && (|b| > 1 ==> InTable(s[2])) && (|b| > 2 ==> InTable(s[3]))
  {
    hide InTable, IndexOf, Char64, Sextet, Triple, Sextet0, Sextet1, Sextet2, Sextet3;
    var t := Triple(b[0], if |b| > 1 then b[1] else 0, if |b| > 2 then b[2] else 0);
    SextetOfChar(Sextet0(t));
    SextetOfChar(Sextet1(t));
    SextetOfChar(Sextet2(t));
    SextetOfChar(Sextet3(t));
    PaddingIsZero();
    if |b| == 1 {
      PadTwo(b[0]);
    } else if |b| == 2 {
      PadOne(b[0], b[1]);
    }
  }

  lemma {:induction false} GroupRoundTrip(b: seq<byte>)
    requires b != []
    ensures |EncodeGroup(b)| == 4 && DecodeGroup(EncodeGroup(b)) == if |b| <= 3 then b else b[..3]
  {
    hide InTable, IndexOf, EncodeGroup, Sextet, Triple, Quadruple, Sextet0, Sextet1, Sextet2, Sextet3, Octet0, Octet1, Octet2;
    var b1, b2 := if |b| > 1 then b[1] else 0, if |b| > 2 then b[2] else 0;
    GroupSextets(b);
    SplitTriple(b[0], b1, b2);
    JoinSextets(Triple(b[0], b1, b2));
  }

  lemma {:induction false} PaddingIsZero()
    ensures Sextet('=') == 0
  {
  }

  /** Decoding undoes encoding for every byte string, and the length is that of section 4 of RFC 4648. */
  lemma {:induction false} DecodeOfEncode(b: seq<byte>)
    ensures |Encode(b)| % 4 == 0 && |Encode(b)| == 4 * ((|b| + 2) / 3)
    ensures Decode(Encode(b)) == b
    decreases |b|
  {
    hide EncodeGroup, DecodeGroup;
    if b != [] {
      var group, rest := EncodeGroup(b), Encode(From(b, 3));
      GroupRoundTrip(b);
      DecodeOfEncode(From(b, 3));
      assert (group + rest)[..4] == group && (group + rest)[4..] == rest;
    }
  }

  // ---- The codec bit by bit ----

  /** The four sextets of three octets, each in a window of two octets. */
  lemma {:induction false} SextetWindows(a: byte, b: byte, c: byte)
    ensures var t := Triple(a, b, c);
            && Sextet0(t) == (a * 256 + b) / 1024 % 64
            && Sextet1(t) == (a * 256 + b) / 16 % 64
            && Sextet2(t) == (b * 256 + c) / 64 % 64
            && Sextet3(t) == c % 64
  {
    hide Sextet0, Sextet1, Sextet2, Sextet3;
    WindowHigh(Triple(a, b, c), a * 256 + b, c);
    WindowLow(Triple(a, b, c), a, b, c);
  }

  lemma {:induction false} WindowHigh(t: int, m: int, c: int)
    requires t == m * 256 + c && 0 <= c < 256
    ensures Sextet0(t) == m / 1024 % 64 && Sextet1(t) == m / 16 % 64
  {
    assert t / 262144 == m / 1024;
    assert t / 4096 == m / 16;
  }

  lemma {:induction false} WindowLow(t: int, a: int, b: int, c: int)
    requires t == a * 65536 + b * 256 + c && 0 <= c < 256
    ensures Sextet2(t) == (b * 256 + c) / 64 % 64 && Sextet3(t) == c % 64
  {
    hide Sextet2, Sextet3;
    var (y, r) := (b * 4 + c / 64, c % 64);
    assert t == (a * 1024 + y) * 64 + r && b * 256 + c == y * 64 + r;
    LowBits(t, a, y, r);
    DivMod64(y, r);
  }

  lemma {:induction false} LowBits(t: int, a: int, y: int, r: int)
    requires t == (a * 1024 + y) * 64 + r && 0 <= r < 64
    ensures Sextet2(t) == y % 64 && Sextet3(t) == r
  {
    DivMod64(a * 1024 + y, r);
    assert a * 1024 + y == (a * 16 + y / 64) * 64 + y % 64;
    DivMod64(a * 16 + y / 64, y % 64);
  }

  /** The code point of a sextet (table 1 of RFC 4648). */
  lemma {:induction false} Char64Is(v: nat)
    requires v < 64
    ensures Char64(v) as int == CodePoint(v)
  {
    AlphabetShape(v);
  }

  /** The number that the bits from `6 * i` on form: the byte with bit `6 * i` and the byte behind it hold
      them, and zero bits follow the end. */
  function SixBits(b: seq<byte>, i: nat): (v: nat)
    requires 6 * i < 8 * |b|
    ensures v < 64
  {
    var p := 6 * i / 8;
    (b[p] * 256 + (if p + 1 < |b| then b[p + 1] else 0)) / Pow2(10 - 6 * i % 8) % 64
  }

  function CodePoint(v: nat): int
    requires v < 64
  {
    if v < 26 then v + 65 else if v < 52 then v + 71 else if v < 62 then v - 4 else if v == 62 then 43 else 47
  }

  /** Character `i` of an encoding has the code point of the bits from `6 * i` on. Behind the last bit there
      is padding. */
  lemma {:induction false} EncodedBits(b: seq<byte>, i: nat)
    requires i < |Encode(b)|
    ensures 6 * i >= 8 * |b| ==> Encode(b)[i] == '='
    ensures 6 * i < 8 * |b| ==>
              var p := 6 * i / 8;
              var v := (b[p] * 256 + (if p + 1 < |b| then b[p + 1] else 0)) / Pow2(10 - 6 * i % 8) % 64;
              Encode(b)[i] as int ==
              if v < 26 then v + 65 else if v < 52 then v + 71 else if v < 62 then v - 4 else if v == 62 then 43 else 47
  {
    hide Encode, Pow2;
    EncodedCodePoint(b, i);
  }

  lemma {:induction false} EncodedCodePoint(b: seq<byte>, i: nat)
    requires i < |Encode(b)|
    ensures Encode(b)[i] as int == if 6 * i < 8 * |b| then CodePoint(SixBits(b, i)) else '=' as int
    decreases i
  {
    hide EncodeGroup, SixBits, CodePoint;
    EncodedGroupBits(b);
    if i >= 4 {
      EncodedCodePoint(From(b, 3), i - 4);
      if 6 * i < 8 * |b| {
        SixBitsBehind(b, i);
      }
    }
  }

  lemma {:induction false} SixBitsBehind(b: seq<byte>, i: nat)
    requires 4 <= i && 6 * i < 8 * |b|
    ensures SixBits(b[3..], i - 4) == SixBits(b, i)
  {
    hide Pow2;
    assert 6 * (i - 4) / 8 == 6 * i / 8 - 3 && 6 * (i - 4) % 8 == 6 * i % 8;
  }

  lemma {:induction false} FirstWindows(b: seq<byte>)
    requires b != []
    ensures var b1: int, b2: int := if |b| > 1 then b[1] else 0, if |b| > 2 then b[2] else 0;
            && SixBits(b, 0) == (b[0] * 256 + b1) / 1024 % 64
            && SixBits(b, 1) == (b[0] * 256 + b1) / 16 % 64
            && (|b| > 1 ==> SixBits(b, 2) == (b1 * 256 + b2) / 64 % 64)
            && (|b| > 2 ==> SixBits(b, 3) == b2 % 64)
  {
    hide Pow2;
    SmallPowers();
    if |b| > 2 {
      LastWindow(b[2], if |b| > 3 then b[3] else 0);
    }
  }

  lemma {:induction false} LastWindow(c: byte, d: byte)
    ensures (c * 256 + d) / 256 % 64 == c % 64
  {
    DivMod256(c, d);
  }

  lemma {:induction false} EncodedGroupBits(b: seq<byte>)
    requires b != []
    ensures |EncodeGroup(b)| == 4
    ensures forall i :: 0 <= i < 4 ==>
              EncodeGroup(b)[i] as int == if 6 * i < 8 * |b| then CodePoint(SixBits(b, i)) else '=' as int
  {
    hide Char64, Triple, Sextet0, Sextet1, Sextet2, Sextet3, SixBits;
    var (b1, b2) := (if |b| > 1 then b[1] else 0, if |b| > 2 then b[2] else 0);
    var t := Triple(b[0], b1, b2);
    SextetWindows(b[0], b1, b2);
    FirstWindows(b);
    Char64Is(Sextet0(t));
    Char64Is(Sextet1(t));
    Char64Is(Sextet2(t));
    Char64Is(Sextet3(t));
  }

  lemma {:induction false} SmallPowers()
    ensures Pow2(10) == 1024 && Pow2(8) == 256 && Pow2(6) == 64 && Pow2(4) == 16
  {
    assert Pow2(4) == 16;
    assert Pow2(6) == 4 * Pow2(4);
    assert Pow2(8) == 4 * Pow2(6);
    assert Pow2(10) == 4 * Pow2(8);
  }

  /** The value of a character, by its code point. */
  function ValueOf(c: char): int {
    if 'A' <= c <= 'Z' then c as int - 65
    else if 'a' <= c <= 'z' then c as int - 71
    else if '0' <= c <= '9' then c as int + 4
    else if c == '+' then 62
    else if c == '/' then 63
    else -1
  }

  lemma {:induction false} ValueOfCode(c: char, v: nat)
    requires v < 64 && c as int == CodePoint(v)
    ensures ValueOf(c) == v
  {
  }

  lemma {:induction false} CodeOfValue(c: char)
    requires ValueOf(c) >= 0
    ensures ValueOf(c) < 64 && c as int == CodePoint(ValueOf(c))
  {
  }

  lemma {:induction false} SextetIs(c: char)
    ensures Sextet('=') == 0
    ensures InTable(c) <==> ValueOf(c) >= 0
    ensures InTable(c) ==> Sextet(c) == ValueOf(c)
  {
    hide IndexOf, Char64, InTable, Sextet, CodePoint, ValueOf;
    PaddingIsZero();
    if ValueOf(c) >= 0 {
      CodeOfValue(c);
      Char64Is(ValueOf(c));
      SextetOfChar(ValueOf(c));
    }
    if InTable(c) {
      CharOfSextet(c);
      Char64Is(Sextet(c));
      ValueOfCode(c, Sextet(c));
    }
  }

  /** Eight bits of two sextets, in front of those that `divisor` cuts off. */
  function EightBits(a: int, b: int, divisor: int): byte
    requires divisor > 0
  {
    (a * 64 + b) / divisor % 256
  }

  /** The bytes of four characters: eight bits each of the four values, without those that padding takes
      away. */
  lemma {:induction false} DecodedGroupBits(g: string)
    requires |g| == 4 && IsText(g)
    ensures Decode(g) == [EightBits(Sextet(g[0]), Sextet(g[1]), 16)]
                         + (if g[2] != '=' then [EightBits(Sextet(g[1]), Sextet(g[2]), 4)] else [])
                         + (if g[3] != '=' then [EightBits(Sextet(g[2]), Sextet(g[3]), 1)] else [])
  {
    hide Decode, IsText, Sextet, IndexOf, Octet0, Octet1, Octet2, Quadruple, InTable, EightBits;
    SmallSextets(g);
    OctetWindows(Sextet(g[0]), Sextet(g[1]), Sextet(g[2]), Sextet(g[3]));
    DecodeOne(g);
  }

  lemma {:induction false} DecodeOne(g: string)
    requires |g| == 4
    ensures Decode(g) == DecodeGroup(g)
  {
    hide DecodeGroup;
    assert g[..4] == g && g[4..] == "";
    DecodeNothing();
  }

  lemma {:induction false} SmallSextets(g: string)
    requires IsText(g)
    ensures forall i :: 0 <= i < |g| ==> Sextet(g[i]) < 64
  {
    hide InTable, IndexOf;
    forall i | 0 <= i < |g|
      ensures Sextet(g[i]) < 64
    {
      if g[i] != '=' {
        CharOfSextet(g[i]);
      }
    }
  }

  lemma {:induction false} OctetWindows(a: int, b: int, c: int, d: int)
    requires 0 <= a < 64 && 0 <= b < 64 && 0 <= c < 64 && 0 <= d < 64
    ensures var t := Quadruple(a, b, c, d);
            Octet0(t) == EightBits(a, b, 16) && Octet1(t) == EightBits(b, c, 4) && Octet2(t) == EightBits(c, d, 1)
  {
    var t := Quadruple(a, b, c, d);
    assert t == (a * 64 + b) * 4096 + (c * 64 + d);
    OctetHigh(a * 64 + b, c * 64 + d);
    assert t == a * 262144 + (b * 64 + c) * 64 + d;
    OctetMiddle(a, b * 64 + c, d);
    OctetLow(a * 1024 + b * 16, c * 64 + d);
  }

  lemma {:induction false} OctetHigh(m: int, r: int)
    requires 0 <= r < 4096
    ensures (m * 4096 + r) / 65536 == m / 16
  {
  }

  lemma {:induction false} OctetMiddle(a: int, m: int, d: int)
    requires 0 <= d < 64
    ensures (a * 262144 + m * 64 + d) / 256 % 256 == m / 4 % 256
  {
    assert (a * 262144 + m * 64 + d) / 256 == a * 1024 + m / 4;
    assert a * 1024 + m / 4 == (a * 4) * 256 + m / 4;
  }

  lemma {:induction false} OctetLow(q: int, m: int)
    ensures (q * 256 + m) % 256 == m % 256
  {
  }

  /** Groups are decoded one after the other. */
  lemma {:induction false} DecodeConcat(s: string, t: string)
    requires |s| % 4 == 0 && |t| % 4 == 0
    ensures Decode(s + t) == Decode(s) + Decode(t)
    decreases |s|
  {
    hide DecodeGroup;
    if s == "" {
      assert s + t == t;
    } else {
      assert (s + t)[..4] == s[..4] && (s + t)[4..] == s[4..] + t;
      DecodeConcat(s[4..], t);
    }
  }

  predicate InAlphabet(s: string) {
    forall i :: 0 <= i < |s| ==> InTable(s[i])
  }

  /** A last group that ends in padding, with zero pad bits (section 3.5 of RFC 4648). */
  predicate PaddedGroup(s: string) {
    && |s| == 4 && s[3] == '='
    && if s[2] == '=' then InAlphabet(s[..2]) && Sextet(s[1]) % 16 == 0
       else InAlphabet(s[..3]) && Sextet(s[2]) % 4 == 0
  }

  /** The canonical strings: full groups, the last one possibly padded. */
  predicate Canonical(s: string) {
    s == "" || (|s| >= 4 && (PaddedGroup(s) || (InAlphabet(s[..4]) && Canonical(s[4..]))))
  }

  /** A full group, decoded and encoded again. */
  lemma {:induction false} FullGroupKept(s: string)
    requires |s| == 4 && InAlphabet(s)
    ensures |DecodeGroup(s)| == 3 && EncodeGroup(DecodeGroup(s)) == s
  {
    hide InTable, IndexOf, Char64, Sextet, Triple, Quadruple, Sextet0, Sextet1, Sextet2, Sextet3, Octet0, Octet1, Octet2;
    CharOfSextet(s[0]);
    CharOfSextet(s[1]);
    CharOfSextet(s[2]);
    CharOfSextet(s[3]);
    SplitQuadruple(Sextet(s[0]), Sextet(s[1]), Sextet(s[2]), Sextet(s[3]));
    JoinOctets(Quadruple(Sextet(s[0]), Sextet(s[1]), Sextet(s[2]), Sextet(s[3])));
  }

  lemma {:induction false} PaddedGroupKept(s: string)
    requires PaddedGroup(s)
    ensures 1 <= |DecodeGroup(s)| <= 2 && EncodeGroup(DecodeGroup(s)) == s
  {
    hide InTable, IndexOf, Char64, Sextet, Triple, Quadruple, Sextet0, Sextet1, Sextet2, Sextet3, Octet0, Octet1, Octet2;
    assert s[0] == s[..2][0] && s[1] == s[..2][1];
    CharOfSextet(s[0]);
    CharOfSextet(s[1]);
    PaddingIsZero();
    if s[2] != '=' {
      assert s[2] == s[..3][2];
      CharOfSextet(s[2]);
    }
    SplitQuadruple(Sextet(s[0]), Sextet(s[1]), Sextet(s[2]), 0);
    JoinOctets(Quadruple(Sextet(s[0]), Sextet(s[1]), Sextet(s[2]), 0));
    if s[2] == '=' {
      UnpadTwo(Sextet(s[0]), Sextet(s[1]));
    } else {
      UnpadOne(Sextet(s[0]), Sextet(s[1]), Sextet(s[2]));
    }
  }

  lemma {:induction false} CanonicalKept(s: string)
    requires Canonical(s)
    ensures |s| % 4 == 0 && Encode(Decode(s)) == s
    decreases |s|
  {
    hide InTable, EncodeGroup, DecodeGroup, Sextet, InAlphabet;
    if s == "" {
    } else if PaddedGroup(s) {
      PaddedGroupKept(s);
      assert s[..4] == s && s[4..] == "";
      assert Decode(s) == DecodeGroup(s);
      EncodeNothing();
    } else {
      CanonicalKept(s[4..]);
      FullGroupKept(s[..4]);
      var d, rest := DecodeGroup(s[..4]), Decode(s[4..]);
      EncodeGroupLocal(d, rest);
      assert From(d + rest, 3) == rest;
      assert s == s[..4] + s[4..];
    }
  }

  lemma {:induction false} EncodeGroupLocal(d: seq<byte>, rest: seq<byte>)
    requires |d| == 3
    ensures EncodeGroup(d + rest) == EncodeGroup(d)
  {
    hide Char64, Triple, Sextet0, Sextet1, Sextet2, Sextet3;
  }

  /** A group of the encoder has the canonical form. */
  lemma {:induction false} GroupIsCanonical(b: seq<byte>)
    requires b != []
    ensures |EncodeGroup(b)| == 4
    ensures if |b| < 3 then PaddedGroup(EncodeGroup(b)) else InAlphabet(EncodeGroup(b))
  {
    hide InTable, IndexOf, EncodeGroup, Sextet, Triple, Sextet0, Sextet1, Sextet2, Sextet3;
    GroupSextets(b);
    if |b| == 1 {
      PadTwo(b[0]);
    } else if |b| == 2 {
      PadOne(b[0], b[1]);
    }
  }

  /** The encoder writes canonical strings only. */
  lemma {:induction false} EncodeIsCanonical(b: seq<byte>)
    ensures Canonical(Encode(b))
    decreases |b|
  {
    hide EncodeGroup, PaddedGroup, InAlphabet;
    if b != [] {
      var group, rest := EncodeGroup(b), Encode(From(b, 3));
      GroupIsCanonical(b);
      EncodeIsCanonical(From(b, 3));
      assert (group + rest)[..4] == group && (group + rest)[4..] == rest;
      if |b| < 3 {
        EncodeNothing();
        assert group + rest == group;
      }
    }
  }

  /** Encoding undoes decoding exactly on the canonical strings. */
  lemma {:induction false} EncodeOfDecode(s: string)
    requires |s| % 4 == 0
    ensures Encode(Decode(s)) == s <==> Canonical(s)
  {
    if Canonical(s) {
      CanonicalKept(s);
    }
    if Encode(Decode(s)) == s {
      EncodeIsCanonical(Decode(s));
    }
  }

  // ---- Credentials ----

  const COLON: byte := 58

  /** Room for a user name or a password, without the terminator. */
  const NAME_MAX: nat := 63

  const CREDENTIALS_SIZE: nat := 128

  /** The C string at the start of a buffer. */
  function CString(s: seq<byte>): seq<byte> {
    s[..IndexOf(s, 0)]
  }

  function Take(s: seq<byte>, n: nat): seq<byte> {
    if |s| <= n then s else s[..n]
  }

  /** A C string's characters are not zero. */
  predicate NulFree(s: seq<byte>) {
    0 !in s
  }

  /** `snprintf` of "user:password" into the credentials buffer. */
  function Credentials(user: seq<byte>, password: seq<byte>): seq<byte> {
    Take(user + [COLON] + password, CREDENTIALS_SIZE - 1)
  }

  /** The value of the Authorization header for a user. */
  function BasicHeader(user: seq<byte>, password: seq<byte>): string {
    "Basic " + Encode(Credentials(user, password))
  }

  /** User name and password of a header, or None. */
  function Parse(header: string): Option<(seq<byte>, seq<byte>)> {
    if |header| < 6 || header[..6] != "Basic " || |header[6..]| % 4 != 0 then None
    else
      var text := CString(Decode(header[6..]));
      var colon := IndexOf(text, COLON);
      if colon == |text| then None
      else Some((Take(text[..colon], NAME_MAX), Take(text[colon + 1..], NAME_MAX)))
  }

  /** What `auth_parse_basic_header` asks of its callers: characters the table lookup knows, and a
      decoded text that fits its 128-byte buffer. */
  predicate Parseable(header: string) {
    |header| >= 6 && header[..6] == "Basic " ==>
      IsText(header[6..]) && (|header[6..]| % 4 == 0 ==> |Decode(header[6..])| < CREDENTIALS_SIZE)
  }

  /** `strncpy(dst, src + from, n)`; `src` holds a terminator at or after `from`. */
  method Strncpy(dst: array<byte>, src: array<byte>, from: nat, n: nat)
    requires dst != src && n <= dst.Length && from <= src.Length && 0 in src[from..]
    modifies dst
    ensures Take(CString(src[from..]), n) <= dst[..]
    ensures forall k :: |Take(CString(src[from..]), n)| <= k < n ==> dst[k] == 0
    ensures dst[n..] == old(dst[n..])
  {
    ghost var text := src[from..];
    var i := 0;
    while i < n && src[from + i] != 0
      invariant 0 <= i <= n && i <= IndexOf(text, 0)
      invariant dst[..i] == text[..i]
      invariant dst[n..] == old(dst[n..])
    {
      assert text[i] != 0;
      dst[i] := src[from + i];
      i := i + 1;
    }
    assert i < n ==> text[i] == 0;
    assert text[..i] == Take(CString(text), n);
    ghost var copied := i;
    while i < n
      invariant copied <= i <= n
      invariant dst[..copied] == text[..copied]
      invariant forall k :: copied <= k < i ==> dst[k] == 0
      invariant dst[n..] == old(dst[n..])
    {
      dst[i] := 0;
      i := i + 1;
    }
  }

  /** A buffer that starts with a name and its terminator. */
  lemma {:induction false} TerminatedName(buffer: seq<byte>, name: seq<byte>)
    requires |name| < |buffer| && NulFree(name)
    requires name <= buffer && buffer[|name|] == 0
    ensures CString(buffer) == name
  {
    assert buffer[..|name|] == name;
    IndexOfIs(buffer, 0, |name|);
  }

  /** Lines 206-209: `strncpy` of at most 63 characters into a name buffer, and its terminator. */
  method CopyName(dst: array<byte>, src: array<byte>, from: nat)
    requires dst != src && NAME_MAX < dst.Length && from <= src.Length && 0 in src[from..]
    modifies dst
    ensures CString(dst[..]) == Take(CString(src[from..]), NAME_MAX)
  {
    Strncpy(dst, src, from, NAME_MAX);
    dst[NAME_MAX] := 0;
    TerminatedName(dst[..], Take(CString(src[from..]), NAME_MAX));
  }

  /** `strchr(text, ':')` on a C string, as an index. */
  method FindColon(text: array<byte>) returns (colon: nat)
    requires 0 in text[..]
    ensures colon == IndexOf(CString(text[..]), COLON)
    ensures colon <= |CString(text[..])| < text.Length
    ensures text[colon] == 0 <==> colon == |CString(text[..])|
  {
    ghost var s := CString(text[..]);
    colon := 0;
    while text[colon] != 0 && text[colon] != COLON
      invariant 0 <= colon <= |s| < text.Length
      invariant forall i :: 0 <= i < colon ==> s[i] != COLON
      decreases |s| - colon
    {
      colon := colon + 1;
    }
    IndexOfIs(s, COLON, colon);
  }

  /** The C string in a terminated buffer is the C string of its content. */
  lemma {:induction false} CutAtTerminator(buffer: seq<byte>, content: seq<byte>)
    requires |content| < |buffer| && content <= buffer && buffer[|content|] == 0
    ensures CString(buffer) == CString(content)
  {
    var k := IndexOf(content, 0);
    assert buffer[..k] == content[..k];
    IndexOfIs(buffer, 0, k);
  }

  /** Cutting the text at its first colon leaves the user name in front and the password behind. */
  lemma {:induction false} SplitAtColon(uncut: seq<byte>, cut: seq<byte>, colon: nat)
    requires colon < |CString(uncut)| && IndexOf(CString(uncut), COLON) == colon && 0 in uncut
    requires cut == uncut[colon := 0]
    ensures 0 in cut[colon + 1..]
    ensures CString(cut) == CString(uncut)[..colon] && CString(cut[colon + 1..]) == CString(uncut)[colon + 1..]
  {
    var end := IndexOf(uncut, 0);
    assert cut[..colon] == uncut[..colon] == uncut[..end][..colon];
    IndexOfIs(cut, 0, colon);
    var rest := cut[colon + 1..];
    assert rest[end - colon - 1] == 0;
    assert uncut[..end][colon + 1..] == uncut[colon + 1..end];
    assert rest[..end - colon - 1] == uncut[colon + 1..end];
    IndexOfIs(rest, 0, end - colon - 1);
  }

  /** `auth_parse_basic_header`: the two names are left in their buffers as C strings. */
  method ParseBasicHeader(header: string, username: array<byte>, password: array<byte>) returns (ret: int)
    requires username != password && username.Length > NAME_MAX && password.Length > NAME_MAX
    requires Parseable(header)
    modifies username, password
    ensures ret == 0 <==> Parse(header).Some?
    ensures ret == 0 ==> (CString(username[..]), CString(password[..])) == Parse(header).value
    ensures ret != 0 ==> username[..] == old(username[..]) && password[..] == old(password[..])
  {
    hide Decode, IsText, IndexOf, CString, Take;
    if |header| < 6 || header[..6] != "Basic " {
      return -1;
    }
    var encoded := header[6..];
    var decoded := new byte[CREDENTIALS_SIZE];
    var decodedLen := Base64Decode(encoded, decoded);
    if decodedLen < 0 {
      return -1;
    }
    decoded[decodedLen] := 0;
    CutAtTerminator(decoded[..], Decode(encoded));
    var colon := FindColon(decoded);
    if decoded[colon] == 0 {
      return -1;
    }
    ghost var uncut := decoded[..];
    decoded[colon] := 0;
    SplitAtColon(uncut, decoded[..], colon);
    assert decoded[0..] == decoded[..];
    CopyName(username, decoded, 0);
    CopyName(password, decoded, colon + 1);
    return 0;
  }

  /** `auth_encode_basic_credentials` on two C strings. */
  method EncodeBasicCredentials(user: seq<byte>, password: seq<byte>, output: array<char>) returns (outputLen: int)
    requires NulFree(user) && NulFree(password)
    requires |Encode(Credentials(user, password))| < output.Length
    modifies output
    ensures outputLen == |Encode(Credentials(user, password))|
    ensures output[..outputLen] == Encode(Credentials(user, password)) && output[outputLen] == '\0'
  {
    hide Encode;
    var credentials := Credentials(user, password);
    assert credentials[..|credentials|] == credentials;
    outputLen := Base64Encode(credentials, |credentials|, output);
  }

  datatype AuthResult = Success | Required | Invalid | Error

  /** `auth_config_t`; the names are C strings in 64-byte fields. */
  datatype AuthConfig = AuthConfig(username: seq<byte>, password: seq<byte>)

  /** `auth_validate_basic`. */
  method ValidateBasic(header: Option<string>, config: Option<AuthConfig>) returns (result: AuthResult)
    requires header.Some? ==> Parseable(header.value)
    ensures result == Error <==> config.None?
    ensures result == Required <==> config.Some? && header.None?
    ensures result == Success <==>
              && config.Some? && header.Some?
              && Parse(header.value) == Some((config.value.username, config.value.password))
  {
    hide Parse, Parseable;
    if config.None? {
      return Error;
    }
    if header.None? {
      return Required;
    }
    var username, password := new byte[NAME_MAX + 1], new byte[NAME_MAX + 1];
    var parsed := ParseBasicHeader(header.value, username, password);
    if parsed < 0 || parsed > 0 {
      return Invalid;
    }
    if CString(username[..]) == config.value.username && CString(password[..]) == config.value.password {
      return Success;
    }
    return Invalid;
  }

  /** What the encoder writes can be parsed: it is known text of a length the buffer holds. */
  lemma {:induction false} HeaderIsParseable(user: seq<byte>, password: seq<byte>)
    ensures Parseable(BasicHeader(user, password))
    ensures BasicHeader(user, password)[..6] == "Basic "
    ensures BasicHeader(user, password)[6..] == Encode(Credentials(user, password))
  {
    hide Decode, Encode, IsText;
    var text := Encode(Credentials(user, password));
    DecodeOfEncode(Credentials(user, password));
    EncodeIsCanonical(Credentials(user, password));
    CanonicalIsText(text);
    var header := BasicHeader(user, password);
    assert header[..6] == "Basic " && header[6..] == text;
  }

  lemma {:induction false} CanonicalIsText(s: string)
    requires Canonical(s)
    ensures IsText(s)
  {
    hide InTable;
    if s != "" {
      if PaddedGroup(s) {
        assert s[0] == s[..2][0] && s[1] == s[..2][1];
        assert s[2] != '=' ==> s[0] == s[..3][0] && s[1] == s[..3][1] && s[2] == s[..3][2];
      } else {
        CanonicalIsText(s[4..]);
        assert forall i :: 0 <= i < 4 ==> s[i] == s[..4][i];
        assert forall i :: 4 <= i < |s| ==> s[i] == s[4..][i - 4];
      }
    }
  }

  /** Parsing the header printed for `user` and `password`, in terms of the joined credentials. */
  lemma {:induction false} ParsePrinted(user: seq<byte>, password: seq<byte>)
    requires NulFree(user) && NulFree(password)
    ensures Parse(BasicHeader(user, password)) ==
            var text := Credentials(user, password);
            var colon := IndexOf(text, COLON);
            if colon == |text| then None
            else Some((Take(text[..colon], NAME_MAX), Take(text[colon + 1..], NAME_MAX)))
  {
    hide Encode, Decode, IsText, Parseable;
    var text := Credentials(user, password);
    HeaderIsParseable(user, password);
    DecodeOfEncode(text);
    assert CString(text) == text by {
      hide Decode;
      IndexOfIs(text, 0, |text|);
    }
  }

  /** The credential round trip holds exactly when the user name has no colon and both names fit. */
  lemma {:induction false} CredentialRoundTrip(user: seq<byte>, password: seq<byte>)
    requires NulFree(user) && NulFree(password)
    ensures Parse(BasicHeader(user, password)) == Some((user, password))
            <==>
            58 !in user && |user| <= 63 && |password| <= 63
  {
    hide Parse, BasicHeader, IndexOf;
    ParsePrinted(user, password);
    var joined := user + [COLON] + password;
    var text := Credentials(user, password);
    if COLON !in user && |user| <= NAME_MAX && |password| <= NAME_MAX {
      assert joined[..|user|] == user && joined[|user| + 1..] == password;
      IndexOfIs(joined, COLON, |user|);
    } else if |user| <= NAME_MAX && |password| <= NAME_MAX {
      var k :| 0 <= k < |user| && user[k] == COLON;
      assert text[k] == COLON && IndexOf(text, COLON) <= k;
    }
  }

  /** A header printed for (user, password) is accepted iff these are the configured names. */
  lemma {:induction false} PrintedHeaderAccepted(user: seq<byte>, password: seq<byte>, config: AuthConfig)
    requires NulFree(user) && NulFree(password) && COLON !in user
    requires |user| <= NAME_MAX && |password| <= NAME_MAX
    ensures Parse(BasicHeader(user, password)) == Some((config.username, config.password))
            <==>
            (user, password) == (config.username, config.password)
  {
    CredentialRoundTrip(user, password);
  }

  /** What is written for two names: both with a colon between them, cut to the 127 bytes that the buffer
      holds. */
  lemma {:induction false} CredentialsText(user: seq<byte>, password: seq<byte>)
    ensures var joined := user + [58] + password;
            Credentials(user, password) == if |joined| <= 127 then joined else joined[..127]
  {
  }

  /** What a header says: the names stand around the first colon of the decoded text, which ends at the
      first zero byte; each is cut to 63 bytes. */
  lemma {:induction false} ParsedNames(text: string, colon: nat, end: nat)
    requires |text| % 4 == 0 && colon < end <= |Decode(text)|
    requires forall i :: 0 <= i < end ==> Decode(text)[i] != 0 && (i < colon ==> Decode(text)[i] != 58)
    requires Decode(text)[colon] == 58 && (end < |Decode(text)| ==> Decode(text)[end] == 0)
    ensures var (d, cut) := (Decode(text), if colon <= 63 then colon else 63);
            var last := if end - colon - 1 <= 63 then end else colon + 1 + 63;
            Parse("Basic " + text) == Some((d[..cut], d[colon + 1..last]))
  {
    hide Decode;
    var (d, header) := (Decode(text), "Basic " + text);
    assert header[..6] == "Basic " && header[6..] == text;
    IndexOfIs(d, 0, end);
    IndexOfIs(d[..end], 58, colon);
    assert d[..end][..colon] == d[..colon];
    assert d[..end][colon + 1..] == d[colon + 1..end];
    hide IndexOf;
    if end - colon - 1 > 63 {
      assert d[colon + 1..end][..63] == d[colon + 1..colon + 64];
    }
    if colon > 63 {
      assert d[..colon][..63] == d[..63];
    }
  }

  /** The text ends at `end`, with a zero byte or the buffer, and has no colon. */
  predicate EndsWithoutColon(d: seq<byte>, end: nat) {
    end <= |d| && (end < |d| ==> d[end] == 0) && forall i :: 0 <= i < end ==> d[i] != 0 && d[i] != 58
  }

  ghost predicate Colonless(d: seq<byte>) {
    exists end :: EndsWithoutColon(d, end)
  }

  lemma {:induction false} NoColon(d: seq<byte>)
    ensures IndexOf(CString(d), COLON) == |CString(d)| <==> Colonless(d)
  {
    hide IndexOf;
    var text := CString(d);
    if end: nat :| EndsWithoutColon(d, end) {
      IndexOfIs(d, 0, end);
      IndexOfIs(text, 58, end);
    }
    if IndexOf(text, COLON) == |text| {
      forall i | 0 <= i < |text|
        ensures d[i] != 0 && d[i] != 58
      {
        assert d[i] == text[i];
      }
      assert EndsWithoutColon(d, |text|);
    }
  }

  /** Which headers say nothing: another scheme, a broken length, or a text without a colon. */
  lemma {:induction false} ParseRefuses(header: string)
    ensures Parse(header) == None <==>
              || |header| < 6 || header[..6] != "Basic " || |header[6..]| % 4 != 0
              || Colonless(Decode(header[6..]))
  {
    hide Decode, IndexOf, CString, Colonless;
    if |header| >= 6 && header[..6] == "Basic " && |header[6..]| % 4 == 0 {
      NoColon(Decode(header[6..]));
    }
  }

  /** The header of user "apa" with password "pw". */
  lemma {:induction false} KnownHeader()
    ensures Encode([97, 112, 97, 58, 112, 119]) == "YXBhOnB3"
    ensures Parse("Basic YXBhOnB3") == Some(([97, 112, 97], [112, 119]))
  {
    hide Encode, Decode, Parse;
    var b: seq<byte> := [97, 112, 97, 58, 112, 119];
    DecodeOfEncode(b);
    KnownText(b);
    ParsedNames("YXBhOnB3", 3, 6);
    assert "Basic " + "YXBhOnB3" == "Basic YXBhOnB3";
    assert b[..3] == [97, 112, 97] && b[4..6] == [112, 119];
  }

  lemma {:induction false} KnownText(b: seq<byte>)
    requires b == [97, 112, 97, 58, 112, 119]
    ensures Encode(b) == "YXBhOnB3"
  {
    hide Encode, Decode;
    DecodeOfEncode(b);
    SmallPowers();
    EncodedBits(b, 0);
    EncodedBits(b, 1);
    EncodedBits(b, 2);
    EncodedBits(b, 3);
    EncodedBits(b, 4);
    EncodedBits(b, 5);
    EncodedBits(b, 6);
    EncodedBits(b, 7);
  }
}
