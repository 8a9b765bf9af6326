/** The resumable base64 coder. Bytes and characters are 8-bit words; a `char` is signed, so the words
    from 128 up are the negative ones. */
module Base64 {

  type Byte = bv8

  datatype Step = StepA | StepB | StepC | StepD

  const PAD: Byte := 61

  predicate Negative(c: Byte) {
    c >= 128
  }

  // ----- The alphabet -----

  /** `cbase64__encode_value`: the letters, the digits, `+` and `/`. */
  function EncodeValue(v: Byte): (c: Byte)
    requires v < 64
    ensures c != PAD && !Negative(c)
  {
    if v < 26 then 65 + v
    else if v < 52 then 97 + (v - 26)
    else if v < 62 then 48 + (v - 52)
    else if v == 62 then 43 else 47
  }

  /** The table `decoding`, 80 entries: 62 at 0, 63 at 4, 52 to 61 from 5, -2 at 18, 0 to 25 from 22, 26 to 51
      from 54, and -1 everywhere else. */
  function DecodingTable(i: Byte): Byte
    requires i < 80
  {
    if i == 0 then 62
    else if i == 4 then 63
    else if 5 <= i < 15 then 52 + (i - 5)
    else if i == 18 then 254
    else if 22 <= i < 48 then i - 22
    else if 54 <= i then 26 + (i - 54)
    else 255
  }

  /** `cbase64__decode_value`; the subtraction wraps. */
  function DecodeValue(c: Byte): Byte {
    var i := c - 43;
    if Negative(i) || i >= 80 then 255 else DecodingTable(i)
  }

  /** The decoder's values are those of the alphabet, and negative for every other character. */
  lemma AlphabetInverse(c: Byte, v: Byte)
    requires v < 64
    ensures DecodeValue(c) == v <==> c == EncodeValue(v)
    ensures Negative(DecodeValue(c)) || DecodeValue(c) < 64
  {
  }

  /** The alphabet of section 4 of RFC 4648: A to Z, a to z, 0 to 9, each in order, then `+` and `/`; `=` pads. */
  lemma AlphabetIs(v: Byte)
    requires v < 64
    ensures EncodeValue(0) == 65 && EncodeValue(26) == 97 && EncodeValue(52) == 48
    ensures EncodeValue(62) == 43 && EncodeValue(63) == 47 && PAD == 61
    ensures v != 0 && v != 26 && v != 52 && v < 62 ==> EncodeValue(v) == EncodeValue(v - 1) + 1
  {
  }

  // ----- Encoding, one byte at a time -----

  datatype Encoder = Encoder(step: Step, result: Byte)

  predicate EncoderValid(s: Encoder) {
    && s.step != StepD
    && (s.step == StepB ==> s.result & 0x30 == s.result)
    && (s.step == StepC ==> s.result & 0x3c == s.result)
  }

  /** The characters that a byte completes. */
  function EncodeOut(s: Encoder, fragment: Byte): (out: seq<Byte>)
    requires EncoderValid(s)
  {
    match s.step
    case StepA => [EncodeValue((fragment & 0xfc) >> 2)]
    case StepB => [EncodeValue(s.result | ((fragment & 0xf0) >> 4))]
    case StepC => [EncodeValue(s.result | ((fragment & 0xc0) >> 6)), EncodeValue(fragment & 0x3f)]
  }

  function EncodeNext(s: Encoder, fragment: Byte): (next: Encoder)
    requires EncoderValid(s)
    ensures EncoderValid(next)
  {
    match s.step
    case StepA => Encoder(StepB, (fragment & 0x03) << 4)
    case StepB => Encoder(StepC, (fragment & 0x0f) << 2)
    case StepC => Encoder(StepA, fragment & 0x3f)
  }

  function EncodeText(s: Encoder, bytes: seq<Byte>): seq<Byte>
    requires EncoderValid(s)
    decreases |bytes|
  {
    if bytes == [] then [] else EncodeOut(s, bytes[0]) + EncodeText(EncodeNext(s, bytes[0]), bytes[1..])
  }

  function EncodeState(s: Encoder, bytes: seq<Byte>): (next: Encoder)
    requires EncoderValid(s)
    ensures EncoderValid(next)
    decreases |bytes|
  {
    if bytes == [] then s else EncodeState(EncodeNext(s, bytes[0]), bytes[1..])
  }

  /** `cbase64_encode_blockend` */
  function EncodeEnd(s: Encoder): seq<Byte>
    requires EncoderValid(s)
  {
    match s.step
    case StepA => []
    case StepB => [EncodeValue(s.result), PAD, PAD]
    case StepC => [EncodeValue(s.result), PAD]
  }

  const START: Encoder := Encoder(StepA, 0)

  // ----- The text that section 4 of RFC 4648 defines -----

  /** Bit `k` of the input, bytes in order, the most significant bit of each first; zeros after the end. */
  function StreamBit(bytes: seq<Byte>, k: nat): bool {
    k / 8 < |bytes| && ByteBit(bytes[k / 8], k % 8)
  }

  function ByteBit(b: Byte, i: nat): bool
    requires i < 8
  {
    match i
    case 0 => b & 0x80 != 0
    case 1 => b & 0x40 != 0
    case 2 => b & 0x20 != 0
    case 3 => b & 0x10 != 0
    case 4 => b & 0x08 != 0
    case 5 => b & 0x04 != 0
    case 6 => b & 0x02 != 0
    case 7 => b & 0x01 != 0
  }

  function BitValue(on: bool, v: Byte): Byte {
    if on then v else 0
  }

  function Join(b5: bool, b4: bool, b3: bool, b2: bool, b1: bool, b0: bool): (v: Byte)
    ensures v < 64
  {
    BitValue(b5, 0x20) | BitValue(b4, 0x10) | BitValue(b3, 0x08) | BitValue(b2, 0x04)
    | BitValue(b1, 0x02) | BitValue(b0, 0x01)
  }

  /** The `j`-th group of six bits. */
  function Sextet(bytes: seq<Byte>, j: nat): (v: Byte)
    ensures v < 64
  {
    Join(StreamBit(bytes, 6 * j), StreamBit(bytes, 6 * j + 1), StreamBit(bytes, 6 * j + 2), StreamBit(bytes, 6 * j + 3),
         StreamBit(bytes, 6 * j + 4), StreamBit(bytes, 6 * j + 5))
  }

  /** Character `j` of the text: a group of six bits that starts within the input, or padding. */
  function TextChar(bytes: seq<Byte>, j: nat): Byte {
    if 6 * j < 8 * |bytes| then EncodeValue(Sextet(bytes, j)) else PAD
  }

  function TextLength(n: nat): nat {
    (n + 2) / 3 * 4
  }

  function Text(bytes: seq<Byte>): (t: seq<Byte>) {
    seq(TextLength(|bytes|), j requires 0 <= j => TextChar(bytes, j))
  }

  lemma ShiftBit(bytes: seq<Byte>, k: nat)
    requires |bytes| >= 3
    ensures StreamBit(bytes, k + 24) == StreamBit(bytes[3..], k)
  {
    assert (k + 24) / 8 == k / 8 + 3 && (k + 24) % 8 == k % 8;
  }

  lemma ShiftChar(bytes: seq<Byte>, j: nat)
    requires |bytes| >= 3
    ensures TextChar(bytes, j + 4) == TextChar(bytes[3..], j)
  {
    hide StreamBit, BitValue, EncodeValue;
    ShiftBit(bytes, 6 * j);
    ShiftBit(bytes, 6 * j + 1);
    ShiftBit(bytes, 6 * j + 2);
    ShiftBit(bytes, 6 * j + 3);
    ShiftBit(bytes, 6 * j + 4);
    ShiftBit(bytes, 6 * j + 5);
  }

  lemma PrefixBit(bytes: seq<Byte>, k: nat)
    requires |bytes| >= 3 && k < 24
    ensures StreamBit(bytes, k) == StreamBit(bytes[..3], k)
  {
  }

  lemma PrefixChar(bytes: seq<Byte>, j: nat)
    requires |bytes| >= 3 && j < 4
    ensures TextChar(bytes, j) == TextChar(bytes[..3], j)
  {
    hide StreamBit, BitValue, EncodeValue;
    PrefixBit(bytes, 6 * j);
    PrefixBit(bytes, 6 * j + 1);
    PrefixBit(bytes, 6 * j + 2);
    PrefixBit(bytes, 6 * j + 3);
    PrefixBit(bytes, 6 * j + 4);
    PrefixBit(bytes, 6 * j + 5);
  }

  /** Three bytes make four characters, and do not touch the rest. */
  lemma TextStep(bytes: seq<Byte>)
    requires |bytes| >= 3
    ensures Text(bytes) == Text(bytes[..3]) + Text(bytes[3..])
  {
    hide TextChar;
    forall j: nat | j < 4 ensures TextChar(bytes, j) == TextChar(bytes[..3], j) {
      PrefixChar(bytes, j);
    }
    forall j: nat | 4 <= j < TextLength(|bytes|) ensures Text(bytes)[j] == Text(bytes[3..])[j - 4] {
      ShiftChar(bytes, j - 4);
    }
    assert TextLength(|bytes|) == 4 + TextLength(|bytes| - 3);
  }

  // ----- The coder makes that text -----

  /** The four groups of six bits in three bytes. */
  function First(a: Byte): (v: Byte)
    ensures v < 64
  {
    (a & 0xfc) >> 2
  }

  function Second(a: Byte, b: Byte): (v: Byte)
    ensures v < 64
  {
    ((a & 0x03) << 4) | ((b & 0xf0) >> 4)
  }

  function Third(b: Byte, c: Byte): (v: Byte)
    ensures v < 64
  {
    ((b & 0x0f) << 2) | ((c & 0xc0) >> 6)
  }

  function Fourth(c: Byte): (v: Byte)
    ensures v < 64
  {
    c & 0x3f
  }

  lemma JoinFirst(a: Byte)
    ensures Join(ByteBit(a, 0), ByteBit(a, 1), ByteBit(a, 2), ByteBit(a, 3), ByteBit(a, 4), ByteBit(a, 5)) == First(a)
  {
  }

  lemma JoinSecond(a: Byte, b: Byte)
    ensures Join(ByteBit(a, 6), ByteBit(a, 7), ByteBit(b, 0), ByteBit(b, 1), ByteBit(b, 2), ByteBit(b, 3))
            == Second(a, b)
  {
  }

  lemma JoinThird(b: Byte, c: Byte)
    ensures Join(ByteBit(b, 4), ByteBit(b, 5), ByteBit(b, 6), ByteBit(b, 7), ByteBit(c, 0), ByteBit(c, 1))
            == Third(b, c)
  {
  }

  lemma JoinFourth(c: Byte)
    ensures Join(ByteBit(c, 2), ByteBit(c, 3), ByteBit(c, 4), ByteBit(c, 5), ByteBit(c, 6), ByteBit(c, 7)) == Fourth(c)
  {
  }

  /** The byte at a position, zero after the end. */
  function ByteAt(bytes: seq<Byte>, i: nat): Byte {
    if i < |bytes| then bytes[i] else 0
  }

  lemma BitOf(bytes: seq<Byte>, i: nat, k: nat)
    requires k < 8
    ensures StreamBit(bytes, 8 * i + k) == ByteBit(ByteAt(bytes, i), k)
  {
    assert (8 * i + k) / 8 == i && (8 * i + k) % 8 == k;
  }

  lemma BitsOf(bytes: seq<Byte>, i: nat)
    ensures var b := ByteAt(bytes, i);
      && StreamBit(bytes, 8 * i) == ByteBit(b, 0) && StreamBit(bytes, 8 * i + 1) == ByteBit(b, 1)
      && StreamBit(bytes, 8 * i + 2) == ByteBit(b, 2) && StreamBit(bytes, 8 * i + 3) == ByteBit(b, 3)
      && StreamBit(bytes, 8 * i + 4) == ByteBit(b, 4) && StreamBit(bytes, 8 * i + 5) == ByteBit(b, 5)
      && StreamBit(bytes, 8 * i + 6) == ByteBit(b, 6) && StreamBit(bytes, 8 * i + 7) == ByteBit(b, 7)
  {
    hide StreamBit, ByteBit, ByteAt;
    BitOf(bytes, i, 0);
    BitOf(bytes, i, 1);
    BitOf(bytes, i, 2);
    BitOf(bytes, i, 3);
    BitOf(bytes, i, 4);
    BitOf(bytes, i, 5);
    BitOf(bytes, i, 6);
    BitOf(bytes, i, 7);
  }

  /** The six-bit groups of the first three bytes; the bytes after the input count as zero. */
  lemma Sextets(bytes: seq<Byte>)
    ensures Sextet(bytes, 0) == First(ByteAt(bytes, 0))
    ensures Sextet(bytes, 1) == Second(ByteAt(bytes, 0), ByteAt(bytes, 1))
    ensures Sextet(bytes, 2) == Third(ByteAt(bytes, 1), ByteAt(bytes, 2))
    ensures Sextet(bytes, 3) == Fourth(ByteAt(bytes, 2))
  {
    hide StreamBit, ByteBit, Join, ByteAt, First, Second, Third, Fourth;
    BitsOf(bytes, 0);
    BitsOf(bytes, 1);
    BitsOf(bytes, 2);
    JoinFirst(ByteAt(bytes, 0));
    JoinSecond(ByteAt(bytes, 0), ByteAt(bytes, 1));
    JoinThird(ByteAt(bytes, 1), ByteAt(bytes, 2));
    JoinFourth(ByteAt(bytes, 2));
  }

  lemma EncodeOne(s: Encoder, x: Byte, rest: seq<Byte>)
    requires EncoderValid(s)
    ensures EncodeText(s, [x] + rest) == EncodeOut(s, x) + EncodeText(EncodeNext(s, x), rest)
    ensures EncodeState(s, [x] + rest) == EncodeState(EncodeNext(s, x), rest)
  {
    assert ([x] + rest)[1..] == rest;
  }

  lemma ShortText(bytes: seq<Byte>)
    requires 0 < |bytes| <= 3
    ensures Text(bytes) == [
      EncodeValue(Sextet(bytes, 0)), EncodeValue(Sextet(bytes, 1)),
      if |bytes| > 1 then EncodeValue(Sextet(bytes, 2)) else PAD,
      if |bytes| > 2 then EncodeValue(Sextet(bytes, 3)) else PAD]
  {
    hide Sextet, EncodeValue;
  }

  /** Three bytes as one number of 24 bits. */
  function Number(a: Byte, b: Byte, c: Byte): (n: bv32)
    ensures n < 0x100_0000
  {
    (a as bv32 << 16) | (b as bv32 << 8) | c as bv32
  }

  /** A digit of the number in base 64, the highest first. */
  function Digit(n: bv32, i: nat): (v: Byte)
    requires n < 0x100_0000 && i < 4
    ensures v < 64
  {
    match i
    case 0 => (n >> 18) as Byte
    case 1 => ((n >> 12) & 63) as Byte
    case 2 => ((n >> 6) & 63) as Byte
    case 3 => (n & 63) as Byte
  }

  lemma DigitsAre(a: Byte, b: Byte, c: Byte)
    ensures
      var n := Number(a, b, c);
      First(a) == Digit(n, 0) && Second(a, b) == Digit(n, 1) && Third(b, c) == Digit(n, 2) && Fourth(c) == Digit(n, 3)
  {
  }

  /** The text of a group is its number in base 64, with padding for the bytes that are not there. */
  lemma GroupIs(bytes: seq<Byte>)
    requires 0 < |bytes| <= 3
    ensures
      var n := Number(bytes[0], if |bytes| > 1 then bytes[1] else 0, if |bytes| > 2 then bytes[2] else 0);
      Text(bytes) == [
        EncodeValue(Digit(n, 0)), EncodeValue(Digit(n, 1)),
        if |bytes| > 1 then EncodeValue(Digit(n, 2)) else PAD,
        if |bytes| > 2 then EncodeValue(Digit(n, 3)) else PAD]
  {
    hide EncodeValue, Sextet, Text, Digit, Number, First, Second, Third, Fourth;
    Sextets(bytes);
    ShortText(bytes);
    DigitsAre(ByteAt(bytes, 0), ByteAt(bytes, 1), ByteAt(bytes, 2));
  }

  lemma EncodeSteps(s: Encoder, a: Byte, b: Byte, c: Byte)
    requires s.step == StepA && EncoderValid(s)
    ensures EncodeOut(s, a) == [EncodeValue(First(a))]
    ensures EncodeNext(s, a).step == StepB && EncodeOut(EncodeNext(s, a), b) == [EncodeValue(Second(a, b))]
    ensures EncodeNext(EncodeNext(s, a), b).step == StepC
    ensures EncodeOut(EncodeNext(EncodeNext(s, a), b), c) == [EncodeValue(Third(b, c)), EncodeValue(Fourth(c))]
    ensures EncodeNext(EncodeNext(EncodeNext(s, a), b), c).step == StepA
    ensures EncodeEnd(EncodeNext(s, a)) == [EncodeValue(Second(a, 0)), PAD, PAD]
    ensures EncodeEnd(EncodeNext(EncodeNext(s, a), b)) == [EncodeValue(Third(b, 0)), PAD]
  {
    hide EncodeValue;
  }

  lemma ThreeBytes(s: Encoder, a: Byte, b: Byte, c: Byte)
    requires s.step == StepA && EncoderValid(s)
    ensures EncodeText(s, [a, b, c]) ==
            [EncodeValue(First(a)), EncodeValue(Second(a, b)), EncodeValue(Third(b, c)), EncodeValue(Fourth(c))]
    ensures EncodeState(s, [a, b, c]).step == StepA
  {
    hide EncodeValue, EncodeOut, EncodeNext, EncodeEnd, First, Second, Third, Fourth;
    EncodeSteps(s, a, b, c);
    assert [a, b, c] == [a] + [b, c] && [b, c] == [b] + [c] && [c] == [c] + [];
    EncodeOne(s, a, [b, c]);
    var s1 := EncodeNext(s, a);
    EncodeOne(s1, b, [c]);
    var s2 := EncodeNext(s1, b);
    EncodeOne(s2, c, []);
  }

  lemma TwoBytes(s: Encoder, a: Byte, b: Byte)
    requires s.step == StepA && EncoderValid(s)
    ensures EncodeText(s, [a, b]) + EncodeEnd(EncodeState(s, [a, b])) ==
            [EncodeValue(First(a)), EncodeValue(Second(a, b)), EncodeValue(Third(b, 0)), PAD]
  {
    hide EncodeValue, EncodeOut, EncodeNext, EncodeEnd, First, Second, Third, Fourth;
    EncodeSteps(s, a, b, 0);
    assert [a, b] == [a] + [b] && [b] == [b] + [];
    EncodeOne(s, a, [b]);
    EncodeOne(EncodeNext(s, a), b, []);
  }

  lemma OneByte(s: Encoder, a: Byte)
    requires s.step == StepA && EncoderValid(s)
    ensures EncodeText(s, [a]) + EncodeEnd(EncodeState(s, [a])) ==
      [EncodeValue(First(a)), EncodeValue(Second(a, 0)), PAD, PAD]
  {
    hide EncodeValue, EncodeOut, EncodeNext, EncodeEnd, First, Second, Third, Fourth;
    EncodeSteps(s, a, 0, 0);
    assert [a] == [a] + [];
    EncodeOne(s, a, []);
  }

  /** A last group of one to three bytes. */
  lemma GroupText(s: Encoder, bytes: seq<Byte>)
    requires s.step == StepA && EncoderValid(s) && 0 < |bytes| <= 3
    ensures EncodeText(s, bytes) + EncodeEnd(EncodeState(s, bytes)) == Text(bytes)
    ensures |bytes| == 3 ==> EncodeState(s, bytes).step == StepA
  {
    hide EncodeValue, EncodeText, EncodeState, Sextet, Text, First, Second, Third, Fourth;
    Sextets(bytes);
    ShortText(bytes);
    if |bytes| == 1 {
      assert bytes == [bytes[0]];
      OneByte(s, bytes[0]);
    } else if |bytes| == 2 {
      assert bytes == [bytes[0], bytes[1]];
      TwoBytes(s, bytes[0], bytes[1]);
    } else {
      assert bytes == [bytes[0], bytes[1], bytes[2]];
      ThreeBytes(s, bytes[0], bytes[1], bytes[2]);
    }
  }

  /** The first chunk of input leaves a state from which the rest is encoded as if they came together. */
  lemma {:induction false} EncodeAppend(s: Encoder, first: seq<Byte>, rest: seq<Byte>)
    requires EncoderValid(s)
    ensures EncodeText(s, first + rest) == EncodeText(s, first) + EncodeText(EncodeState(s, first), rest)
    ensures EncodeState(s, first + rest) == EncodeState(EncodeState(s, first), rest)
    decreases |first|
  {
    hide EncodeOut, EncodeNext, EncoderValid;
    if first == [] {
      assert first + rest == rest;
    } else {
      assert (first + rest)[1..] == first[1..] + rest;
      EncodeAppend(EncodeNext(s, first[0]), first[1..], rest);
    }
  }

  lemma EmptyText(s: Encoder)
    requires s.step == StepA && EncoderValid(s)
    ensures EncodeText(s, []) + EncodeEnd(EncodeState(s, [])) == Text([])
  {
  }

  /** The coder makes the text of the standard. */
  lemma {:induction false} EncodesText(s: Encoder, bytes: seq<Byte>)
    requires s.step == StepA && EncoderValid(s)
    ensures EncodeText(s, bytes) + EncodeEnd(EncodeState(s, bytes)) == Text(bytes)
    decreases |bytes|
  {
    hide Text, EncodeText, EncodeState;
    if bytes == [] {
      EmptyText(s);
    } else if |bytes| <= 3 {
      GroupText(s, bytes);
    } else {
      var first, rest := bytes[..3], bytes[3..];
      var mid := EncodeState(s, first);
      TextStep(bytes);
      GroupText(s, first);
      EncodesText(mid, rest);
      assert bytes == first + rest;
      EncodeAppend(s, first, rest);
      calc {
        EncodeText(s, bytes) + EncodeEnd(EncodeState(s, bytes));
      ==
        (EncodeText(s, first) + EncodeText(mid, rest)) + EncodeEnd(EncodeState(mid, rest));
      ==
        EncodeText(s, first) + (EncodeText(mid, rest) + EncodeEnd(EncodeState(mid, rest)));
      ==
        Text(first) + Text(rest);
      }
    }
  }

  /** However the input is split, the texts of the parts and the end make the same text. */
  function EncodeChunks(s: Encoder, chunks: seq<seq<Byte>>): seq<Byte>
    requires EncoderValid(s)
    decreases |chunks|
  {
    if chunks == [] then EncodeEnd(s)
    else EncodeText(s, chunks[0]) + EncodeChunks(EncodeState(s, chunks[0]), chunks[1..])
  }

  function Concat(chunks: seq<seq<Byte>>): seq<Byte> {
    if chunks == [] then [] else chunks[0] + Concat(chunks[1..])
  }

  lemma {:induction false} ChunksJoin(s: Encoder, chunks: seq<seq<Byte>>)
    requires EncoderValid(s)
    ensures EncodeChunks(s, chunks) == EncodeText(s, Concat(chunks)) + EncodeEnd(EncodeState(s, Concat(chunks)))
    decreases |chunks|
  {
    if chunks != [] {
      var rest := Concat(chunks[1..]);
      ChunksJoin(EncodeState(s, chunks[0]), chunks[1..]);
      EncodeAppend(s, chunks[0], rest);
    }
  }

  /** Any way to feed the bytes gives the text of the standard for all of them. */
  lemma AnySplitEncodes(chunks: seq<seq<Byte>>)
    ensures EncodeChunks(START, chunks) == Text(Concat(chunks))
  {
    ChunksJoin(START, chunks);
    EncodesText(START, Concat(chunks));
  }

  // ----- Lengths, in 32-bit arithmetic -----

  const WORD: nat := 0x1_0000_0000

  /** `cbase64_calc_encoded_length` */
  function CalcEncodedLength(n: nat): nat
    requires n < WORD
  {
    (4 * (n / 3) + if n % 3 != 0 then 4 else 0) % WORD
  }

  /** The computed length is the length of the text, up to the last input whose text has a length that
      fits in 32 bits. */
  lemma EncodedLengthIff(bytes: seq<Byte>)
    requires |bytes| < WORD
    ensures CalcEncodedLength(|bytes|) == |Text(bytes)| <==> |bytes| <= 3_221_225_469
  {
    var n := |bytes|;
    assert (n + 2) / 3 == n / 3 + if n % 3 != 0 then 1 else 0;
  }

  /** `cbase64_calc_decoded_length` */
  function CalcDecodedLength(code: seq<Byte>): nat
    requires |code| < WORD
  {
    if |code| == 0 || |code| % 4 != 0 then 0
    else 3 * (|code| / 4) - (if code[|code| - 2] == PAD then 1 else 0) - if code[|code| - 1] == PAD then 1 else 0
  }

  lemma DecodedLengthIs(bytes: seq<Byte>)
    requires |Text(bytes)| < WORD
    ensures CalcDecodedLength(Text(bytes)) == |bytes|
  {
    var n, t := |bytes|, Text(bytes);
    hide EncodeValue, Sextet;
    if n > 0 {
      assert t[|t| - 1] == TextChar(bytes, |t| - 1) && t[|t| - 2] == TextChar(bytes, |t| - 2);
    }
  }

  // ----- Decoding, one character at a time -----

  /** `partial` is the byte at the output position, which step B completes. */
  datatype Decoder = Decoder(step: Step, overwrite: Byte, partial: Byte)

  // How the six bits of a character go into the bytes at each step.

  function BeginBits(f: Byte): Byte {
    (f & 0x3f) << 2
  }

  function BitsAtB(partial: Byte, f: Byte): Byte {
    partial | ((f & 0x30) >> 4)
  }

  function CarryAtB(f: Byte): Byte {
    (f & 0x0f) << 4
  }

  function BitsAtC(overwrite: Byte, f: Byte): Byte {
    overwrite | ((f & 0x3c) >> 2)
  }

  function CarryAtC(f: Byte): Byte {
    (f & 0x03) << 6
  }

  function BitsAtD(overwrite: Byte, f: Byte): Byte {
    overwrite | (f & 0x3f)
  }

  function DecodeOut(s: Decoder, c: Byte): seq<Byte> {
    var f := DecodeValue(c);
    if Negative(f) then []
    else
      match s.step
      case StepA => []
      case StepB => [BitsAtB(s.partial, f)]
      case StepC => [BitsAtC(s.overwrite, f)]
      case StepD => [BitsAtD(s.overwrite, f)]
  }

  function DecodeNext(s: Decoder, c: Byte): Decoder {
    var f := DecodeValue(c);
    if Negative(f) then s
    else
      match s.step
      case StepA => Decoder(StepB, s.overwrite, BeginBits(f))
      case StepB => Decoder(StepC, CarryAtB(f), s.partial)
      case StepC => Decoder(StepD, CarryAtC(f), s.partial)
      case StepD => Decoder(StepA, s.overwrite, s.partial)
  }

  function DecodeBytes(s: Decoder, code: seq<Byte>): seq<Byte>
    decreases |code|
  {
    if code == [] then [] else DecodeOut(s, code[0]) + DecodeBytes(DecodeNext(s, code[0]), code[1..])
  }

  function DecodeState(s: Decoder, code: seq<Byte>): Decoder
    decreases |code|
  {
    if code == [] then s else DecodeState(DecodeNext(s, code[0]), code[1..])
  }

  lemma DecodeOne(s: Decoder, c: Byte, rest: seq<Byte>)
    ensures DecodeBytes(s, [c] + rest) == DecodeOut(s, c) + DecodeBytes(DecodeNext(s, c), rest)
    ensures DecodeState(s, [c] + rest) == DecodeState(DecodeNext(s, c), rest)
  {
    assert ([c] + rest)[1..] == rest;
  }

  lemma {:induction false} DecodeAppend(s: Decoder, first: seq<Byte>, rest: seq<Byte>)
    ensures DecodeBytes(s, first + rest) == DecodeBytes(s, first) + DecodeBytes(DecodeState(s, first), rest)
    ensures DecodeState(s, first + rest) == DecodeState(DecodeState(s, first), rest)
    decreases |first|
  {
    if first == [] {
      assert first + rest == rest;
    } else {
      assert (first + rest)[1..] == first[1..] + rest;
      DecodeAppend(DecodeNext(s, first[0]), first[1..], rest);
    }
  }

  // ----- The decoder gives the bytes back -----

  lemma DecodeSteps(s: Decoder, a: Byte, b: Byte, c: Byte)
    requires s.step == StepA
    ensures DecodeOut(s, EncodeValue(First(a))) == []
    ensures var s1 := DecodeNext(s, EncodeValue(First(a)));
      && s1.step == StepB && DecodeOut(s1, EncodeValue(Second(a, b))) == [a]
      && var s2 := DecodeNext(s1, EncodeValue(Second(a, b)));
         && s2.step == StepC && DecodeOut(s2, EncodeValue(Third(b, c))) == [b]
         && var s3 := DecodeNext(s2, EncodeValue(Third(b, c)));
            && s3.step == StepD && DecodeOut(s3, EncodeValue(Fourth(c))) == [c]
            && DecodeNext(s3, EncodeValue(Fourth(c))).step == StepA
  {
    AlphabetInverse(EncodeValue(First(a)), First(a));
    AlphabetInverse(EncodeValue(Second(a, b)), Second(a, b));
    AlphabetInverse(EncodeValue(Third(b, c)), Third(b, c));
    AlphabetInverse(EncodeValue(Fourth(c)), Fourth(c));
    hide EncodeValue, DecodeValue;
  }

  /** Padding, like any character outside the alphabet, is skipped. */
  lemma PadSkipped(s: Decoder)
    ensures DecodeOut(s, PAD) == [] && DecodeNext(s, PAD) == s
  {
  }

  lemma DecodeFour(s: Decoder, c0: Byte, c1: Byte, c2: Byte, c3: Byte)
    ensures
      var s1 := DecodeNext(s, c0);
      var s2 := DecodeNext(s1, c1);
      var s3 := DecodeNext(s2, c2);
      && DecodeBytes(s, [c0, c1, c2, c3]) == DecodeOut(s, c0) + DecodeOut(s1, c1) + DecodeOut(s2, c2) +
          DecodeOut(s3, c3)
      && DecodeState(s, [c0, c1, c2, c3]) == DecodeNext(s3, c3)
  {
    hide DecodeOut, DecodeNext;
    var s1 := DecodeNext(s, c0);
    var s2 := DecodeNext(s1, c1);
    var s3 := DecodeNext(s2, c2);
    assert [c0, c1, c2, c3] == [c0] + [c1, c2, c3] && [c1, c2, c3] == [c1] + [c2, c3] && [c2, c3] == [c2] + [c3];
    assert [c3] == [c3] + [];
    DecodeOne(s, c0, [c1, c2, c3]);
    DecodeOne(s1, c1, [c2, c3]);
    DecodeOne(s2, c2, [c3]);
    DecodeOne(s3, c3, []);
  }

  lemma DecodeGroup(s: Decoder, bytes: seq<Byte>)
    requires s.step == StepA && 0 < |bytes| <= 3
    ensures DecodeBytes(s, Text(bytes)) == bytes
    ensures |bytes| == 3 ==> DecodeState(s, Text(bytes)).step == StepA
  {
    hide EncodeValue, DecodeOut, DecodeNext, DecodeBytes, DecodeState, Sextet, Text, First, Second, Third, Fourth;
    Sextets(bytes);
    ShortText(bytes);
    var a, b, c := ByteAt(bytes, 0), ByteAt(bytes, 1), ByteAt(bytes, 2);
    DecodeSteps(s, a, b, c);
    var t := Text(bytes);
    DecodeFour(s, t[0], t[1], t[2], t[3]);
    assert t == [t[0], t[1], t[2], t[3]];
    var s2 := DecodeNext(DecodeNext(s, t[0]), t[1]);
    PadSkipped(s2);
    PadSkipped(DecodeNext(s2, t[2]));
    assert bytes == if |bytes| == 1 then [a] else if |bytes| == 2 then [a, b] else [a, b, c];
  }

  lemma DecodesNothing(s: Decoder)
    ensures DecodeBytes(s, Text([])) == []
  {
  }

  /** Decoding the text of any bytes gives the bytes. */
  lemma {:induction false} DecodesText(s: Decoder, bytes: seq<Byte>)
    requires s.step == StepA
    ensures DecodeBytes(s, Text(bytes)) == bytes
    decreases |bytes|
  {
    hide Text, DecodeBytes, DecodeState;
    if bytes == [] {
      DecodesNothing(s);
    } else if |bytes| <= 3 {
      DecodeGroup(s, bytes);
    } else {
      var first, rest := bytes[..3], bytes[3..];
      TextStep(bytes);
      DecodeGroup(s, first);
      DecodeAppend(s, Text(first), Text(rest));
      DecodesText(DecodeState(s, Text(first)), rest);
      assert bytes == first + rest;
    }
  }

  /** The byte at the output position matters at step B only. */
  predicate Alike(s: Decoder, s': Decoder) {
    s.step == s'.step && s.overwrite == s'.overwrite && (s.step == StepB ==> s.partial == s'.partial)
  }

  lemma {:induction false} AlikeDecode(s: Decoder, s': Decoder, code: seq<Byte>)
    requires Alike(s, s')
    ensures DecodeBytes(s, code) == DecodeBytes(s', code) && Alike(DecodeState(s, code), DecodeState(s', code))
    decreases |code|
  {
    hide DecodeValue, BeginBits, BitsAtB, CarryAtB, BitsAtC, CarryAtC, BitsAtD, Negative;
    if code != [] {
      AlikeDecode(DecodeNext(s, code[0]), DecodeNext(s', code[0]), code[1..]);
    }
  }

  /** What several calls give together, when call `j` starts with `states[j]`. */
  function DecodeChunks(states: seq<Decoder>, chunks: seq<seq<Byte>>): seq<Byte>
    requires |states| == |chunks|
    decreases |chunks|
  {
    if chunks == [] then [] else DecodeBytes(states[0], chunks[0]) + DecodeChunks(states[1..], chunks[1..])
  }

  /** Every call starts with the state that the one before saved, and with the byte that it began. */
  ghost predicate Resumed(states: seq<Decoder>, chunks: seq<seq<Byte>>)
    requires |states| == |chunks|
  {
    forall j {:trigger states[j]} :: 0 < j < |chunks| ==> Alike(states[j], DecodeState(states[j - 1], chunks[j - 1]))
  }

  lemma {:induction false} ChunksDecode(states: seq<Decoder>, chunks: seq<seq<Byte>>)
    requires |states| == |chunks| > 0 && Resumed(states, chunks)
    ensures DecodeChunks(states, chunks) == DecodeBytes(states[0], Concat(chunks))
    decreases |chunks|
  {
    hide DecodeState, Alike, DecodeBytes;
    var rest := Concat(chunks[1..]);
    DecodeAppend(states[0], chunks[0], rest);
    if |chunks| == 1 {
      NoMore(DecodeState(states[0], chunks[0]));
    } else {
      assert forall j {:trigger states[1..][j]} :: 0 <= j < |chunks| - 1 ==> states[1..][j] == states[j + 1];
      ChunksDecode(states[1..], chunks[1..]);
      AlikeDecode(states[1], DecodeState(states[0], chunks[0]), rest);
    }
  }

  lemma NoMore(s: Decoder)
    ensures DecodeBytes(s, []) == []
  {
  }

  /** However the text is cut into parts, the calls give the bytes. */
  lemma AnySplitDecodes(states: seq<Decoder>, chunks: seq<seq<Byte>>, bytes: seq<Byte>)
    requires |states| == |chunks| > 0 && Resumed(states, chunks)
    requires states[0].step == StepA && Concat(chunks) == Text(bytes)
    ensures DecodeChunks(states, chunks) == bytes
  {
    ChunksDecode(states, chunks);
    DecodesText(states[0], bytes);
  }

  /** Characters outside the alphabet may be anywhere in the text. */
  function Significant(code: seq<Byte>): seq<Byte> {
    if code == [] then []
    else (if Negative(DecodeValue(code[0])) then [] else [code[0]]) + Significant(code[1..])
  }

  lemma {:induction false} OthersSkipped(s: Decoder, code: seq<Byte>)
    ensures DecodeBytes(s, code) == DecodeBytes(s, Significant(code))
    ensures DecodeState(s, code) == DecodeState(s, Significant(code))
    decreases |code|
  {
    hide DecodeOut, DecodeNext, DecodeValue;
    if code != [] {
      var c, rest := code[0], code[1..];
      OthersSkipped(DecodeNext(s, c), rest);
      SkipsNegative(s, c);
      DecodeOne(s, c, rest);
      DecodeOne(s, c, Significant(rest));
      assert code == [c] + rest;
      assert Negative(DecodeValue(c)) ==> Significant(code) == Significant(rest);
    }
  }

  lemma SkipsNegative(s: Decoder, c: Byte)
    ensures Negative(DecodeValue(c)) ==> DecodeOut(s, c) == [] && DecodeNext(s, c) == s
  {
  }

  /** Text that decodes with line breaks and the like in it: whatever the bytes were encoded from. */
  lemma DecodesWithOthers(s: Decoder, bytes: seq<Byte>, code: seq<Byte>)
    requires s.step == StepA && Significant(code) == Significant(Text(bytes))
    ensures DecodeBytes(s, code) == bytes
  {
    OthersSkipped(s, code);
    OthersSkipped(s, Text(bytes));
    DecodesText(s, bytes);
  }

  // ----- The functions on buffers -----

  class EncodeStateIn {
    var step: Step
    var result: Byte

    /** `cbase64_init_encodestate` */
    constructor ()
      ensures Value() == START
    {
      step, result := StepA, 0;
    }

    function Value(): Encoder
      reads this
    {
      Encoder(step, result)
    }
  }

  class DecodeStateIn {
    var step: Step
    var result: Byte

    /** `cbase64_init_decodestate` */
    constructor ()
      ensures step == StepA && result == 0
    {
      step, result := StepA, 0;
    }
  }

  /** `after` is `before` with `s` written at `at`. */
  ghost predicate Wrote(before: seq<Byte>, after: seq<Byte>, at: nat, s: seq<Byte>) {
    at + |s| <= |before| && after == before[..at] + s + before[at + |s|..]
  }

  lemma WroteThen(b0: seq<Byte>, b1: seq<Byte>, b2: seq<Byte>, at: nat, s: seq<Byte>, s': seq<Byte>)
    requires Wrote(b0, b1, at, s) && Wrote(b1, b2, at + |s|, s')
    ensures Wrote(b0, b2, at, s + s')
  {
    assert b1[..at + |s|] == b0[..at] + s;
    assert b1[at + |s| + |s'|..] == b0[at + |s| + |s'|..];
  }

  /** `*codechar++ = v` */
  method Put(code: array<Byte>, at: nat, v: Byte, ghost before: seq<Byte>, ghost from: nat, ghost done: seq<Byte>)
    requires at == from + |done| < code.Length == |before| && Wrote(before, code[..], from, done)
    modifies code
    ensures Wrote(before, code[..], from, done + [v])
  {
    code[at] := v;
  }

  /** One case of the switch: takes a byte and puts the characters it completes. */
  method EncodeCase(code: array<Byte>, at: nat, s: Encoder, fragment: Byte, ghost before: seq<Byte>, ghost from: nat,
                    ghost done: seq<Byte>)
    returns (next: Encoder, out: nat)
    requires EncoderValid(s) && at == from + |done| && at + |EncodeOut(s, fragment)| <= code.Length == |before|
    requires Wrote(before, code[..], from, done)
    modifies code
    ensures next == EncodeNext(s, fragment) && out == at + |EncodeOut(s, fragment)|
    ensures Wrote(before, code[..], from, done + EncodeOut(s, fragment))
  {
    hide Wrote, EncodeValue;
    var result := s.result;
    match s.step {
      case StepA =>
        result := (fragment & 0xfc) >> 2;
        Put(code, at, EncodeValue(result), before, from, done);
        result := (fragment & 0x03) << 4;
        next, out := Encoder(StepB, result), at + 1;
      case StepB =>
        result := result | ((fragment & 0xf0) >> 4);
        Put(code, at, EncodeValue(result), before, from, done);
        result := (fragment & 0x0f) << 2;
        next, out := Encoder(StepC, result), at + 1;
      case StepC =>
        result := result | ((fragment & 0xc0) >> 6);
        ghost var third := EncodeValue(result);
        Put(code, at, EncodeValue(result), before, from, done);
        result := fragment & 0x3f;
        Put(code, at + 1, EncodeValue(result), before, from, done + [third]);
        assert done + [third] + [EncodeValue(result)] == done + [third, EncodeValue(result)];
        next, out := Encoder(StepA, result), at + 2;
    }
  }

  /** `cbase64_encode_block`: the switch into the loop resumes at the saved step. */
  method EncodeBlock(data: seq<Byte>, code: array<Byte>, at: nat, state: EncodeStateIn) returns (length: nat)
    requires EncoderValid(state.Value()) && at + |EncodeText(state.Value(), data)| <= code.Length
    modifies code, state
    ensures length == |EncodeText(old(state.Value()), data)|
    ensures Wrote(old(code[..]), code[..], at, EncodeText(old(state.Value()), data))
    ensures state.Value() == EncodeState(old(state.Value()), data)
  {
    hide Wrote, EncodeOut, EncodeNext, EncodeText, EncodeState;
    ghost var s0, before := state.Value(), code[..];
    ghost var done := [];
    var s := Encoder(state.step, state.result);
    var i, out := 0, at;
    NothingWrote(before, at);
    NothingEncoded(s0, data);
    while i < |data|
      invariant 0 <= i <= |data| && unchanged(state) && EncoderValid(s) && out == at + |done|
      invariant EncodeText(s0, data) == done + EncodeText(s, data[i..])
      invariant EncodeState(s0, data) == EncodeState(s, data[i..])
      invariant Wrote(before, code[..], at, done)
    {
      var fragment := data[i];
      assert data[i..] == [fragment] + data[i + 1..];
      EncodeOne(s, fragment, data[i + 1..]);
      ghost var put := EncodeOut(s, fragment);
      s, out := EncodeCase(code, out, s, fragment, before, at, done);
      done := done + put;
      i := i + 1;
    }
    assert data[i..] == [] && done + [] == done;
    NothingEncoded(s, []);
    state.step, state.result := s.step, s.result;
    length := out - at;
  }

  lemma NothingWrote(before: seq<Byte>, at: nat)
    ensures at <= |before| ==> Wrote(before, before, at, [])
  {
  }

  lemma NothingEncoded(s: Encoder, data: seq<Byte>)
    requires EncoderValid(s)
    ensures EncodeText(s, []) == [] && EncodeState(s, []) == s && data[0..] == data
  {
  }

  /** `cbase64_encode_blockend` */
  method EncodeBlockEnd(code: array<Byte>, at: nat, state: EncodeStateIn) returns (length: nat)
    requires EncoderValid(state.Value()) && at + |EncodeEnd(state.Value())| <= code.Length
    modifies code
    ensures length == |EncodeEnd(state.Value())| && Wrote(old(code[..]), code[..], at, EncodeEnd(state.Value()))
  {
    match state.step {
      case StepA =>
        length := 0;
      case StepB =>
        code[at], code[at + 1], code[at + 2] := EncodeValue(state.result), PAD, PAD;
        length := 3;
      case StepC =>
        code[at], code[at + 1] := EncodeValue(state.result), PAD;
        length := 2;
    }
  }

  /** What the buffer holds when `bytes` were decoded from position `from` on and the decoder is at `s`:
      at step B the next byte is there already, in part. */
  ghost predicate Decoded(before: seq<Byte>, after: seq<Byte>, from: nat, bytes: seq<Byte>, s: Decoder) {
    var at := from + |bytes|;
    && at <= |before| == |after|
    && after[..at] == before[..from] + bytes
    && (s.step == StepB ==> at < |after| && after[at] == s.partial && after[at + 1..] == before[at + 1..])
    && (s.step != StepB ==> after[at..] == before[at..])
  }

  /** How much room the rest of the code needs: its bytes, and one begun. */
  function Room(s: Decoder, code: seq<Byte>): nat {
    |DecodeBytes(s, code)| + if DecodeState(s, code).step == StepB then 1 else 0
  }

  /** Whatever is begun is either completed or still begun at the end. */
  lemma {:induction false} BegunNeedsRoom(s: Decoder, code: seq<Byte>)
    requires s.step == StepB
    ensures Room(s, code) > 0
    decreases |code|
  {
    if code != [] && Negative(DecodeValue(code[0])) {
      BegunNeedsRoom(s, code[1..]);
    }
  }

  lemma CharNeedsRoom(s: Decoder, c: Byte, rest: seq<Byte>)
    requires !Negative(DecodeValue(c))
    ensures Room(s, [c] + rest) == |DecodeOut(s, c)| + Room(DecodeNext(s, c), rest) > 0
  {
    DecodeOne(s, c, rest);
    if s.step == StepA {
      BegunNeedsRoom(DecodeNext(s, c), rest);
    }
  }

  /** `*datachar++ = v` */
  method PutByte(out: array<Byte>, at: nat, v: Byte, ghost s: Decoder, ghost next: Decoder, ghost before: seq<Byte>,
                 ghost from: nat, ghost bytes: seq<Byte>)
    requires at == from + |bytes| < out.Length && next.step != StepB && Decoded(before, out[..], from, bytes, s)
    modifies out
    ensures Decoded(before, out[..], from, bytes + [v], next)
  {
    hide Decoded;
    ghost var was := out[..];
    out[at] := v;
    assert out[..] == was[at := v];
    DecodedByte(before, was, from, bytes, s, v, next);
  }

  /** `*datachar = v`, a byte begun. */
  method BeginByte(out: array<Byte>, at: nat, v: Byte, ghost s: Decoder, ghost next: Decoder, ghost before: seq<Byte>,
                   ghost from: nat, ghost bytes: seq<Byte>)
    requires at == from + |bytes| < out.Length && next.step == StepB && next.partial == v
    requires Decoded(before, out[..], from, bytes, s)
    modifies out
    ensures Decoded(before, out[..], from, bytes + [], next)
  {
    hide Decoded;
    ghost var was := out[..];
    out[at] := v;
    assert out[..] == was[at := v] && bytes + [] == bytes;
    DecodedBegun(before, was, from, bytes, s, next);
  }

  /** One case of the decoder's switch, where a character in the alphabet was found. */
  method DecodeCase(out: array<Byte>, at: nat, step: Step, overwrite: Byte, c: Byte, ghost s: Decoder,
      ghost before: seq<Byte>,
                    ghost from: nat, ghost bytes: seq<Byte>)
    returns (step': Step, overwrite': Byte, at': nat)
    requires !Negative(DecodeValue(c)) && at == from + |bytes| < out.Length
    requires s.step == step && s.overwrite == overwrite && Decoded(before, out[..], from, bytes, s)
    modifies out
    ensures step' == DecodeNext(s, c).step && overwrite' == DecodeNext(s, c).overwrite && at' == at + |DecodeOut(s, c)|
    ensures Decoded(before, out[..], from, bytes + DecodeOut(s, c), DecodeNext(s, c))
  {
    hide Decoded, DecodeValue, BeginBits, BitsAtB, CarryAtB, BitsAtC, CarryAtC, BitsAtD, Negative;
    step', overwrite', at' := step, overwrite, at;
    ghost var next := DecodeNext(s, c);
    var fragment := DecodeValue(c);
    DecodedPartial(before, out[..], from, bytes, s);
    match step {
      case StepA =>
        BeginByte(out, at, BeginBits(fragment), s, next, before, from, bytes);
        step' := StepB;
      case StepB =>
        PutByte(out, at, BitsAtB(out[at], fragment), s, next, before, from, bytes);
        overwrite' := CarryAtB(fragment);
        step', at' := StepC, at + 1;
      case StepC =>
        PutByte(out, at, BitsAtC(overwrite, fragment), s, next, before, from, bytes);
        overwrite' := CarryAtC(fragment);
        step', at' := StepD, at + 1;
      case StepD =>
        PutByte(out, at, BitsAtD(overwrite, fragment), s, next, before, from, bytes);
        step', at' := StepA, at + 1;
    }
  }

  lemma DecodedPartial(before: seq<Byte>, after: seq<Byte>, from: nat, bytes: seq<Byte>, s: Decoder)
    requires Decoded(before, after, from, bytes, s)
    ensures from + |bytes| <= |after|
    ensures s.step == StepB ==> from + |bytes| < |after| && after[from + |bytes|] == s.partial
  {
  }

  lemma DecodedBegun(before: seq<Byte>, after: seq<Byte>, from: nat, bytes: seq<Byte>, s: Decoder, next: Decoder)
    requires Decoded(before, after, from, bytes, s) && from + |bytes| < |after| && next.step == StepB
    ensures Decoded(before, after[from + |bytes| := next.partial], from, bytes, next)
  {
    var at := from + |bytes|;
    assert after[at + 1..] == before[at + 1..];
  }

  lemma DecodedByte(before: seq<Byte>, after: seq<Byte>, from: nat, bytes: seq<Byte>, s: Decoder, v: Byte,
      next: Decoder)
    requires Decoded(before, after, from, bytes, s) && from + |bytes| < |after| && next.step != StepB
    ensures Decoded(before, after[from + |bytes| := v], from, bytes + [v], next)
  {
    var at := from + |bytes|;
    assert after[at + 1..] == before[at + 1..];
    assert after[at := v][..at + 1] == after[..at] + [v];
  }

  /** `cbase64_decode_block`. When the saved step is B, the output must start with the byte begun there:
      the output buffer is contiguous. */
  method DecodeBlock(code: seq<Byte>, out: array<Byte>, at: nat, state: DecodeStateIn) returns (length: nat)
    requires at <= out.Length && (state.step == StepB ==> at < out.Length)
    requires at + Room(DecoderAt(state, out, at), code) <= out.Length
    modifies out, state
    ensures length == |DecodeBytes(old(DecoderAt(state, out, at)), code)|
    ensures Decoded(old(out[..]), out[..], at, DecodeBytes(old(DecoderAt(state, out, at)), code),
                    DecodeState(old(DecoderAt(state, out, at)), code))
    ensures state.step == DecodeState(old(DecoderAt(state, out, at)), code).step
    ensures state.result == DecodeState(old(DecoderAt(state, out, at)), code).overwrite
  {
    hide DecodeOut, DecodeNext, DecodeBytes, DecodeState, DecodeValue, Decoded;
    ghost var s0, before := DecoderAt(state, out, at), out[..];
    ghost var s, bytes := s0, [];
    var step, overwrite := state.step, state.result;
    var i, pos := 0, at;
    NothingDecoded(s0, code, before, at);
    while i < |code|
      invariant 0 <= i <= |code| && unchanged(state) && pos == at + |bytes|
      invariant s.step == step && s.overwrite == overwrite
      invariant DecodeBytes(s0, code) == bytes + DecodeBytes(s, code[i..])
      invariant DecodeState(s0, code) == DecodeState(s, code[i..])
      invariant Decoded(before, out[..], at, bytes, s)
      invariant pos + Room(s, code[i..]) <= out.Length
    {
      var c := code[i];
      assert code[i..] == [c] + code[i + 1..];
      DecodeOne(s, c, code[i + 1..]);
      i := i + 1;
      if Negative(DecodeValue(c)) {
        SkipsNegative(s, c);
      } else {
        CharNeedsRoom(s, c, code[i..]);
        step, overwrite, pos := DecodeCase(out, pos, step, overwrite, c, s, before, at, bytes);
        bytes := bytes + DecodeOut(s, c);
        s := DecodeNext(s, c);
      }
    }
    assert code[i..] == [] && bytes + [] == bytes;
    NothingDecoded(s, [], before, at);
    state.step, state.result := step, overwrite;
    length := pos - at;
  }

  /** The room for a first part is no more than for the whole. */
  lemma RoomSplits(s: Decoder, first: seq<Byte>, rest: seq<Byte>)
    ensures Room(s, first) <= Room(s, first + rest) == |DecodeBytes(s, first)| + Room(DecodeState(s, first), rest)
  {
    hide DecodeBytes, DecodeState;
    DecodeAppend(s, first, rest);
    if DecodeState(s, first).step == StepB {
      BegunNeedsRoom(DecodeState(s, first), rest);
    }
  }

  lemma RoomAlike(s: Decoder, s': Decoder, code: seq<Byte>)
    requires Alike(s, s')
    ensures Room(s, code) == Room(s', code)
  {
    AlikeDecode(s, s', code);
  }

  /** What was decoded before, and then more from where that ended. */
  lemma DecodedThen(b0: seq<Byte>, b1: seq<Byte>, b2: seq<Byte>, from: nat, x: seq<Byte>, s1: Decoder, y: seq<Byte>,
      s2: Decoder)
    requires Decoded(b0, b1, from, x, s1) && Decoded(b1, b2, from + |x|, y, s2)
    requires s1.step == StepB && s2.step != StepB ==> y != []
    ensures Decoded(b0, b2, from, x + y, s2)
  {
    var mid, at := from + |x|, from + |x| + |y|;
    assert b2[..at] == b1[..mid] + y;
    assert b0[..from] + (x + y) == b0[..from] + x + y;
    var k := if s2.step == StepB then at + 1 else at;
    assert b2[k..] == b1[k..];
    var m := if s1.step == StepB then mid + 1 else mid;
    assert b1[m..] == b0[m..] && m <= k;
    assert b1[k..] == b1[m..][k - m..] && b0[k..] == b0[m..][k - m..];
  }

  lemma {:induction false} BegunIsCompleted(s: Decoder, code: seq<Byte>)
    requires s.step == StepB
    ensures DecodeState(s, code).step == StepB || DecodeBytes(s, code) != []
    decreases |code|
  {
    if code != [] && Negative(DecodeValue(code[0])) {
      BegunIsCompleted(s, code[1..]);
    }
  }

  /** One more part has been decoded: what is left, and what there is so far. */
  lemma PartDone(b0: seq<Byte>, b1: seq<Byte>, b2: seq<Byte>, at: nat, bytes: seq<Byte>, s: Decoder, chunk: seq<Byte>,
                 s2: Decoder, rest: seq<Byte>, s0: Decoder, all: seq<Byte>)
    requires Decoded(b0, b1, at, bytes, s)
    requires Decoded(b1, b2, at + |bytes|, DecodeBytes(s, chunk), DecodeState(s, chunk))
    requires Alike(DecodeState(s, chunk), s2)
    requires DecodeBytes(s0, all) == bytes + DecodeBytes(s, chunk + rest)
    requires Alike(DecodeState(s0, all), DecodeState(s, chunk + rest))
    ensures Decoded(b0, b2, at, bytes + DecodeBytes(s, chunk), s2)
    ensures DecodeBytes(s0, all) == bytes + DecodeBytes(s, chunk) + DecodeBytes(s2, rest)
    ensures Alike(DecodeState(s0, all), DecodeState(s2, rest))
    ensures Room(s, chunk + rest) == |DecodeBytes(s, chunk)| + Room(s2, rest)
  {
    hide DecodeBytes, DecodeState, Decoded, Room;
    var part, s1 := DecodeBytes(s, chunk), DecodeState(s, chunk);
    RoomSplits(s, chunk, rest);
    DecodeAppend(s, chunk, rest);
    if s.step == StepB {
      BegunIsCompleted(s, chunk);
    }
    DecodedThen(b0, b1, b2, at, bytes, s, part, s1);
    DecodedAlike(b0, b2, at, bytes + part, s1, s2);
    AlikeDecode(s1, s2, rest);
    RoomAlike(s1, s2, rest);
  }

  lemma ConcatFrom(chunks: seq<seq<Byte>>, j: nat)
    requires j < |chunks|
    ensures Concat(chunks[j..]) == chunks[j] + Concat(chunks[j + 1..])
  {
    assert chunks[j..][0] == chunks[j] && chunks[j..][1..] == chunks[j + 1..];
  }

  lemma ConcatEnds(chunks: seq<seq<Byte>>)
    ensures Concat(chunks[|chunks|..]) == []
  {
  }

  /** Several calls, each at the position where the one before ended, do what one call does. */
  method DecodeParts(chunks: seq<seq<Byte>>, out: array<Byte>, at: nat, state: DecodeStateIn) returns (length: nat)
    requires at <= out.Length && (state.step == StepB ==> at < out.Length)
    requires at + Room(DecoderAt(state, out, at), Concat(chunks)) <= out.Length
    modifies out, state
    ensures length == |DecodeBytes(old(DecoderAt(state, out, at)), Concat(chunks))|
    ensures Decoded(old(out[..]), out[..], at, DecodeBytes(old(DecoderAt(state, out, at)), Concat(chunks)),
                    DecodeState(old(DecoderAt(state, out, at)), Concat(chunks)))
    ensures state.step == DecodeState(old(DecoderAt(state, out, at)), Concat(chunks)).step
    ensures state.result == DecodeState(old(DecoderAt(state, out, at)), Concat(chunks)).overwrite
  {
    hide DecodeBytes, DecodeState, Decoded, Room, Concat;
    ghost var s0, before := DecoderAt(state, out, at), out[..];
    ghost var s, bytes := s0, [];
    var j, pos := 0, at;
    NothingDecoded(s0, [], before, at);
    assert chunks[0..] == chunks;
    while j < |chunks|
      invariant 0 <= j <= |chunks| && pos == at + |bytes| <= out.Length
      invariant (state.step == StepB ==> pos < out.Length) && s == DecoderAt(state, out, pos)
      invariant DecodeBytes(s0, Concat(chunks)) == bytes + DecodeBytes(s, Concat(chunks[j..]))
      invariant Alike(DecodeState(s0, Concat(chunks)), DecodeState(s, Concat(chunks[j..])))
      invariant Decoded(before, out[..], at, bytes, s)
      invariant pos + Room(s, Concat(chunks[j..])) <= out.Length
    {
      var rest := Concat(chunks[j + 1..]);
      ConcatFrom(chunks, j);
      RoomSplits(s, chunks[j], rest);
      ghost var b1 := out[..];
      var n := DecodeBlock(chunks[j], out, pos, state);
      ghost var part, s1 := DecodeBytes(s, chunks[j]), DecodeState(s, chunks[j]);
      DecodedPartial(b1, out[..], pos, part, s1);
      ghost var s2 := DecoderAt(state, out, pos + n);
      PartDone(before, b1, out[..], at, bytes, s, chunks[j], s2, rest, s0, Concat(chunks));
      pos := pos + n;
      bytes := bytes + part;
      s := s2;
      j := j + 1;
    }
    ConcatEnds(chunks);
    assert bytes + [] == bytes;
    NothingDecoded(s, [], before, at);
    DecodedAlike(before, out[..], at, bytes, s, DecodeState(s0, Concat(chunks)));
    length := pos - at;
  }

  lemma DecodedAlike(before: seq<Byte>, after: seq<Byte>, from: nat, bytes: seq<Byte>, s: Decoder, s': Decoder)
    requires Decoded(before, after, from, bytes, s) && Alike(s, s')
    ensures Decoded(before, after, from, bytes, s')
  {
  }

  /** The decoder that a saved state and the output position stand for. */
  ghost function DecoderAt(state: DecodeStateIn, out: array<Byte>, at: nat): Decoder
    requires state.step == StepB ==> at < out.Length
    reads state, out
  {
    Decoder(state.step, state.result, if state.step == StepB then out[at] else 0)
  }

  lemma NothingDecoded(s: Decoder, code: seq<Byte>, before: seq<Byte>, at: nat)
    ensures DecodeBytes(s, []) == [] && DecodeState(s, []) == s && code[0..] == code
    ensures at <= |before| && (s.step == StepB ==> at < |before| && before[at] == s.partial) ==>
      Decoded(before, before, at, [], s)
  {
  }
}
