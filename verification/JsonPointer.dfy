/** JSON Pointers as text: parsing and printing of the string form and of the URI fragment form. Text is a
    sequence of bytes in UTF-8. */
module JsonPointer {
  import opened Arith
  import opened Hexadecimal
  import IntegerText
  import opened Options

  // ----- Tokens -----

  const INVALID_INDEX: nat := 0xFFFF_FFFF
  const WORD: nat := 0x1_0000_0000

  datatype Token = Token(name: string, index: nat)

  predicate Digit(c: char) {
    '0' <= c <= '9'
  }

  predicate AllDigits(name: string) {
    forall k :: 0 <= k < |name| ==> Digit(name[k])
  }

  /** The conversion loop, from position `j` with `n` so far, in 32-bit arithmetic with its overflow test. */
  function IndexFrom(name: string, j: nat, n: nat): nat
    requires j <= |name| && AllDigits(name)
    decreases |name| - j
  {
    if j == |name| then n
    else
      var m := (n * 10 + (name[j] - '0') as nat) % WORD;
      if m < n then INVALID_INDEX else IndexFrom(name, j + 1, m)
  }

  /** A name that is converted: digits only, without a leading zero. */
  predicate Numeric(name: string) {
    name != "" && AllDigits(name) && !(|name| > 1 && name[0] == '0')
  }

  /** The index of a token. */
  function IndexOf(name: string): nat {
    if Numeric(name) then IndexFrom(name, 0, 0) else INVALID_INDEX
  }

  /** What the first `i` digits leave in a 32-bit word. */
  function Residue(name: string, i: nat): (r: nat)
    requires i <= |name| && AllDigits(name)
    ensures r < WORD
  {
    IntegerText.Value(name[..i]) % WORD
  }

  /** The overflow test fires at digit `i`. */
  predicate FallsAt(name: string, i: nat)
    requires i < |name| && AllDigits(name)
  {
    Residue(name, i + 1) < Residue(name, i)
  }

  ghost predicate Falls(name: string, j: nat)
    requires AllDigits(name)
  {
    exists i :: j <= i < |name| && FallsAt(name, i)
  }

  lemma ResidueStep(name: string, j: nat)
    requires j < |name| && AllDigits(name)
    ensures Residue(name, j + 1) == (Residue(name, j) * 10 + (name[j] - '0') as nat) % WORD
  {
    IsNextValue(name, j);
    hide IntegerText.Value;
    var x := IntegerText.Value(name[..j]);
    DivModShift(x % WORD * 10 + (name[j] - '0') as nat, x / WORD * 10, WORD);
  }

  lemma IsNextValue(name: string, j: nat)
    requires j < |name| && AllDigits(name)
    ensures IntegerText.Value(name[..j + 1]) == 10 * IntegerText.Value(name[..j]) + (name[j] - '0') as nat
  {
    assert name[..j + 1][..j] == name[..j];
  }

  /** The loop takes the number modulo 2^32, unless the test fires at some digit. */
  lemma {:induction false} IndexFromIs(name: string, j: nat)
    requires j <= |name| && AllDigits(name)
    ensures IndexFrom(name, j, Residue(name, j)) ==
      if Falls(name, j) then INVALID_INDEX else IntegerText.Value(name) % WORD
    decreases |name| - j
  {
    if j == |name| {
      assert name[..j] == name;
    } else {
      ResidueStep(name, j);
      hide Residue;
      if FallsAt(name, j) {
      } else {
        IndexFromIs(name, j + 1);
        assert Falls(name, j) <==> Falls(name, j + 1);
      }
    }
  }

  lemma IndexIs(name: string)
    requires Numeric(name)
    ensures IndexOf(name) == if Falls(name, 0) then INVALID_INDEX else IntegerText.Value(name) % WORD
  {
    assert name[..0] == "" && IntegerText.Value("") == 0;
    IndexFromIs(name, 0);
  }

  /** The value of a prefix is at most that of the whole. */
  lemma {:induction false} PrefixValue(name: string, j: nat)
    requires j <= |name| && AllDigits(name)
    ensures IntegerText.Value(name[..j]) <= IntegerText.Value(name)
    decreases |name| - j
  {
    if j == |name| {
      assert name[..j] == name;
    } else {
      PrefixValue(name, j + 1);
      assert name[..j + 1][..j] == name[..j];
    }
  }

  /** While the number fits, the test does not fire. */
  lemma NoFall(name: string, i: nat)
    requires i < |name| && AllDigits(name) && IntegerText.Value(name[..i + 1]) < WORD
    ensures !FallsAt(name, i)
  {
    assert name[..i + 1][..i] == name[..i];
  }

  /** The index a number should have: itself, or none if it is too large for one. */
  function RightIndex(v: nat): nat {
    if v < INVALID_INDEX then v else INVALID_INDEX
  }

  /** A token gets the right index if and only if the number fits, or the test fires at some digit, or the number
      happens to leave the invalid index: the test does not find every overflow. */
  lemma IndexRightIff(name: string)
    requires Numeric(name)
    ensures
      var v := IntegerText.Value(name);
      IndexOf(name) == RightIndex(v) <==> v < WORD || Falls(name, 0) || v % WORD == INVALID_INDEX
  {
    hide Residue, FallsAt, IndexOf, IntegerText.Value;
    IndexIs(name);
    if IntegerText.Value(name) < WORD {
      forall i | 0 <= i < |name| ensures !FallsAt(name, i) {
        PrefixValue(name, i + 1);
        NoFall(name, i);
      }
    }
  }

  /** For numbers of up to ten digits only the last digit can overflow, and that is found exactly if what is left is
      less than the digits before. */
  lemma TenDigits(v: nat)
    requires v < 10_000_000_000
    ensures
      IndexOf(IntegerText.Text(v)) == RightIndex(v) <==> v < WORD || v % WORD < v / 10 || v % WORD == INVALID_INDEX
  {
    hide IntegerText.Text, IntegerText.Value, Residue, FallsAt, IndexOf, Numeric;
    var name := IntegerText.Text(v);
    TextIsNumeric(v);
    IndexRightIff(name);
    if v >= WORD {
      WithoutLast(v);
      NoneBeforeLast(name);
      LastFalls(name);
    }
  }

  /** Without its last digit such a number fits. */
  lemma WithoutLast(v: nat)
    requires 10 <= v < 10_000_000_000
    ensures
      var name := IntegerText.Text(v);
      AllDigits(name) && name != "" && IntegerText.Value(name[..|name| - 1]) == v / 10 < WORD
  {
    hide IntegerText.Value;
    assert IntegerText.Text(v)[..|IntegerText.Text(v)| - 1] == IntegerText.Text(v / 10);
    TextIsNumeric(v);
    TextIsNumeric(v / 10);
  }

  /** No digit before the last one falls then. */
  lemma NoneBeforeLast(name: string)
    requires AllDigits(name) && name != "" && IntegerText.Value(name[..|name| - 1]) < WORD
    ensures Falls(name, 0) <==> FallsAt(name, |name| - 1)
  {
    hide IntegerText.Value, FallsAt;
    forall i | 0 <= i < |name| - 1 ensures !FallsAt(name, i) {
      BeforeLast(name, i);
    }
  }

  lemma BeforeLast(name: string, i: nat)
    requires AllDigits(name) && i + 1 < |name| && IntegerText.Value(name[..|name| - 1]) < WORD
    ensures !FallsAt(name, i)
  {
    hide IntegerText.Value, FallsAt;
    PrefixValue(name[..|name| - 1], i + 1);
    assert name[..|name| - 1][..i + 1] == name[..i + 1];
    NoFall(name, i);
  }

  lemma LastFalls(name: string)
    requires AllDigits(name) && name != "" && IntegerText.Value(name[..|name| - 1]) < WORD
    ensures FallsAt(name, |name| - 1) <==>
      IntegerText.Value(name) % WORD < IntegerText.Value(name[..|name| - 1])
  {
    hide IntegerText.Value;
    assert name[..|name| - 1 + 1] == name;
    var v := IntegerText.Value(name[..|name| - 1]);
    assert v % WORD == v;
  }

  lemma TextIsNumeric(v: nat)
    ensures Numeric(IntegerText.Text(v)) && AllDigits(IntegerText.Text(v))
    ensures IntegerText.Value(IntegerText.Text(v)) == v
  {
    IntegerText.TextReads(v);
  }

  /** The number 5000000000 does not fit, and gets an index all the same. */
  lemma MissedOverflow()
    ensures IndexOf(IntegerText.Text(5_000_000_000)) == 705_032_704 && RightIndex(5_000_000_000) == INVALID_INDEX
  {
    TextIsNumeric(5_000_000_000);
    IndexIs(IntegerText.Text(5_000_000_000));
    TenDigits(5_000_000_000);
  }

  /** The decimal text of every number below the invalid index gets exactly that number as its index. */
  lemma CanonicalIndex(v: nat)
    requires v < INVALID_INDEX
    ensures IndexOf(IntegerText.Text(v)) == v
  {
    TextIsNumeric(v);
    IndexRightIff(IntegerText.Text(v));
  }

  // ----- UTF-8 sequences, as `UTF8::Validate` takes them -----

  /** The classes of `GetRange`. */
  function Range(c: char): nat {
    if c < '\U{80}' then 0
    else if c < '\U{90}' then 0x10
    else if c < '\U{A0}' then 0x40
    else if c < '\U{C0}' then 0x20
    else if c < '\U{C2}' then 8
    else if c < '\U{E0}' then 2
    else if c == '\U{E0}' then 10
    else if c == '\U{ED}' then 4
    else if c < '\U{F0}' then 3
    else if c == '\U{F0}' then 11
    else if c < '\U{F4}' then 6
    else if c == '\U{F4}' then 5
    else 8
  }

  /** How many bytes a sequence with this first byte takes; for a byte that starts none, it alone. */
  function Length(c: char): (n: nat)
    ensures 1 <= n <= 4
  {
    var r := Range(c);
    if r == 2 then 2 else if r == 3 || r == 4 || r == 10 then 3 else if r == 5 || r == 6 || r == 11 then 4 else 1
  }

  predicate Tail(c: char) {
    Range(c) == 0x10 || Range(c) == 0x20 || Range(c) == 0x40
  }

  /** The bytes of one sequence are valid: the second within the limits of the first, the others tails. */
  predicate Valid(b: string)
    requires b != "" && |b| == Length(b[0])
  {
    var r := Range(b[0]);
    && r != 8 && r != 0x10 && r != 0x20 && r != 0x40
    && (|b| > 1 ==>
          && (if r == 4 then Range(b[1]) == 0x10 || Range(b[1]) == 0x40
              else if r == 5 then Range(b[1]) == 0x10
              else if r == 10 then Range(b[1]) == 0x20
              else if r == 11 then Range(b[1]) == 0x20 || Range(b[1]) == 0x40
              else Tail(b[1])))
    && (forall k :: 2 <= k < |b| ==> Tail(b[k]))
  }

  // ----- Printing -----

  /** `NeedPercentEncode` */
  predicate NeedPercentEncode(c: char) {
    !(Digit(c) || 'A' <= c <= 'Z' || 'a' <= c <= 'z' || c == '-' || c == '.' || c == '_' || c == '~')
  }

  predicate Bytes(s: string) {
    forall k {:trigger s[k]} :: 0 <= k < |s| ==> s[k] < '\U{100}'
  }

  /** `%XY` for a byte. */
  function Percent(c: char): string
    requires c < '\U{100}'
  {
    ['%', Hex(c as nat / 16), Hex(c as nat % 16)]
  }

  function PercentAll(b: string): string
    requires Bytes(b)
  {
    if b == "" then "" else Percent(b[0]) + PercentAll(b[1..])
  }

  /** The printed form of a name, or none where the stream of bytes is not valid. */
  function NameText(name: string, uri: bool): Option<string>
    requires Bytes(name)
    decreases |name|
  {
    if name == "" then Some("")
    else if name[0] == '~' then Prepend("~0", NameText(name[1..], uri))
    else if name[0] == '/' then Prepend("~1", NameText(name[1..], uri))
    else if uri && NeedPercentEncode(name[0]) then
      var n := Length(name[0]);
      if n <= |name| && Valid(name[..n]) then Prepend(PercentAll(name[..n]), NameText(name[n..], uri)) else None
    else Prepend([name[0]], NameText(name[1..], uri))
  }

  function Prepend(x: string, r: Option<string>): Option<string> {
    if r.Some? then Some(x + r.value) else None
  }

  predicate AllBytes(names: seq<string>) {
    forall k {:trigger names[k]} :: 0 <= k < |names| ==> Bytes(names[k])
  }

  function NamesText(names: seq<string>, uri: bool): Option<string>
    requires AllBytes(names)
    decreases |names|
  {
    if names == [] then Some("")
    else
      var first, rest := NameText(names[0], uri), NamesText(names[1..], uri);
      if first.Some? && rest.Some? then Some("/" + first.value + rest.value) else None
  }

  /** `Stringify` */
  function Stringify(names: seq<string>, uri: bool): Option<string>
    requires AllBytes(names)
  {
    Prepend(if uri then "#" else "", NamesText(names, uri))
  }

  // ----- Parsing -----

  datatype Error = TokenMustBeginWithSolidus | InvalidEscape | InvalidPercentEncoding | CharacterMustPercentEncode

  /** A part of the parse that ended before position `next` of the source, or failed at `offset`. */
  datatype Parsed<T> = Ok(value: T, next: nat) | Failed(error: Error, offset: nat)

  /** What `PercentDecodeStream::Take` finds at position `i`. */
  function Triplet(source: string, i: nat): (c: Option<char>)
    ensures c.Some? ==> c.value < '\U{100}' && i + 3 <= |source| && source[i] == '%'
  {
    if i + 3 <= |source| && source[i] == '%' && HexChar(source[i + 1]) && HexChar(source[i + 2])
    then Some((16 * HexValue(source[i + 1]) + HexValue(source[i + 2])) as char) else None
  }

  /** `n` triplets in a row. */
  function Triplets(source: string, i: nat, n: nat): (b: Option<string>)
    ensures b.Some? ==> |b.value| == n && (n > 0 ==> i + 3 * n <= |source|)
    decreases n
  {
    if n == 0 then Some("")
    else
      var first := Triplet(source, i);
      if first.None? then None else Prepend([first.value], Triplets(source, i + 3, n - 1))
  }

  /** One UTF-8 sequence in percent-encoding. */
  function PercentSequence(source: string, i: nat): (b: Option<string>)
    ensures b.Some? ==> 1 <= |b.value| <= 4 && i + 3 * |b.value| <= |source|
  {
    var first := Triplet(source, i);
    if first.None? then None
    else
      var b := Triplets(source, i, Length(first.value));
      if b.Some? && Valid(b.value) then b else None
  }

  /** The character of an escape, whose tilde ended before position `i`. */
  function Unescape(source: string, i: nat): Parsed<char> {
    if i < |source| && source[i] == '0' then Ok('~', i + 1)
    else if i < |source| && source[i] == '1' then Ok('/', i + 1)
    else Failed(InvalidEscape, i)
  }

  /** What is appended to the name for what is at position `i`. */
  function ReadPiece(source: string, i: nat, uri: bool): (p: Parsed<string>)
    requires i < |source|
    ensures p.Ok? ==> i < p.next <= |source| && 1 <= |p.value| <= p.next - i
  {
    if uri && source[i] == '%' then
      var b := PercentSequence(source, i);
      if b.None? then Failed(InvalidPercentEncoding, i)
      else if |b.value| == 1 then Literal(source, b.value[0], i + 3)
      else Ok(b.value, i + 3 * |b.value|)
    else if uri && NeedPercentEncode(source[i]) then Failed(CharacterMustPercentEncode, i)
    else Literal(source, source[i], i + 1)
  }

  /** A character, or the escape that it starts. */
  function Literal(source: string, c: char, next: nat): (p: Parsed<string>)
    requires next <= |source|
    ensures p.Ok? ==> next <= p.next <= |source| && |p.value| == 1
  {
    if c != '~' then Ok([c], next)
    else
      match Unescape(source, next)
      case Failed(e, o) => Failed(e, o)
      case Ok(d, next') => Ok([d], next')
  }

  /** A name, up to the next slash or the end. */
  function ReadName(source: string, i: nat, uri: bool): (p: Parsed<string>)
    requires i <= |source|
    ensures p.Ok? ==> i <= p.next <= |source| && |p.value| <= p.next - i
    ensures p.Ok? && p.next < |source| ==> source[p.next] == '/'
    decreases |source| - i
  {
    if i == |source| || source[i] == '/' then Ok("", i)
    else
      match ReadPiece(source, i, uri)
      case Failed(e, o) => Failed(e, o)
      case Ok(x, next) =>
        match ReadName(source, next, uri)
        case Failed(e, o) => Failed(e, o)
        case Ok(name, next') => Ok(x + name, next')
  }

  function ReadNames(source: string, i: nat, uri: bool): Parsed<seq<string>>
    requires i <= |source| && (i < |source| ==> source[i] == '/')
    decreases |source| - i
  {
    if i == |source| then Ok([], i)
    else
      match ReadName(source, i + 1, uri)
      case Failed(e, o) => Failed(e, o)
      case Ok(name, next) =>
        match ReadNames(source, next, uri)
        case Failed(e, o) => Failed(e, o)
        case Ok(names, next') => Ok([name] + names, next')
  }

  /** `Parse`, as a function: the names. */
  function ParseNames(source: string): Parsed<seq<string>> {
    var uri := source != "" && source[0] == '#';
    var i := if uri then 1 else 0;
    if i < |source| && source[i] != '/' then Failed(TokenMustBeginWithSolidus, i) else ReadNames(source, i, uri)
  }

  // ----- When there is a printed form -----

  /** The string form exists for every list of names. */
  lemma {:induction false} PlainExists(name: string)
    requires Bytes(name)
    ensures NameText(name, false).Some?
    decreases |name|
  {
    if name != "" {
      PlainExists(name[1..]);
    }
  }

  predicate Utf8(name: string)
    decreases |name|
  {
    name == "" || (Length(name[0]) <= |name| && Valid(name[..Length(name[0])]) && Utf8(name[Length(name[0])..]))
  }

  /** The fragment form exists exactly for the names that are valid UTF-8. */
  lemma {:induction false} FragmentExistsIff(name: string)
    requires Bytes(name)
    ensures NameText(name, true).Some? <==> Utf8(name)
    decreases |name|
  {
    if name != "" {
      FragmentExistsIff(name[1..]);
      if Length(name[0]) <= |name| {
        FragmentExistsIff(name[Length(name[0])..]);
      }
    }
  }

  // ----- Parsing what was printed -----

  lemma PercentBack(c: char)
    requires c < '\U{100}'
    ensures var p := Percent(c);
      HexChar(p[1]) && HexChar(p[2]) && 16 * HexValue(p[1]) + HexValue(p[2]) == c as nat
  {
  }

  /** What comes at position `i` and after it. */
  lemma Split(source: string, i: nat, x: string, y: string)
    requires i <= |source| && source[i..] == x + y
    ensures i + |x| <= |source| && source[i + |x|..] == y
    ensures forall k {:trigger x[k]} :: 0 <= k < |x| ==> source[i + k] == x[k]
  {
    assert source[i + |x|..] == source[i..][|x|..] == y;
    forall k | 0 <= k < |x| ensures source[i + k] == x[k] {
      assert source[i + k] == source[i..][k];
    }
  }

  lemma TripletBack(source: string, i: nat, c: char, rest: string)
    requires c < '\U{100}' && i <= |source| && source[i..] == Percent(c) + rest
    ensures i + 3 <= |source| && Triplet(source, i) == Some(c) && source[i + 3..] == rest
  {
    PercentBack(c);
    var p := Percent(c);
    Split(source, i, p, rest);
    assert source[i] == p[0] && source[i + 1] == p[1] && source[i + 2] == p[2];
  }

  lemma {:induction false} TripletsBack(source: string, i: nat, b: string, rest: string)
    requires Bytes(b) && i <= |source| && source[i..] == PercentAll(b) + rest
    ensures Triplets(source, i, |b|) == Some(b) && i + 3 * |b| <= |source| && source[i + 3 * |b|..] == rest
    decreases |b|
  {
    if b == "" {
      assert PercentAll(b) + rest == rest;
    } else {
      assert PercentAll(b) + rest == Percent(b[0]) + (PercentAll(b[1..]) + rest);
      TripletBack(source, i, b[0], PercentAll(b[1..]) + rest);
      TripletsBack(source, i + 3, b[1..], rest);
      assert [b[0]] + b[1..] == b;
    }
  }

  lemma FirstTriplet(source: string, i: nat, b: string, rest: string)
    requires Bytes(b) && b != "" && i <= |source| && source[i..] == PercentAll(b) + rest
    ensures Triplet(source, i) == Some(b[0])
  {
    hide Percent, Triplet;
    var x, y := Percent(b[0]), PercentAll(b[1..]);
    assert (x + y) + rest == x + (y + rest);
    TripletBack(source, i, b[0], y + rest);
  }

  lemma SequenceBack(source: string, i: nat, b: string, rest: string)
    requires Bytes(b) && b != "" && |b| == Length(b[0]) && Valid(b) && NeedPercentEncode(b[0])
    requires i <= |source| && source[i..] == PercentAll(b) + rest
    ensures i < |source| && ReadPiece(source, i, true) == Ok(b, i + 3 * |b|) && source[i] == '%'
    ensures i + 3 * |b| <= |source| && source[i + 3 * |b|..] == rest
  {
    FirstTriplet(source, i, b, rest);
    hide PercentAll, Valid, Triplet, Triplets, Length;
    TripletsBack(source, i, b, rest);
    assert PercentSequence(source, i) == Some(b);
    if |b| == 1 {
      assert b == [b[0]];
    }
  }

  lemma EscapeBack(source: string, i: nat, c: char, d: char, uri: bool, rest: string)
    requires i <= |source| && source[i..] == ['~', d] + rest && ((d == '0' && c == '~') || (d == '1' && c == '/'))
    ensures i + 2 <= |source| && source[i] == '~' && ReadPiece(source, i, uri) == Ok([c], i + 2) &&
      source[i + 2..] == rest
  {
    var x := ['~', d];
    Split(source, i, x, rest);
    assert source[i] == x[0] && source[i + 1] == x[1];
  }

  lemma PlainBack(source: string, i: nat, c: char, uri: bool, rest: string)
    requires i <= |source| && source[i..] == [c] + rest && c != '~' && (uri ==> !NeedPercentEncode(c))
    ensures i < |source| && source[i] == c && ReadPiece(source, i, uri) == Ok([c], i + 1) && source[i + 1..] == rest
  {
    var x := [c];
    Split(source, i, x, rest);
    assert source[i] == x[0];
  }

  lemma ReadNameStep(source: string, i: nat, uri: bool, x: string, next: nat, name: string, end: nat)
    requires i < |source| && source[i] != '/' && ReadPiece(source, i, uri) == Ok(x, next)
    requires ReadName(source, next, uri) == Ok(name, end)
    ensures ReadName(source, i, uri) == Ok(x + name, end)
  {
  }

  /** How the printed form of a name starts: with a piece that stands for its first `n` bytes. */
  lemma NameTextStep(name: string, uri: bool) returns (x: string, n: nat)
    requires Bytes(name) && name != "" && NameText(name, uri).Some?
    ensures 1 <= n <= |name| && NameText(name[n..], uri).Some?
    ensures NameText(name, uri).value == x + NameText(name[n..], uri).value
    ensures
      || (n == 1 && x == "~0" && name[0] == '~') || (n == 1 && x == "~1" && name[0] == '/')
      || (n == 1 && x == [name[0]] && name[0] != '~' && name[0] != '/' && (uri ==> !NeedPercentEncode(name[0])))
      || (uri && x == PercentAll(name[..n]) && |name[..n]| == Length(name[0]) && Valid(name[..n]) &&
          NeedPercentEncode(name[0]))
  {
    n := 1;
    if name[0] == '~' {
      x := "~0";
    } else if name[0] == '/' {
      x := "~1";
    } else if uri && NeedPercentEncode(name[0]) {
      n := Length(name[0]);
      x := PercentAll(name[..n]);
    } else {
      x := [name[0]];
    }
  }

  /** The piece is read back. */
  lemma PieceBack(source: string, i: nat, name: string, n: nat, x: string, uri: bool, rest: string)
    requires Bytes(name) && 1 <= n <= |name| && i <= |source| && source[i..] == x + rest
    requires
      || (n == 1 && x == "~0" && name[0] == '~') || (n == 1 && x == "~1" && name[0] == '/')
      || (n == 1 && x == [name[0]] && name[0] != '~' && name[0] != '/' && (uri ==> !NeedPercentEncode(name[0])))
      || (uri && x == PercentAll(name[..n]) && |name[..n]| == Length(name[0]) && Valid(name[..n]) &&
          NeedPercentEncode(name[0]))
    ensures i < |source| && source[i] != '/' && i + |x| <= |source|
    ensures ReadPiece(source, i, uri) == Ok(name[..n], i + |x|) && source[i + |x|..] == rest
  {
    hide ReadPiece, PercentAll, Valid, Length;
    if n == 1 {
      assert name[..1] == [name[0]];
    }
    if n == 1 && x == "~0" && name[0] == '~' {
      EscapeBack(source, i, '~', '0', uri, rest);
    } else if n == 1 && x == "~1" && name[0] == '/' {
      EscapeBack(source, i, '/', '1', uri, rest);
    } else if n == 1 && x == [name[0]] && name[0] != '~' && name[0] != '/' && (uri ==> !NeedPercentEncode(name[0])) {
      PlainBack(source, i, name[0], uri, rest);
    } else {
      PercentLength(name[..n]);
      SequenceBack(source, i, name[..n], rest);
    }
  }

  /** A printed name is read back. */
  lemma {:induction false} NameBack(source: string, i: nat, name: string, uri: bool, rest: string)
    requires Bytes(name) && NameText(name, uri).Some? && (rest == "" || rest[0] == '/')
    requires i <= |source| && source[i..] == NameText(name, uri).value + rest
    ensures ReadName(source, i, uri) == Ok(name, i + |NameText(name, uri).value|)
    decreases |name|
  {
    hide NameText, ReadName, ReadPiece, PercentAll, NeedPercentEncode, Valid, Length;
    if name == "" {
      EmptyText(uri);
      EmptyName(source, i, uri, rest);
    } else {
      var x, n := NameTextStep(name, uri);
      var tail := NameText(name[n..], uri).value;
      assert (x + tail) + rest == x + (tail + rest);
      PieceBack(source, i, name, n, x, uri, tail + rest);
      NameBack(source, i + |x|, name[n..], uri, rest);
      ReadNameStep(source, i, uri, name[..n], i + |x|, name[n..], i + |x| + |tail|);
      assert name[..n] + name[n..] == name;
    }
  }

  lemma {:induction false} PercentLength(b: string)
    requires Bytes(b)
    ensures |PercentAll(b)| == 3 * |b|
    decreases |b|
  {
    if b != "" {
      PercentLength(b[1..]);
    }
  }

  lemma EmptyText(uri: bool)
    ensures NameText("", uri) == Some("")
  {
  }

  lemma EmptyName(source: string, i: nat, uri: bool, rest: string)
    requires i <= |source| && source[i..] == "" + rest && (rest == "" || rest[0] == '/')
    ensures ReadName(source, i, uri) == Ok("", i)
  {
    assert "" + rest == rest;
    assert i < |source| ==> source[i] == source[i..][0];
  }

  lemma ReadNamesStep(source: string, i: nat, uri: bool, name: string, next: nat, names: seq<string>, end: nat)
    requires i < |source| && source[i] == '/' && ReadName(source, i + 1, uri) == Ok(name, next)
    requires next <= |source| && (next < |source| ==> source[next] == '/') &&
      ReadNames(source, next, uri) == Ok(names, end)
    ensures ReadNames(source, i, uri) == Ok([name] + names, end)
  {
  }

  lemma {:induction false} NamesBack(source: string, i: nat, names: seq<string>, uri: bool)
    requires AllBytes(names) && NamesText(names, uri).Some?
    requires i <= |source| && source[i..] == NamesText(names, uri).value
    ensures (i < |source| ==> source[i] == '/') && ReadNames(source, i, uri) == Ok(names, |source|)
    decreases |names|
  {
    hide NameText, ReadName, ReadNames;
    if names == [] {
      assert |source[i..]| == 0;
      NoNames(source, uri);
    } else {
      var first, rest := NameText(names[0], uri).value, NamesText(names[1..], uri).value;
      var slash := "/";
      assert slash + first + rest == slash + (first + rest);
      Split(source, i, slash, first + rest);
      assert source[i] == slash[0];
      RestStart(names[1..], uri);
      NameBack(source, i + 1, names[0], uri, rest);
      var next := i + 1 + |first|;
      Split(source, i + 1, first, rest);
      NamesBack(source, next, names[1..], uri);
      ReadNamesStep(source, i, uri, names[0], next, names[1..], |source|);
      assert [names[0]] + names[1..] == names;
    }
  }

  lemma NoNames(source: string, uri: bool)
    ensures ReadNames(source, |source|, uri) == Ok([], |source|)
  {
  }

  lemma RestStart(names: seq<string>, uri: bool)
    requires AllBytes(names) && NamesText(names, uri).Some?
    ensures var rest := NamesText(names, uri).value; rest == "" || rest[0] == '/'
  {
  }

  /** Every list of names is parsed back from its string form, and from its fragment form where there is
      one, which is for valid UTF-8. */
  lemma RoundTrip(names: seq<string>, uri: bool)
    requires AllBytes(names) && Stringify(names, uri).Some?
    ensures ParseNames(Stringify(names, uri).value) == Ok(names, |Stringify(names, uri).value|)
  {
    var source := Stringify(names, uri).value;
    var i := if uri then 1 else 0;
    assert source[i..] == NamesText(names, uri).value;
    NamesBack(source, i, names, uri);
    if !uri && source != "" {
      assert source[0] == '/';
    }
  }

  lemma {:induction false} StringifyExists(names: seq<string>, uri: bool)
    requires AllBytes(names)
    ensures Stringify(names, uri).Some? <==> !uri || forall k {:trigger names[k]} :: 0 <= k < |names| ==> Utf8(names[k])
    decreases |names|
  {
    if names != [] {
      StringifyExists(names[1..], uri);
      if uri {
        FragmentExistsIff(names[0]);
        assert forall k {:trigger names[k]} :: 1 <= k < |names| ==> names[k] == names[1..][k - 1];
        assert forall k {:trigger names[1..][k]} :: 0 <= k < |names| - 1 ==> names[1..][k] == names[k + 1];
      } else {
        PlainExists(names[0]);
      }
    }
  }

  // ----- The parser's loops -----

  /** How many slashes there are from position `i` on. */
  function Slashes(source: string, i: nat): nat
    requires i <= |source|
    decreases |source| - i
  {
    if i == |source| then 0 else (if source[i] == '/' then 1 else 0) + Slashes(source, i + 1)
  }

  lemma {:induction false} NoSlashes(source: string, i: nat, j: nat)
    requires i <= j <= |source| && forall k :: i <= k < j ==> source[k] != '/'
    ensures Slashes(source, i) == Slashes(source, j)
    decreases j - i
  {
    if i < j {
      NoSlashes(source, i + 1, j);
    }
  }

  lemma {:induction false} TripletsNoSlash(source: string, i: nat, n: nat)
    requires Triplets(source, i, n).Some?
    ensures n > 0 ==> i + 3 * n <= |source|
    ensures forall k :: i <= k < i + 3 * n ==> source[k] != '/'
    decreases n
  {
    if n > 0 {
      TripletsNoSlash(source, i + 3, n - 1);
    }
  }

  /** No piece has a slash in the source, so that every slash starts a token. */
  lemma PieceNoSlash(source: string, i: nat, uri: bool)
    requires i < |source| && source[i] != '/' && ReadPiece(source, i, uri).Ok?
    ensures Slashes(source, i) == Slashes(source, ReadPiece(source, i, uri).next)
  {
    var p := ReadPiece(source, i, uri);
    if uri && source[i] == '%' {
      var first := Triplet(source, i);
      TripletsNoSlash(source, i, Length(first.value));
      var n := |PercentSequence(source, i).value|;
      NoSlashes(source, i, i + 3 * n);
      if p.next > i + 3 * n {
        NoSlashes(source, i + 3 * n, p.next);
      }
    } else {
      NoSlashes(source, i, p.next);
    }
  }

  function ThenName(part: string, r: Parsed<string>): Parsed<string> {
    match r
    case Failed(e, o) => Failed(e, o)
    case Ok(x, next) => Ok(part + x, next)
  }

  function ThenNames(done: seq<string>, r: Parsed<seq<string>>): Parsed<seq<string>> {
    match r
    case Failed(e, o) => Failed(e, o)
    case Ok(names, next) => Ok(done + names, next)
  }

  /** A token in the token array: where its name is in the name buffer. */
  datatype Stored = Stored(at: nat, length: nat, index: nat)

  /** The first tokens are those of the names `done`, each with its name in the buffer before `end`, ended by
      a null character. */
  ghost predicate Placed(tokens: seq<Stored>, buffer: seq<char>, done: seq<string>, end: nat) {
    && |done| <= |tokens| && end <= |buffer|
    && forall k {:trigger tokens[k]} :: 0 <= k < |done| ==>
         && tokens[k].at + tokens[k].length < end
         && buffer[tokens[k].at..tokens[k].at + tokens[k].length] == done[k]
         && buffer[tokens[k].at + tokens[k].length] == '\0'
         && tokens[k].index == IndexOf(done[k])
  }

  /** Writing after the names leaves them. */
  lemma PlacedKept(tokens: seq<Stored>, buffer: seq<char>, buffer': seq<char>, done: seq<string>, end: nat)
    requires Placed(tokens, buffer, done, end) && |buffer| == |buffer'| && buffer[..end] == buffer'[..end]
    ensures Placed(tokens, buffer', done, end)
  {
    forall k | 0 <= k < |done|
      ensures buffer'[tokens[k].at..tokens[k].at + tokens[k].length] == done[k] &&
        buffer'[tokens[k].at + tokens[k].length] == '\0'
    {
      var a, b := tokens[k].at, tokens[k].at + tokens[k].length;
      assert buffer[..end][a..b] == buffer[a..b] && buffer'[..end][a..b] == buffer'[a..b];
      assert buffer[..end][b] == buffer[b] && buffer'[..end][b] == buffer'[b];
    }
  }

  /** The next token joins the others. */
  lemma PlacedNext(tokens: seq<Stored>, tokens': seq<Stored>, buffer: seq<char>, done: seq<string>, end: nat,
      name: string)
    requires Placed(tokens, buffer, done, end) && |tokens| == |tokens'| && |done| < |tokens|
    requires tokens' == tokens[|done| := Stored(end, |name|, IndexOf(name))]
    requires end + |name| < |buffer| && buffer[end..end + |name|] == name && buffer[end + |name|] == '\0'
    ensures Placed(tokens', buffer, done + [name], end + |name| + 1)
  {
    var next := done + [name];
    forall k | 0 <= k < |next| ensures
      && tokens'[k].at + tokens'[k].length < end + |name| + 1
      && buffer[tokens'[k].at..tokens'[k].at + tokens'[k].length] == next[k]
      && buffer[tokens'[k].at + tokens'[k].length] == '\0'
      && tokens'[k].index == IndexOf(next[k])
    {
      if k < |done| {
        assert tokens'[k] == tokens[k];
      }
    }
  }

  /** The conversion of digits to an index. */
  method ConvertIndex(buffer: array<char>, at: nat, length: nat, digits: bool) returns (index: nat)
    requires at + length <= buffer.Length && digits == (length > 0 && AllDigits(buffer[at..at + length]))
    ensures index == IndexOf(buffer[at..at + length])
  {
    ghost var name := buffer[at..at + length];
    var isNumber := digits;
    if isNumber && length > 1 && buffer[at] == '0' {
      isNumber := false;
    }
    index := INVALID_INDEX;
    if isNumber {
      var n, j := 0, 0;
      while j < length
        invariant 0 <= j <= length && IndexFrom(name, j, n) == IndexFrom(name, 0, 0)
      {
        assert name[j] == buffer[at + j] && Digit(name[j]);
        var m := (n * 10 + (buffer[at + j] - '0') as nat) % WORD;
        if m < n {
          return;
        }
        n := m;
        j := j + 1;
      }
      index := n;
    }
  }

  lemma {:induction false} TripletsNext(source: string, i: nat, k: nat)
    ensures Triplets(source, i, k + 1) ==
      if Triplets(source, i, k).Some? && Triplet(source, i + 3 * k).Some?
      then Some(Triplets(source, i, k).value + [Triplet(source, i + 3 * k).value]) else None
    decreases k
  {
    hide Triplet;
    if k > 0 {
      TripletsNext(source, i + 3, k - 1);
      assert (i + 3) + 3 * (k - 1) == i + 3 * k;
      var c, v, t := Triplet(source, i), Triplets(source, i + 3, k - 1), Triplet(source, i + 3 * k);
      if c.Some? && v.Some? && t.Some? {
        assert [c.value] + (v.value + [t.value]) == [c.value] + v.value + [t.value];
      }
    } else {
      FirstOf(source, i);
    }
  }

  lemma FirstOf(source: string, i: nat)
    ensures Triplet(source, i).Some? ==> Triplets(source, i, 1) == Some([Triplet(source, i).value])
    ensures Triplets(source, i, 1).Some? == Triplet(source, i).Some?
    ensures Triplets(source, i, 0) == Some("") && forall c: char {:trigger [c]} :: "" + [c] == [c]
  {
    hide Triplet;
    assert Triplets(source, i + 3, 0) == Some("");
    var first := Triplet(source, i);
    if first.Some? {
      assert [first.value] + "" == [first.value] == "" + [first.value];
    }
  }

  /** The decoding of one percent-encoded sequence straight into the name buffer. Up to four bytes are
      written even where the sequence turns out not to be valid; 0 is returned then. */
  method DecodePercent(source: string, i: nat, buffer: array<char>, name: nat) returns (length: nat)
    requires i < |source| && name + 1 <= buffer.Length && (i + 3 <= |source| ==> name + 4 <= buffer.Length)
    modifies buffer
    ensures length == 0 <==> PercentSequence(source, i).None?
    ensures length > 0 ==> name + length <= buffer.Length
    ensures length > 0 ==> PercentSequence(source, i) == Some(buffer[name..name + length])
    ensures buffer[..name] == old(buffer[..name])
  {
    hide Triplet, Valid, Length;
    var first := Triplet(source, i);
    FirstOf(source, i);
    buffer[name] := if first.Some? then first.value else '\0';
    if first.None? {
      return 0;
    }
    var n := Length(first.value);
    var valid := true;
    var k := 1;
    assert buffer[name..name + 1] == [first.value];
    while k < n
      invariant 1 <= k <= n
      invariant if valid then Triplets(source, i, k) == Some(buffer[name..name + k]) else Triplets(source, i, k).None?
      invariant valid ==> buffer[name] == first.value
      invariant buffer[..name] == old(buffer[..name])
    {
      ghost var was := buffer[name..name + k];
      var next := if valid then Triplet(source, i + 3 * k) else None;
      TripletsNext(source, i, k);
      buffer[name + k] := if next.Some? then next.value else '\0';
      assert buffer[name..name + k + 1] == was + [buffer[name + k]];
      valid := valid && next.Some?;
      k := k + 1;
    }
    length := if valid && Valid(buffer[name..name + n]) then n else 0;
  }

  /** The body of the loop over the characters of a name: appends what stands for the piece at `i`. */
  method OnePiece(source: string, i: nat, uri: bool, buffer: array<char>, name: nat)
    returns (error: Option<Error>, i': nat, name': nat, digits: bool)
    requires i < |source| == buffer.Length && name + 1 + (if uri then 1 else 0) <= i
    modifies buffer
    ensures
      match ReadPiece(source, i, uri)
      case Failed(e, o) => error == Some(e) && i' == o
      case Ok(x, next) =>
        && error == None && i' == next && name' == name + |x| && name' < buffer.Length && buffer[name..name'] == x
        && digits == AllDigits(x)
    ensures buffer[..name] == old(buffer[..name])
  {
    hide PercentSequence, NeedPercentEncode, AllDigits;
    error, i', name', digits := None, i, name, true;
    var c := source[i];
    if uri {
      if c == '%' {
        var length := DecodePercent(source, i, buffer, name);
        if length == 0 {
          error := Some(InvalidPercentEncoding);
          return;
        }
        i' := i' + 3 * length - 1;
        if length == 1 {
          c := buffer[name];
        } else {
          LongIsNoNumber(source, i);
          name' := name + length;
          digits := false;
          i' := i' + 1;
          return;
        }
      } else if NeedPercentEncode(c) {
        error := Some(CharacterMustPercentEncode);
        return;
      }
    }
    i' := i' + 1;
    if c == '~' {
      if i' < |source| {
        c := source[i'];
        if c == '0' {
          c := '~';
        } else if c == '1' {
          c := '/';
        } else {
          error := Some(InvalidEscape);
          return;
        }
        i' := i' + 1;
      } else {
        error := Some(InvalidEscape);
        return;
      }
    }
    if c < '0' || c > '9' {
      digits := false;
    }
    buffer[name] := c;
    name' := name + 1;
    assert buffer[name..name'] == [c];
    OneDigit(c);
  }

  /** The loop over the characters of a name, which starts just after its slash. */
  method OneName(source: string, i: nat, uri: bool, buffer: array<char>, name: nat)
    returns (error: Option<Error>, i': nat, name': nat, isNumber: bool)
    requires i <= |source| == buffer.Length && name + 1 + (if uri then 1 else 0) <= i
    modifies buffer
    ensures
      match ReadName(source, i, uri)
      case Failed(e, o) => error == Some(e) && i' == o
      case Ok(x, next) =>
        && error == None && i' == next && name' == name + |x| && name' < buffer.Length && buffer[name..name'] == x
        && isNumber == AllDigits(x) && Slashes(source, i) == Slashes(source, next)
        && name' + 1 + (if uri then 1 else 0) <= next
    ensures buffer[..name] == old(buffer[..name])
  {
    hide ReadPiece, ReadName;
    error, i', name', isNumber := None, i, name, true;
    ghost var part := "";
    NoPart(ReadName(source, i, uri));
    while i' < |source| && source[i'] != '/'
      invariant i <= i' <= |source| && name' == name + |part| && name' + 1 + (if uri then 1 else 0) <= i'
      invariant name' < buffer.Length && buffer[name..name'] == part && buffer[..name] == old(buffer[..name])
      invariant error == None && isNumber == AllDigits(part)
      invariant ReadName(source, i, uri) == ThenName(part, ReadName(source, i', uri))
      invariant Slashes(source, i) == Slashes(source, i')
      decreases |source| - i'
    {
      ghost var before, at := i', name';
      ghost var whole := buffer[..name'];
      var digits;
      error, i', name', digits := OnePiece(source, i', uri, buffer, name');
      OnePart(source, before, uri, part);
      if error.Some? {
        return;
      }
      PieceNoSlash(source, before, uri);
      ghost var x := buffer[at..name'];
      Joined(whole, buffer[..], name, name', part);
      assert buffer[..][..name] == buffer[..name] && buffer[..][name..name'] == buffer[name..name'];
      DigitsJoin(part, x);
      part := part + x;
      isNumber := isNumber && digits;
    }
    EndPart(source, i', uri, part);
  }

  lemma OneDigit(c: char)
    ensures AllDigits([c]) <==> Digit(c)
  {
    assert [c][0] == c;
  }

  /** A sequence of more than one byte has no digit in front. */
  lemma LongIsNoNumber(source: string, i: nat)
    requires PercentSequence(source, i).Some? && |PercentSequence(source, i).value| > 1
    ensures !AllDigits(PercentSequence(source, i).value)
  {
    var b := PercentSequence(source, i).value;
    var n := Length(Triplet(source, i).value);
    assert b[0] == Triplet(source, i).value;
    assert !Digit(b[0]);
  }

  /** What was appended after `was`. */
  lemma Joined(was: string, now: string, from: nat, end: nat, part: string)
    requires from <= |was| <= end <= |now| && now[..|was|] == was && was[from..] == part
    ensures now[from..end] == part + now[|was|..end] && now[..from] == was[..from]
  {
    assert now[from..end] == now[..|was|][from..] + now[|was|..end];
    assert now[..from] == now[..|was|][..from];
  }

  lemma NoPart(r: Parsed<string>)
    ensures r == ThenName("", r)
  {
    if r.Ok? {
      assert "" + r.value == r.value;
    }
  }

  lemma DigitsJoin(x: string, y: string)
    ensures AllDigits(x + y) <==> AllDigits(x) && AllDigits(y)
  {
    if AllDigits(x + y) {
      assert forall k :: 0 <= k < |x| ==> x[k] == (x + y)[k];
      assert forall k :: 0 <= k < |y| ==> y[k] == (x + y)[|x| + k];
    }
  }

  lemma OnePart(source: string, i: nat, uri: bool, part: string)
    requires i < |source| && source[i] != '/'
    ensures
      match ReadPiece(source, i, uri)
      case Failed(e, o) => ThenName(part, ReadName(source, i, uri)) == Failed(e, o)
      case Ok(x, next) => ThenName(part, ReadName(source, i, uri)) == ThenName(part + x, ReadName(source, next, uri))
  {
    hide ReadPiece;
    match ReadPiece(source, i, uri)
    case Failed(_, _) =>
    case Ok(x, next) =>
      match ReadName(source, next, uri)
      case Failed(_, _) =>
      case Ok(y, _) => assert part + (x + y) == part + x + y;
  }

  lemma EndPart(source: string, i: nat, uri: bool, part: string)
    requires i <= |source| && (i == |source| || source[i] == '/')
    ensures ThenName(part, ReadName(source, i, uri)) == Ok(part, i)
  {
    assert part + "" == part;
  }

  /** One token: its name into the name buffer, and where it is, with its index, into the token array. */
  method OneToken(source: string, i: nat, uri: bool, buffer: array<char>, tokens: array<Stored>, token: nat, name: nat,
                  ghost done: seq<string>)
    returns (error: Option<Error>, i': nat, name': nat)
    requires i < |source| == buffer.Length && name + (if uri then 1 else 0) <= i
    requires token == |done| < tokens.Length && Placed(tokens[..], buffer[..], done, name)
    modifies buffer, tokens
    ensures
      match ReadName(source, i + 1, uri)
      case Failed(e, o) => error == Some(e) && i' == o
      case Ok(x, next) =>
        && error == None && i' == next && name' + (if uri then 1 else 0) <= next
        && Slashes(source, i + 1) == Slashes(source, next)
        && Placed(tokens[..], buffer[..], done + [x], name')
  {
    hide ReadName, Placed, IndexOf;
    ghost var before := buffer[..];
    var isNumber;
    error, i', name', isNumber := OneName(source, i + 1, uri, buffer, name);
    if error.Some? {
      return;
    }
    var end := name';
    assert buffer[..][..name] == before[..name];
    buffer[end] := '\0';
    assert buffer[..][..name] == before[..name];
    ghost var text := buffer[name..end];
    var index := ConvertIndex(buffer, name, end - name, isNumber && end - name > 0);
    PlacedKept(tokens[..], before, buffer[..], done, name);
    ghost var was := tokens[..];
    tokens[token] := Stored(name, end - name, index);
    PlacedNext(was, tokens[..], buffer[..], done, name, text);
    name' := end + 1;
  }

  // ----- The pointer -----

  /** A run over the names that were read, so far. */
  lemma NoNamesYet(r: Parsed<seq<string>>)
    ensures r == ThenNames([], r)
  {
    if r.Ok? {
      assert [] + r.value == r.value;
    }
  }

  lemma OneMoreName(source: string, i: nat, uri: bool, done: seq<string>)
    requires i < |source| && source[i] == '/'
    ensures
      match ReadName(source, i + 1, uri)
      case Failed(e, o) => ThenNames(done, ReadNames(source, i, uri)) == Failed(e, o)
      case Ok(x, next) =>
        ThenNames(done, ReadNames(source, i, uri)) == ThenNames(done + [x], ReadNames(source, next, uri))
  {
    hide ReadName;
    match ReadName(source, i + 1, uri)
    case Failed(_, _) =>
    case Ok(x, next) =>
      match ReadNames(source, next, uri)
      case Failed(_, _) =>
      case Ok(y, _) => assert done + ([x] + y) == done + [x] + y;
  }

  lemma AllNames(source: string, uri: bool, done: seq<string>)
    ensures ThenNames(done, ReadNames(source, |source|, uri)) == Ok(done, |source|)
  {
    assert done + [] == done;
  }

  method CountSlashes(source: string) returns (n: nat)
    ensures n == Slashes(source, 0)
  {
    n := 0;
    var i := 0;
    while i < |source|
      invariant 0 <= i <= |source| && n + Slashes(source, i) == Slashes(source, 0)
    {
      if source[i] == '/' {
        n := n + 1;
      }
      i := i + 1;
    }
  }

  class GenericPointer {
    var nameBuffer: array<char>
    var tokens: array<Stored>
    var tokenCount: nat
    var parseError: Option<Error>
    var parseErrorOffset: nat

    constructor ()
      ensures tokenCount == 0 && parseError == None
    {
      nameBuffer, tokens := new char[0], new Stored[0];
      tokenCount, parseError, parseErrorOffset := 0, None, 0;
    }

    /** The tokens, with their names as they are in the name buffer. */
    ghost predicate Holds(names: seq<string>)
      reads this, nameBuffer, tokens
    {
      && tokenCount == |names| == tokens.Length
      && Placed(tokens[..], nameBuffer[..], names, nameBuffer.Length)
    }

    /** `Parse`: the tokens are those of the names that the text stands for, in a name buffer as long as the
        text, and there is one for every slash. A text that is no pointer leaves no tokens, and says where
        and why. */
    method Parse(source: string)
      modifies this
      ensures match ParseNames(source)
        case Ok(names, _) => parseError == None && Holds(names) && nameBuffer.Length == |source| &&
            tokenCount == Slashes(source, 0)
        case Failed(e, o) => parseError == Some(e) && parseErrorOffset == o && tokenCount == 0
      ensures fresh(nameBuffer) && fresh(tokens)
    {
      hide ReadName, ReadNames, Placed;
      tokenCount := CountSlashes(source);
      tokens := new Stored[tokenCount](_ => Stored(0, 0, 0));
      nameBuffer := new char[|source|](_ => '\0');
      var i: nat, name: nat, token: nat := 0, 0, 0;
      var uri := source != "" && source[0] == '#';
      if uri {
        i := i + 1;
      }
      if i < |source| && source[i] != '/' {
        Fail(TokenMustBeginWithSolidus, i);
        return;
      }
      ghost var start, done := i, [];
      NoNamesYet(ReadNames(source, i, uri));
      NothingPlaced(tokens[..], nameBuffer[..]);
      while i < |source|
        invariant start <= i <= |source| && (i < |source| ==> source[i] == '/')
        invariant fresh(nameBuffer) && fresh(tokens) && nameBuffer.Length == |source| &&
          tokens.Length == tokenCount == Slashes(source, 0)
        invariant token == |done| && token + Slashes(source, i) == tokenCount
        invariant name + (if uri then 1 else 0) <= i
        invariant Placed(tokens[..], nameBuffer[..], done, name)
        invariant ReadNames(source, start, uri) == ThenNames(done, ReadNames(source, i, uri))
        decreases |source| - i
      {
        OneMoreName(source, i, uri, done);
        var error, i', name' := OneToken(source, i, uri, nameBuffer, tokens, token, name, done);
        if error.Some? {
          Fail(error.value, i');
          return;
        }
        done := done + [ReadName(source, i + 1, uri).value];
        name, i, token := name', i', token + 1;
      }
      AllNames(source, uri, done);
      PlacedWithin(tokens[..], nameBuffer[..], done, name);
      parseError := None;
    }

    /** The error exit of `Parse`. */
    method Fail(error: Error, offset: nat)
      modifies this`tokenCount, this`parseError, this`parseErrorOffset
      ensures tokenCount == 0 && parseError == Some(error) && parseErrorOffset == offset
    {
      tokenCount, parseError, parseErrorOffset := 0, Some(error), offset;
    }
  }

  lemma NothingPlaced(tokens: seq<Stored>, buffer: seq<char>)
    ensures Placed(tokens, buffer, [], 0)
  {
  }

  lemma PlacedWithin(tokens: seq<Stored>, buffer: seq<char>, done: seq<string>, end: nat)
    requires Placed(tokens, buffer, done, end)
    ensures Placed(tokens, buffer, done, |buffer|)
  {
  }

  // ----- The printer's loops -----

  /** The loop over the characters of a name. */
  method PrintName(name: string, uri: bool, out: string) returns (ok: bool, out': string)
    requires Bytes(name)
    ensures (if ok then Some(out') else None) == Prepend(out, NameText(name, uri))
  {
    hide NameText, PercentAll, Length, Valid, NeedPercentEncode;
    var j := 0;
    ok, out' := true, out;
    while j < |name|
      invariant ok && 0 <= j <= |name|
      invariant Prepend(out', NameText(name[j..], uri)) == Prepend(out, NameText(name, uri))
      decreases |name| - j
    {
      var c := name[j];
      PieceText(name, j, uri, out');
      if c == '~' {
        out' := out' + "~0";
      } else if c == '/' {
        out' := out' + "~1";
      } else if uri && NeedPercentEncode(c) {
        var n := Length(c);
        if j + n > |name| || !Valid(name[j..j + n]) {
          return false, out';
        }
        out' := out' + PercentAll(name[j..j + n]);
        j := j + n - 1;
      } else {
        out' := out' + [c];
      }
      j := j + 1;
    }
    assert name[j..] == "";
    EmptyText(uri);
    assert out' + "" == out';
  }

  /** What is printed for the character at `j`, or the sequence that starts there. */
  lemma PieceText(name: string, j: nat, uri: bool, out: string)
    requires Bytes(name) && j < |name|
    ensures
      var c := name[j];
      var rest := Prepend(out, NameText(name[j..], uri));
      if c == '~' then rest == Prepend(out + "~0", NameText(name[j + 1..], uri))
      else if c == '/' then rest == Prepend(out + "~1", NameText(name[j + 1..], uri))
      else if uri && NeedPercentEncode(c) then
        var n := Length(c);
        if j + n > |name| || !Valid(name[j..j + n]) then rest == None
        else rest == Prepend(out + PercentAll(name[j..j + n]), NameText(name[j + n..], uri))
      else rest == Prepend(out + [c], NameText(name[j + 1..], uri))
  {
    hide PercentAll, Length, Valid, NeedPercentEncode;
    var s := name[j..];
    var c := name[j];
    assert s[0] == c && s[1..] == name[j + 1..];
    var n := Length(c);
    if j + n <= |name| {
      assert s[..n] == name[j..j + n] && s[n..] == name[j + n..];
      PrependTwice(out, PercentAll(s[..n]), NameText(s[n..], uri));
    }
    PrependTwice(out, "~0", NameText(s[1..], uri));
    PrependTwice(out, "~1", NameText(s[1..], uri));
    PrependTwice(out, [c], NameText(s[1..], uri));
  }

  lemma PrependTwice(x: string, y: string, r: Option<string>)
    ensures Prepend(x, Prepend(y, r)) == Prepend(x + y, r)
  {
    if r.Some? {
      assert x + (y + r.value) == x + y + r.value;
    }
  }

  /** `Stringify`: the loop over the tokens. */
  method Print(names: seq<string>, uri: bool) returns (ok: bool, out: string)
    requires AllBytes(names)
    ensures (if ok then Some(out) else None) == Stringify(names, uri)
  {
    hide NameText, NamesText;
    ok, out := true, if uri then "#" else "";
    var t := 0;
    assert names[0..] == names;
    while t < |names|
      invariant ok && 0 <= t <= |names|
      invariant Prepend(out, NamesText(names[t..], uri)) == Stringify(names, uri)
      decreases |names| - t
    {
      TokenText(names, t, uri, out);
      ok, out := PrintName(names[t], uri, out + "/");
      if !ok {
        return;
      }
      t := t + 1;
    }
    assert names[t..] == [];
    NoTokens(uri);
    assert out + "" == out;
  }

  lemma NoTokens(uri: bool)
    ensures NamesText([], uri) == Some("")
  {
  }

  lemma TokenText(names: seq<string>, t: nat, uri: bool, out: string)
    requires AllBytes(names) && t < |names|
    ensures
      var first := Prepend(out + "/", NameText(names[t], uri));
      Prepend(out, NamesText(names[t..], uri)) ==
        if first.None? then None else Prepend(first.value, NamesText(names[t + 1..], uri))
  {
    hide NameText;
    var s := names[t..];
    assert s[0] == names[t] && s[1..] == names[t + 1..];
    var x, y := NameText(names[t], uri), NamesText(names[t + 1..], uri);
    if x.Some? && y.Some? {
      assert out + ("/" + x.value + y.value) == out + "/" + x.value + y.value;
    }
  }
}
