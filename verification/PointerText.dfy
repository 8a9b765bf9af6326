/** The texts of JSON Pointers against their standards: the names that RFC 6901 gives a text, in either form, with
    hexadecimal digits of either case; which texts are refused, and where; and the UTF-8 of RFC 3629. */
module PointerText {
  import opened Hexadecimal
  import opened JsonPointer
  import JsonReader
  import opened Options

  // ----- Hexadecimal digits of either case -----

  /** The same character, or the same letter from A to F in the other case. */
  predicate SameLetter(c: char, d: char) {
    || c == d
    || ('A' <= c <= 'F' && d as nat == c as nat + 32)
    || ('A' <= d <= 'F' && c as nat == d as nat + 32)
  }

  /** Position `i` is one of the two after a percent sign. */
  predicate InTriplet(s: string, i: nat)
    requires i < |s|
  {
    (i >= 1 && s[i - 1] == '%') || (i >= 2 && s[i - 2] == '%')
  }

  /** The texts differ in the case of digits after percent signs only. */
  ghost predicate Recased(s: string, r: string) {
    |s| == |r| && forall i {:trigger s[i]} {:trigger r[i]} :: 0 <= i < |s| ==>
      s[i] == r[i] || (SameLetter(s[i], r[i]) && InTriplet(s, i))
  }

  lemma SameValue(c: char, d: char)
    requires SameLetter(c, d)
    ensures HexChar(c) == HexChar(d) && (HexChar(c) ==> HexValue(c) == HexValue(d))
    ensures c == d || (HexChar(c) && c != '0' && c != '1')
  {
  }

  lemma TripletSame(s: string, r: string, i: nat)
    requires Recased(s, r)
    ensures Triplet(s, i) == Triplet(r, i)
  {
    hide HexChar, HexValue;
    if i + 3 <= |s| {
      SameValue(s[i], r[i]);
      SameValue(s[i + 1], r[i + 1]);
      SameValue(s[i + 2], r[i + 2]);
      NoDigit('%');
    }
  }

  lemma NoDigit(c: char)
    requires c == '%' || c == '/' || c == '~'
    ensures !HexChar(c)
  {
  }

  lemma {:induction false} TripletsSame(s: string, r: string, i: nat, n: nat)
    requires Recased(s, r)
    ensures Triplets(s, i, n) == Triplets(r, i, n)
    decreases n
  {
    hide Triplet;
    if n > 0 {
      TripletSame(s, r, i);
      TripletsSame(s, r, i + 3, n - 1);
    }
  }

  /** No digit of a triplet is at `i`. */
  predicate Outside(s: string, i: nat)
    requires i <= |s|
  {
    (i >= 1 ==> s[i - 1] != '%') && (i >= 2 ==> s[i - 2] != '%')
  }

  lemma {:induction false} TripletsEnd(s: string, i: nat, n: nat)
    requires Triplets(s, i, n).Some? && n > 0
    ensures i + 3 * n <= |s| && Outside(s, i + 3 * n)
    decreases n
  {
    if n > 1 {
      TripletsEnd(s, i + 3, n - 1);
    } else {
      NoDigit('%');
    }
  }

  lemma UnescapeSame(s: string, r: string, i: nat)
    requires Recased(s, r) && i <= |s|
    ensures Unescape(s, i) == Unescape(r, i)
  {
    if i < |s| {
      SameValue(s[i], r[i]);
    }
  }

  lemma PieceSame(s: string, r: string, i: nat)
    requires Recased(s, r) && i < |s| && Outside(s, i)
    ensures |s| == |r| && s[i] == r[i] && ReadPiece(s, i, true) == ReadPiece(r, i, true)
    ensures ReadPiece(s, i, true).Ok? ==> Outside(s, ReadPiece(s, i, true).next)
  {
    hide Triplet, Triplets, NeedPercentEncode, Literal, Recased, Valid, Length;
    SameLength(s, r);
    assert s[i] == r[i] by { AtSame(s, r, i); }
    if s[i] == '%' {
      TripletSame(s, r, i);
      var first := Triplet(s, i);
      if first.Some? {
        var n := Length(first.value);
        TripletsSame(s, r, i, n);
        if PercentSequence(s, i).Some? {
          TripletsEnd(s, i, n);
          FirstIs(s, i, n);
          if n == 1 {
            LiteralSame(s, r, first.value, i + 3);
          }
        }
      }
    } else {
      LiteralSame(s, r, s[i], i + 1);
    }
  }

  lemma AtSame(s: string, r: string, i: nat)
    requires Recased(s, r) && i < |s| && Outside(s, i)
    ensures s[i] == r[i]
  {
  }

  lemma FirstIs(s: string, i: nat, n: nat)
    requires Triplets(s, i, n).Some? && n > 0
    ensures Triplet(s, i) == Some(Triplets(s, i, n).value[0])
  {
  }

  lemma LiteralSame(s: string, r: string, c: char, next: nat)
    requires Recased(s, r) && next <= |s| && Outside(s, next)
    ensures Literal(s, c, next) == Literal(r, c, next)
    ensures Literal(s, c, next).Ok? ==> Outside(s, Literal(s, c, next).next)
  {
    UnescapeSame(s, r, next);
  }

  lemma {:induction false} NameSame(s: string, r: string, i: nat)
    requires Recased(s, r) && i <= |s| && Outside(s, i)
    ensures ReadName(s, i, true) == ReadName(r, i, true)
    ensures ReadName(s, i, true).Ok? ==> Outside(s, ReadName(s, i, true).next)
    decreases |s| - i
  {
    hide ReadPiece, Outside, Recased;
    SameLength(s, r);
    if i < |s| {
      PieceSame(s, r, i);
      if s[i] != '/' && ReadPiece(s, i, true).Ok? {
        NameSame(s, r, ReadPiece(s, i, true).next);
      }
    }
  }

  lemma SameLength(s: string, r: string)
    requires Recased(s, r)
    ensures |s| == |r|
  {
  }

  lemma {:induction false} NamesSame(s: string, r: string, i: nat)
    requires Recased(s, r) && i <= |s| && Outside(s, i) && (i < |s| ==> s[i] == '/' && r[i] == '/')
    ensures ReadNames(s, i, true) == ReadNames(r, i, true)
    decreases |s| - i
  {
    hide ReadName, Recased;
    SameLength(s, r);
    if i < |s| {
      NameSame(s, r, i + 1);
      if ReadName(s, i + 1, true).Ok? {
        var next := ReadName(s, i + 1, true).next;
        if next < |s| {
          AtSame(s, r, next);
        }
        NamesSame(s, r, next);
      }
    }
  }

  /** The case of hexadecimal digits makes no difference to a fragment: it gives the same names, or the same error at
      the same place. */
  lemma AnyCase(s: string, r: string)
    requires s != "" && s[0] == '#' && Recased(s, r)
    ensures ParseNames(s) == ParseNames(r)
  {
    hide Recased, ReadNames;
    SameLength(s, r);
    AtSame(s, r, 0);
    if |s| > 1 {
      AtSame(s, r, 1);
    }
    if |s| == 1 || s[1] == '/' {
      NamesSame(s, r, 1);
    }
  }

  /** So every list of names is read back from its fragment form with digits of either case. */
  lemma AnyCaseBack(names: seq<string>, r: string)
    requires AllBytes(names) && Stringify(names, true).Some? && Recased(Stringify(names, true).value, r)
    ensures ParseNames(r) == Ok(names, |r|)
  {
    RoundTrip(names, true);
    AnyCase(Stringify(names, true).value, r);
  }

  // ----- RFC 6901: the names of a text -----

  /** Every `~d` replaced by `c`, from the left. */
  function Replaced(s: string, d: char, c: char): string {
    if s == "" then ""
    else if |s| > 1 && s[0] == '~' && s[1] == d then [c] + Replaced(s[2..], d, c)
    else [s[0]] + Replaced(s[1..], d, c)
  }

  /** Section 4 of RFC 6901: first `~1` is replaced by a slash, and then `~0` by a tilde. */
  function RfcName(part: string): string {
    Replaced(Replaced(part, '1', '/'), '0', '~')
  }

  function FirstSlash(s: string): (k: nat)
    ensures k <= |s| && (k < |s| ==> s[k] == '/') && forall i :: 0 <= i < k ==> s[i] != '/'
  {
    if s == "" || s[0] == '/' then 0 else 1 + FirstSlash(s[1..])
  }

  /** Section 3: a text is a sequence of parts, each after a slash. */
  function RfcNames(s: string): seq<string>
    decreases |s|
  {
    if s == "" then []
    else
      var k := FirstSlash(s[1..]);
      [RfcName(s[1..][..k])] + RfcNames(s[1..][k..])
  }

  /** Every tilde is followed by 0 or 1. */
  predicate TildesOk(s: string) {
    s == ""
    || (s[0] == '~' && |s| > 1 && (s[1] == '0' || s[1] == '1') && TildesOk(s[1..]))
    || (s[0] != '~' && TildesOk(s[1..]))
  }

  lemma PlainFirst(c: char, s: string)
    requires c != '~'
    ensures RfcName([c] + s) == [c] + RfcName(s) && TildesOk([c] + s) == TildesOk(s)
  {
    assert ([c] + s)[1..] == s;
    var r := Replaced(s, '1', '/');
    assert ([c] + r)[1..] == r;
  }

  lemma EscapeFirst(d: char, s: string)
    requires d == '0' || d == '1'
    ensures RfcName(['~', d] + s) == [if d == '0' then '~' else '/'] + RfcName(s)
    ensures TildesOk(['~', d] + s) == TildesOk(s)
  {
    var e := ['~', d] + s;
    assert e[1..] == [d] + s && e[2..] == s && ([d] + s)[1..] == s;
    var r := Replaced(s, '1', '/');
    if d == '0' {
      assert Replaced(e, '1', '/') == ['~'] + (['0'] + r);
      var f := ['~'] + (['0'] + r);
      assert f[2..] == r;
    } else {
      assert Replaced(e, '1', '/') == ['/'] + r;
      assert (['/'] + r)[1..] == r;
    }
  }

  /** The error of a tilde that starts no escape, just after it. */
  predicate WrongTilde<T>(source: string, p: Parsed<T>) {
    p.Failed? && p.error == InvalidEscape && 0 < p.offset <= |source| && source[p.offset - 1] == '~'
    && (p.offset == |source| || (source[p.offset] != '0' && source[p.offset] != '1'))
  }

  /** The string form of a name, up to the next slash: the name is what RFC 6901 says it is, and there is one exactly if
      every tilde starts an escape. */
  lemma {:induction false} NameIsRfc(source: string, i: nat)
    requires i <= |source|
    ensures
      var k := FirstSlash(source[i..]);
      var part := source[i..][..k];
      if TildesOk(part) then ReadName(source, i, false) == Ok(RfcName(part), i + k)
      else ReadName(source, i, false).Failed? && WrongTilde(source, ReadName(source, i, false))
    decreases |source| - i
  {
    var k := FirstSlash(source[i..]);
    var part := source[i..][..k];
    if i == |source| || source[i] == '/' {
      assert part == "";
    } else if source[i] != '~' {
      NameIsRfc(source, i + 1);
      NextPart(source, i);
      PlainFirst(source[i], source[i + 1..][..k - 1]);
    } else if i + 1 < |source| && (source[i + 1] == '0' || source[i + 1] == '1') {
      NameIsRfc(source, i + 2);
      NextPart(source, i);
      NextPart(source, i + 1);
      EscapeFirst(source[i + 1], source[i + 2..][..k - 2]);
      assert part == ['~', source[i + 1]] + source[i + 2..][..k - 2];
    } else {
      NextPart(source, i);
      assert part[0] == '~' && (|part| > 1 ==> part[1] == source[i + 1]);
    }
  }

  /** The part that starts at `i` goes on with the one that starts after it. */
  lemma NextPart(source: string, i: nat)
    requires i < |source| && source[i] != '/'
    ensures
      var k := FirstSlash(source[i..]);
      && k > 0 && k - 1 == FirstSlash(source[i + 1..])
      && source[i..][..k] == [source[i]] + source[i + 1..][..k - 1]
  {
    assert source[i..][1..] == source[i + 1..];
  }

  lemma {:induction false} TildesParts(s: string, k: nat)
    requires k <= |s| && (k < |s| ==> s[k] == '/')
    ensures TildesOk(s) <==> TildesOk(s[..k]) && TildesOk(s[k..])
    decreases k
  {
    if k == 0 {
      assert s[..0] == "" && s[0..] == s;
    } else {
      TildesParts(s[1..], k - 1);
      assert s[..k][1..] == s[1..][..k - 1] && s[k..] == s[1..][k - 1..];
    }
  }

  lemma {:induction false} NamesAreRfc(source: string, i: nat)
    requires i <= |source| && (i < |source| ==> source[i] == '/')
    ensures
      if TildesOk(source[i..]) then ReadNames(source, i, false) == Ok(RfcNames(source[i..]), |source|)
      else WrongTilde(source, ReadNames(source, i, false))
    decreases |source| - i
  {
    hide RfcName, RfcNames, ReadName, TildesOk, WrongTilde, FirstSlash;
    if i == |source| {
      NoText();
      assert source[i..] == "";
    } else {
      var k := FirstSlash(source[i + 1..]);
      var j := i + 1 + k;
      NameIsRfc(source, i + 1);
      FirstPartAt(source, i);
      NamesAreRfc(source, j);
      if !TildesOk(source[i + 1..][..k]) {
        WrongName(source, ReadName(source, i + 1, false), ReadNames(source, i, false));
      } else if !TildesOk(source[j..]) {
        WrongStays(source, ReadNames(source, j, false), ReadNames(source, i, false));
      }
    }
  }

  lemma FirstPartAt(source: string, i: nat)
    requires i < |source| && source[i] == '/'
    ensures
      var k := FirstSlash(source[i + 1..]);
      var j := i + 1 + k;
      && j <= |source| && (j < |source| ==> source[j] == '/')
      && RfcNames(source[i..]) == [RfcName(source[i + 1..][..k])] + RfcNames(source[j..])
      && (TildesOk(source[i..]) <==> TildesOk(source[i + 1..][..k]) && TildesOk(source[j..]))
  {
    hide RfcName, RfcNames, TildesOk;
    var s := source[i + 1..];
    FirstPart(s);
    assert source[i..] == "/" + s && s[FirstSlash(s)..] == source[i + 1 + FirstSlash(s)..];
  }

  lemma WrongStays(source: string, p: Parsed<seq<string>>, q: Parsed<seq<string>>)
    requires WrongTilde(source, p) && (p.Failed? ==> q == Failed(p.error, p.offset))
    ensures WrongTilde(source, q)
  {
  }

  lemma WrongName(source: string, p: Parsed<string>, q: Parsed<seq<string>>)
    requires WrongTilde(source, p) && (p.Failed? ==> q == Failed(p.error, p.offset))
    ensures WrongTilde(source, q)
  {
  }

  /** A text that starts with a slash: the first part, and the rest. */
  lemma FirstPart(s: string)
    ensures
      var k := FirstSlash(s);
      && RfcNames("/" + s) == [RfcName(s[..k])] + RfcNames(s[k..])
      && (TildesOk("/" + s) <==> TildesOk(s[..k]) && TildesOk(s[k..]))
  {
    hide RfcName;
    assert ("/" + s)[1..] == s;
    TildesParts(s, FirstSlash(s));
  }

  lemma NoText()
    ensures TildesOk("") && RfcNames("") == []
  {
  }

  /** The string form meets RFC 6901: a text that is not empty and starts with something other than a slash is refused
      at once, a text with a tilde that starts no escape after that tilde, and every other gives the names of the
      standard. */
  lemma PlainIsRfc(source: string)
    requires source == "" || source[0] != '#'
    ensures
      if source != "" && source[0] != '/' then ParseNames(source) == Failed(TokenMustBeginWithSolidus, 0)
      else if TildesOk(source) then ParseNames(source) == Ok(RfcNames(source), |source|)
      else WrongTilde(source, ParseNames(source))
  {
    assert source[0..] == source;
    if source == "" || source[0] == '/' {
      NamesAreRfc(source, 0);
    }
  }

  // ----- RFC 6901: fragments -----

  /** Section 6 of RFC 6901: a fragment stands for the string form that percent-decoding makes of it. */
  function Decoded(s: string, i: nat): string
    requires i <= |s|
    decreases |s| - i
  {
    if i == |s| then ""
    else
      var c := Triplet(s, i);
      if c.Some? then [c.value] + Decoded(s, i + 3) else [s[i]] + Decoded(s, i + 1)
  }

  /** A percent-encoded slash starts somewhere from `i` up to `j`. */
  ghost predicate HidesSlash(s: string, i: nat, j: nat) {
    exists k: nat {:trigger Triplet(s, k)} :: i <= k < j && Triplet(s, k) == Some('/')
  }

  function Count(s: string): nat {
    if s == "" then 0 else (if s[0] == '/' then 1 else 0) + Count(s[1..])
  }

  lemma {:induction false} CountConcat(s: string, r: string)
    ensures Count(s + r) == Count(s) + Count(r)
    decreases |s|
  {
    if s == "" {
      assert s + r == r;
    } else {
      CountConcat(s[1..], r);
      assert (s + r)[1..] == s[1..] + r;
    }
  }

  /** There are as many names as slashes. */
  lemma {:induction false} RfcCount(s: string)
    requires s != "" ==> s[0] == '/'
    ensures |RfcNames(s)| == Count(s)
    decreases |s|
  {
    hide RfcName;
    if s != "" {
      var k := FirstSlash(s[1..]);
      RfcCount(s[1..][k..]);
      CountConcat(s[1..][..k], s[1..][k..]);
      assert s[1..] == s[1..][..k] + s[1..][k..];
      NoneCounted(s[1..][..k]);
    }
  }

  lemma {:induction false} NoneCounted(s: string)
    requires forall i :: 0 <= i < |s| ==> s[i] != '/'
    ensures Count(s) == 0
    decreases |s|
  {
    if s != "" {
      NoneCounted(s[1..]);
    }
  }

  lemma {:induction false} TripletsDecode(s: string, i: nat, n: nat)
    requires Triplets(s, i, n).Some? && i <= |s|
    ensures i + 3 * n <= |s| && Decoded(s, i) == Triplets(s, i, n).value + Decoded(s, i + 3 * n)
    ensures forall k: nat {:trigger Triplet(s, k)} :: i <= k < i + 3 * n && Triplet(s, k).Some? ==>
      Triplet(s, k).value in Triplets(s, i, n).value
    decreases n
  {
    if n > 0 {
      var rest := Triplets(s, i + 3, n - 1).value;
      TripletsDecode(s, i + 3, n - 1);
      var c := Triplet(s, i).value;
      assert Triplets(s, i, n).value == [c] + rest;
      assert [c] + rest + Decoded(s, i + 3 * n) == [c] + (rest + Decoded(s, i + 3 * n));
      NoDigit('%');
      assert Triplet(s, i + 1) == None && Triplet(s, i + 2) == None;
    } else {
      assert "" + Decoded(s, i) == Decoded(s, i);
    }
  }

  /** The bytes of a sequence of more than one are above those of ASCII. */
  lemma LongIsHigh(b: string)
    requires b != "" && |b| == Length(b[0]) && Valid(b) && |b| > 1
    ensures forall k :: 0 <= k < |b| ==> b[k] >= '\U{80}'
  {
  }

  /** A percent-encoded sequence is decoded to its bytes; no slash hides in one of more than one byte. */
  lemma SequenceDecodes(s: string, i: nat)
    requires PercentSequence(s, i).Some? && i <= |s|
    ensures
      var b := PercentSequence(s, i).value;
      && Decoded(s, i) == b + Decoded(s, i + 3 * |b|) && Triplet(s, i) == Some(b[0])
      && (|b| > 1 ==> (forall k :: 0 <= k < |b| ==> b[k] >= '\U{80}') && !HidesSlash(s, i, i + 3 * |b|))
  {
    hide Valid, Length, Triplet, Decoded;
    var b := PercentSequence(s, i).value;
    FirstIs(s, i, |b|);
    TripletsDecode(s, i, |b|);
    if |b| > 1 {
      LongIsHigh(b);
    }
  }

  /** A piece is decoded to raw characters of which the string form makes the same piece. */
  lemma PieceDecodes(s: string, i: nat, x: string, next: nat) returns (raw: string)
    requires i < |s| && s[i] != '/' && ReadPiece(s, i, true) == Ok(x, next)
    ensures next <= |s| && Decoded(s, i) == raw + Decoded(s, next)
    ensures
      || (|raw| == 2 && raw[0] == '~' && ((raw[1] == '0' && x == "~") || (raw[1] == '1' && x == "/")))
      || (raw == x && forall k :: 0 <= k < |raw| ==> raw[k] != '~')
    ensures '/' in raw <==> HidesSlash(s, i, next)
  {
    hide Valid, Length, NeedPercentEncode, Triplet, Triplets, Decoded, HidesSlash, Literal, PercentSequence;
    if s[i] == '%' {
      var b := PercentSequence(s, i).value;
      SequenceDecodes(s, i);
      if |b| == 1 {
        raw := OneDecodes(s, i, b[0], i + 3, x, next);
        OneHides(s, i, i + 3, next);
      } else {
        raw := b;
      }
    } else {
      NoTriplet(s, i);
      raw := OneDecodes(s, i, s[i], i + 1, x, next);
      OneHides(s, i, i + 1, next);
    }
  }

  lemma NoTriplet(s: string, i: nat)
    requires i < |s| && s[i] != '%'
    ensures Triplet(s, i) == None && Decoded(s, i) == [s[i]] + Decoded(s, i + 1)
  {
  }

  /** A character that was read raw or from a triplet, and the escape that it may start. */
  lemma OneDecodes(s: string, i: nat, c: char, at: nat, x: string, next: nat) returns (raw: string)
    requires i < at <= |s| && Decoded(s, i) == [c] + Decoded(s, at) && Literal(s, c, at) == Ok(x, next)
    ensures next <= |s| && Decoded(s, i) == raw + Decoded(s, next)
    ensures raw == if c == '~' then ['~', s[at]] else [c]
    ensures if c == '~' then next == at + 1 <= |s| && (s[at] == '0' || s[at] == '1') else next == at
    ensures x == if c != '~' then [c] else if s[at] == '0' then "~" else "/"
  {
    if c == '~' {
      raw := ['~', s[at]];
      NoTriplet(s, at);
      assert [c] + ([s[at]] + Decoded(s, at + 1)) == raw + Decoded(s, at + 1);
    } else {
      raw := [c];
    }
  }

  /** Only at its start can a single piece hide a slash. */
  lemma OneHides(s: string, i: nat, at: nat, next: nat)
    requires i < |s| && (at == i + 1 || (at == i + 3 && Triplet(s, i).Some?)) && at <= next <= at + 1 && next <= |s|
    requires next == at + 1 ==> s[at] != '%'
    ensures HidesSlash(s, i, next) <==> Triplet(s, i) == Some('/')
  {
    if at == i + 3 {
      NoDigit('%');
      assert Triplet(s, i + 1) == None && Triplet(s, i + 2) == None;
    }
    if next == at + 1 {
      assert Triplet(s, at) == None;
    }
    if HidesSlash(s, i, next) {
      var k: nat :| i <= k < next && Triplet(s, k) == Some('/');
      assert k == i;
    }
  }
  /** Characters that start no escape stay. */
  lemma {:induction false} PlainRun(raw: string, s: string)
    requires forall k :: 0 <= k < |raw| ==> raw[k] != '~'
    ensures RfcName(raw + s) == raw + RfcName(s) && TildesOk(raw + s) == TildesOk(s)
    decreases |raw|
  {
    hide RfcName, TildesOk;
    if raw == "" {
      assert raw + s == s && raw + RfcName(s) == RfcName(s);
    } else {
      PlainRun(raw[1..], s);
      PlainFirst(raw[0], raw[1..] + s);
      assert raw + s == [raw[0]] + (raw[1..] + s);
      assert raw + RfcName(s) == [raw[0]] + (raw[1..] + RfcName(s));
    }
  }

  lemma PieceName(raw: string, x: string, s: string)
    requires
      || (|raw| == 2 && raw[0] == '~' && ((raw[1] == '0' && x == "~") || (raw[1] == '1' && x == "/")))
      || (raw == x && forall k :: 0 <= k < |raw| ==> raw[k] != '~')
    ensures RfcName(raw + s) == x + RfcName(s) && TildesOk(raw + s) == TildesOk(s)
  {
    hide RfcName, TildesOk;
    if |raw| == 2 && raw[0] == '~' {
      assert raw == ['~', raw[1]];
      EscapeFirst(raw[1], s);
    } else {
      PlainRun(raw, s);
    }
  }

  /** A name that was read from a fragment is the name that RFC 6901 gives what its text decodes to. */
  lemma {:induction false} NameDecodes(s: string, i: nat, name: string, next: nat) returns (part: string)
    requires i <= |s| && ReadName(s, i, true) == Ok(name, next)
    ensures i <= next <= |s| && Decoded(s, i) == part + Decoded(s, next)
    ensures RfcName(part) == name && TildesOk(part) && ('/' in part <==> HidesSlash(s, i, next))
    decreases |s| - i
  {
    hide ReadPiece, RfcName, TildesOk, Decoded, HidesSlash;
    if i == |s| || s[i] == '/' {
      part := "";
      NoName(s, i);
      assert Decoded(s, i) == part + Decoded(s, i);
    } else {
      var p := ReadPiece(s, i, true);
      var rest := ReadName(s, p.next, true);
      var raw := PieceDecodes(s, i, p.value, p.next);
      var more := NameDecodes(s, p.next, rest.value, next);
      part := raw + more;
      PieceName(raw, p.value, more);
      HidesEither(s, i, p.next, next);
      assert raw + (more + Decoded(s, next)) == part + Decoded(s, next);
    }
  }

  lemma NoName(s: string, i: nat)
    ensures RfcName("") == "" && TildesOk("") && !HidesSlash(s, i, i)
  {
  }

  lemma HidesEither(s: string, i: nat, j: nat, k: nat)
    requires i <= j <= k
    ensures HidesSlash(s, i, k) <==> HidesSlash(s, i, j) || HidesSlash(s, j, k)
  {
  }

  lemma {:induction false} TildesJoin(s: string, r: string)
    requires TildesOk(s) && TildesOk(r)
    ensures TildesOk(s + r)
    decreases |s|
  {
    if s == "" {
      assert s + r == r;
    } else {
      TildesJoin(s[1..], r);
      assert (s + r)[1..] == s[1..] + r;
    }
  }

  lemma {:induction false} SomeCounted(s: string)
    requires '/' in s
    ensures Count(s) > 0
    decreases |s|
  {
    if s[0] != '/' {
      assert s == [s[0]] + s[1..];
      SomeCounted(s[1..]);
    }
  }

  /** The names that were read, and those of the decoded text. */
  lemma {:induction false} NamesDecode(s: string, i: nat, names: seq<string>, next: nat)
    requires i <= |s| && (i < |s| ==> s[i] == '/') && ReadNames(s, i, true) == Ok(names, next)
    ensures next == |s| && TildesOk(Decoded(s, i)) && (Decoded(s, i) != "" ==> Decoded(s, i)[0] == '/')
    ensures !HidesSlash(s, i, |s|) ==> RfcNames(Decoded(s, i)) == names
    ensures if HidesSlash(s, i, |s|) then |names| < Count(Decoded(s, i)) else |names| == Count(Decoded(s, i))
    decreases |s| - i
  {
    hide ReadName, RfcName, RfcNames, TildesOk, Decoded, HidesSlash, Count;
    if i == |s| {
      NoNames(s);
    } else {
      var p := ReadName(s, i + 1, true);
      var rest := ReadNames(s, p.next, true);
      var part := NameDecodes(s, i + 1, p.value, p.next);
      var d := Decoded(s, p.next);
      NamesDecode(s, p.next, rest.value, next);
      HidesEither(s, i + 1, p.next, |s|);
      StartsPart(s, i);
      AddPart(part, d);
    }
  }

  lemma NoNames(s: string)
    ensures TildesOk("") && RfcNames("") == [] && Count("") == 0 && Decoded(s, |s|) == "" && !HidesSlash(s, |s|, |s|)
  {
  }

  lemma StartsPart(s: string, i: nat)
    requires i < |s| && s[i] == '/'
    ensures Decoded(s, i) == "/" + Decoded(s, i + 1)
    ensures HidesSlash(s, i, |s|) <==> HidesSlash(s, i + 1, |s|)
  {
    NoTriplet(s, i);
    HidesEither(s, i, i + 1, |s|);
  }

  lemma SlashAfter(part: string, d: string)
    requires '/' !in part && (d != "" ==> d[0] == '/')
    ensures FirstSlash(part + d) == |part|
  {
    var s := part + d;
    assert forall i :: 0 <= i < |part| ==> s[i] == part[i];
    assert d != "" ==> s[|part|] == '/';
  }

  lemma AddPart(part: string, d: string)
    requires TildesOk(part) && TildesOk(d) && (d != "" ==> d[0] == '/')
    ensures TildesOk("/" + (part + d)) && Count("/" + (part + d)) == 1 + Count(part) + Count(d)
    ensures if '/' in part then Count(part) > 0
      else Count(part) == 0 && RfcNames("/" + (part + d)) == [RfcName(part)] + RfcNames(d)
  {
    hide RfcName;
    var s := part + d;
    TildesJoin(part, d);
    CountConcat(part, d);
    assert ("/" + s)[1..] == s;
    if '/' in part {
      SomeCounted(part);
    } else {
      NoneCounted(part);
      var k := FirstSlash(s);
      SlashAfter(part, d);
      assert s[..k] == part && s[k..] == d;
    }
  }

  /** A fragment that is accepted gives the names that RFC 6901 gives it if and only if no slash is percent-encoded in
      it: the standard decodes the fragment before it looks for slashes, and the code looks for slashes first. */
  lemma FragmentMeetsRfcIff(source: string)
    requires source != "" && source[0] == '#' && ParseNames(source).Ok?
    ensures TildesOk(Decoded(source, 1)) && (Decoded(source, 1) != "" ==> Decoded(source, 1)[0] == '/')
    ensures ParseNames(source).value == RfcNames(Decoded(source, 1)) <==> !HidesSlash(source, 1, |source|)
  {
    hide RfcNames, TildesOk, Decoded, HidesSlash, Count;
    var p := ParseNames(source);
    NamesDecode(source, 1, p.value, p.next);
    RfcCount(Decoded(source, 1));
  }

  /** A tilde, raw or percent-encoded, ends before `o`. */
  predicate TildeBefore(s: string, o: nat)
    requires o <= |s|
  {
    || (o >= 1 && s[o - 1] == '~')
    || (o >= 3 && s[o - 3] == '%' && s[o - 2] == '7' && (s[o - 1] == 'E' || s[o - 1] == 'e'))
  }

  /** Where the error of a fragment is, and what is wrong there. */
  predicate WrongAt(s: string, e: Error, o: nat) {
    match e
    case TokenMustBeginWithSolidus => o == 1 && o < |s| && s[o] != '/'
    case InvalidPercentEncoding => o < |s| && s[o] == '%' && PercentSequence(s, o).None?
    case CharacterMustPercentEncode => o < |s| && s[o] != '/' && s[o] != '%' && NeedPercentEncode(s[o])
    case InvalidEscape => o <= |s| && TildeBefore(s, o) && (o < |s| ==> s[o] != '0' && s[o] != '1')
  }

  lemma TildeTriplet(s: string, i: nat)
    requires Triplet(s, i) == Some('~')
    ensures TildeBefore(s, i + 3)
  {
    hide HexChar, HexValue;
    var h, l := s[i + 1], s[i + 2];
    SixteensAre(h, l);
  }

  lemma SixteensAre(h: char, l: char)
    requires HexChar(h) && HexChar(l) && 16 * HexValue(h) + HexValue(l) == '~' as nat
    ensures h == '7' && (l == 'E' || l == 'e')
  {
  }

  lemma PieceWrong(s: string, i: nat)
    requires i < |s| && s[i] != '/' && ReadPiece(s, i, true).Failed?
    ensures var p := ReadPiece(s, i, true); WrongAt(s, p.error, p.offset)
  {
    hide Triplet, Triplets, Valid, Length, NeedPercentEncode, TildeBefore;
    if s[i] == '%' && PercentSequence(s, i).Some? {
      var b := PercentSequence(s, i).value;
      FirstIs(s, i, |b|);
      if b[0] == '~' {
        TildeTriplet(s, i);
      }
    } else if s[i] == '~' {
      assert TildeBefore(s, i + 1) by { RawTilde(s, i); }
    }
  }

  lemma RawTilde(s: string, i: nat)
    requires i < |s| && s[i] == '~'
    ensures TildeBefore(s, i + 1)
  {
  }

  lemma {:induction false} NameWrong(s: string, i: nat)
    requires i <= |s| && ReadName(s, i, true).Failed?
    ensures var p := ReadName(s, i, true); WrongAt(s, p.error, p.offset)
    decreases |s| - i
  {
    hide ReadPiece, WrongAt;
    if ReadPiece(s, i, true).Failed? {
      PieceWrong(s, i);
    } else {
      NameWrong(s, ReadPiece(s, i, true).next);
    }
  }

  lemma {:induction false} NamesWrong(s: string, i: nat)
    requires i <= |s| && (i < |s| ==> s[i] == '/') && ReadNames(s, i, true).Failed?
    ensures var p := ReadNames(s, i, true); WrongAt(s, p.error, p.offset)
    decreases |s| - i
  {
    hide ReadName, WrongAt;
    if ReadName(s, i + 1, true).Failed? {
      NameWrong(s, i + 1);
    } else {
      NamesWrong(s, ReadName(s, i + 1, true).next);
    }
  }

  /** A fragment that is refused is wrong where the offset says, in the way that the error says. */
  lemma FragmentWrong(source: string)
    requires source != "" && source[0] == '#' && ParseNames(source).Failed?
    ensures var p := ParseNames(source); WrongAt(source, p.error, p.offset)
  {
    if |source| > 1 && source[1] == '/' {
      NamesWrong(source, 1);
    }
  }

  /** Of such a fragment the code makes one name with a slash in it, and the standard two names. */
  lemma HiddenSlash()
    ensures ParseNames("#/a%2Fb") == Ok(["a/b"], 7) && RfcNames(Decoded("#/a%2Fb", 1)) == ["a", "b"]
  {
    var s := "#/a%2Fb";
    OneHidden();
    hide ReadPiece, RfcNames, Decoded;
    assert "b" + "" == "b" && "/" + "b" == "/b" && "a" + "/b" == "a/b";
    assert ReadName(s, 7, true) == Ok("", 7);
    assert ReadName(s, 6, true) == Ok("b" + "", 7);
    assert ReadName(s, 3, true) == Ok("/" + "b", 7);
    assert ReadName(s, 2, true) == Ok("a" + "/b", 7);
    assert ReadNames(s, 7, true) == Ok([], 7);
    assert ["a/b"] + [] == ["a/b"];
    assert ReadNames(s, 1, true) == Ok(["a/b"], 7);
    assert ParseNames(s) == ReadNames(s, 1, true);
    TwoNames();
  }

  lemma OneHidden()
    ensures
      var s := "#/a%2Fb";
      && ReadPiece(s, 2, true) == Ok("a", 3) && ReadPiece(s, 3, true) == Ok("/", 6)
      && ReadPiece(s, 6, true) == Ok("b", 7) && Decoded(s, 1) == "/a/b"
  {
    var s := "#/a%2Fb";
    assert Triplet(s, 3) == Some('/');
    assert Triplets(s, 6, 0) == Some("") && ['/'] + "" == "/";
    assert Triplets(s, 3, 1) == Some("/");
    assert PercentSequence(s, 3) == Some("/");
    assert Decoded(s, 7) == "" && Decoded(s, 6) == "b";
    assert Decoded(s, 3) == "/b" && Decoded(s, 2) == "a/b";
  }

  lemma TwoNames()
    ensures RfcNames("/a/b") == ["a", "b"]
  {
    assert "/a/b"[1..] == "a/b" && "a/b"[1..] == "/b" && "/b"[1..] == "b" && "b"[1..] == "";
    assert FirstSlash("a/b") == 1 && "a/b"[..1] == "a";
    assert FirstSlash("b") == 1 && "b"[..1] == "b";
    assert RfcName("a") == "a" && RfcName("b") == "b";
    assert RfcNames("/b") == ["b"];
  }

  // ----- The characters of RFC 3986, and the UTF-8 of RFC 3629 -----

  const CAPITALS := "ABCDEFGHIJKLMNOPQRSTUVWXYZ"
  const SMALL := "abcdefghijklmnopqrstuvwxyz"

  lemma CapitalIff(c: char)
    ensures 'A' <= c <= 'Z' <==> c in CAPITALS
  {
  }

  lemma SmallIff(c: char)
    ensures 'a' <= c <= 'z' <==> c in SMALL
  {
  }

  lemma DecimalIff(c: char)
    ensures Digit(c) <==> c in "0123456789"
  {
  }

  /** The unreserved characters of section 2.3 of RFC 3986 are printed as they are, all others in percent-encoding. */
  lemma NeedPercentEncodeIff(c: char)
    ensures NeedPercentEncode(c) <==> c !in CAPITALS && c !in SMALL && c !in "0123456789" && c !in "-._~"
  {
    CapitalIff(c);
    SmallIff(c);
    DecimalIff(c);
  }

  predicate Scalar(p: nat) {
    p < 0xD800 || 0xE000 <= p < 0x11_0000
  }

  /** What is taken for one sequence of UTF-8 is exactly the encoding of some code point that is no surrogate. */
  lemma ValidIff(b: string)
    requires b != ""
    ensures |b| == Length(b[0]) && Valid(b) <==> exists p :: Scalar(p) && JsonReader.Utf8(p) == b
  {
    if |b| == Length(b[0]) && Valid(b) {
      var p := CodePoint(b);
    }
    forall p | Scalar(p) && JsonReader.Utf8(p) == b ensures |b| == Length(b[0]) && Valid(b) {
      Encoded(p);
    }
  }

  /** The number of four digits of six bits each. */
  lemma Joined(w: nat, x: nat, y: nat, z: nat) returns (p: nat)
    requires x < 64 && y < 64 && z < 64
    ensures p == w * 262144 + x * 4096 + y * 64 + z
    ensures p / 262144 == w && p / 4096 % 64 == x && p / 64 % 64 == y && p % 64 == z
    ensures p / 4096 == w * 64 + x && p / 64 == w * 4096 + x * 64 + y
  {
    p := w * 262144 + x * 4096 + y * 64 + z;
    assert p / 64 == w * 4096 + x * 64 + y;
    assert p / 4096 == w * 64 + x;
  }

  lemma CodePoint(b: string) returns (p: nat)
    requires b != "" && |b| == Length(b[0]) && Valid(b)
    ensures Scalar(p) && JsonReader.Utf8(p) == b
  {
    if |b| == 1 {
      p := b[0] as nat;
    } else if |b| == 2 {
      p := Joined(0, 0, b[0] as nat - 0xC0, b[1] as nat - 0x80);
    } else if |b| == 3 {
      p := OfThree(b);
    } else {
      p := OfFour(b);
    }
  }

  lemma OfThree(b: string) returns (p: nat)
    requires |b| == 3 == Length(b[0]) && Valid(b)
    ensures Scalar(p) && JsonReader.Utf8(p) == b
  {
    p := Joined(0, b[0] as nat - 0xE0, b[1] as nat - 0x80, b[2] as nat - 0x80);
  }

  lemma OfFour(b: string) returns (p: nat)
    requires |b| == 4 == Length(b[0]) && Valid(b)
    ensures Scalar(p) && JsonReader.Utf8(p) == b
  {
    p := Joined(b[0] as nat - 0xF0, b[1] as nat - 0x80, b[2] as nat - 0x80, b[3] as nat - 0x80);
  }

  lemma Encoded(p: nat)
    requires Scalar(p)
    ensures var b := JsonReader.Utf8(p); b != "" && |b| == Length(b[0]) && Valid(b)
  {
    if 0x800 <= p < 0x1_0000 {
      ThreeEncoded(p);
    } else if 0x1_0000 <= p {
      FourEncoded(p);
    }
  }

  lemma ThreeEncoded(p: nat)
    requires Scalar(p) && 0x800 <= p < 0x1_0000
    ensures var b := JsonReader.Utf8(p); |b| == 3 == Length(b[0]) && Valid(b)
  {
    var u := p / 64;
    assert p / 4096 == u / 64;
  }

  lemma FourEncoded(p: nat)
    requires 0x1_0000 <= p < 0x11_0000
    ensures var b := JsonReader.Utf8(p); |b| == 4 == Length(b[0]) && Valid(b)
  {
    var u := p / 4096;
    assert p / 262144 == u / 64;
  }
}
