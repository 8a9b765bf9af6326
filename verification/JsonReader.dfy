/** A reference reader of JSON text, sections 2 to 7 of RFC 8259, and the proof that it reads back what
    the writers' text says. Numbers are maximal runs of number characters. */
module JsonReader {
  import opened Hexadecimal
  import opened JsonTree
  import opened JsonText
  import IntegerText

  datatype Read<T> = Fail | Ok(value: T, rest: string)

  function SkipSpace(s: string): (t: string)
    ensures |t| <= |s|
  {
    if s != "" && Space(s[0]) then SkipSpace(s[1..]) else s
  }

  // ----- Numbers -----

  predicate NumberChar(c: char) {
    '0' <= c <= '9' || c == '-' || c == '+' || c == '.' || c == 'e' || c == 'E'
  }

  predicate NumberStart(c: char) {
    '0' <= c <= '9' || c == '-'
  }

  function NumberLength(s: string): (n: nat)
    ensures n <= |s|
  {
    if s != "" && NumberChar(s[0]) then 1 + NumberLength(s[1..]) else 0
  }

  predicate Digits(s: string) {
    s != "" && forall k :: 0 <= k < |s| ==> '0' <= s[k] <= '9'
  }

  /** A token of digits, with or without a minus sign, is an integer. */
  function NumberOf(token: string): Num {
    if Digits(token) then Integer(IntegerText.Value(token))
    else if token != "" && token[0] == '-' && Digits(token[1..]) then Integer(0 - IntegerText.Value(token[1..]))
    else Double(token)
  }

  // ----- Strings -----

  function ReadUnit(s: string): Read<nat> {
    if |s| >= 4 && HexChar(s[0]) && HexChar(s[1]) && HexChar(s[2]) && HexChar(s[3]) then
      Ok(((HexValue(s[0]) * 16 + HexValue(s[1])) * 16 + HexValue(s[2])) * 16 + HexValue(s[3]), s[4..])
    else Fail
  }

  /** The bytes of a code point in UTF-8. */
  function Utf8(p: nat): string
    requires p < 0x11_0000
  {
    if p < 0x80 then [p as char]
    else if p < 0x800 then [(0xC0 + p / 64) as char, (0x80 + p % 64) as char]
    else if p < 0x1_0000 then [(0xE0 + p / 4096) as char, (0x80 + p / 64 % 64) as char, (0x80 + p % 64) as char]
    else [(0xF0 + p / 262144) as char, (0x80 + p / 4096 % 64) as char, (0x80 + p / 64 % 64) as char,
        (0x80 + p % 64) as char]
  }

  /** What follows a backslash and a `u`: a code unit, or two for a surrogate pair. */
  function ReadUnicode(s: string): Read<string> {
    match ReadUnit(s)
    case Fail => Fail
    case Ok(u, rest) =>
      if u < 0xD800 || 0xE000 <= u < 0x1_0000 then Ok(Utf8(u), rest)
      else if u < 0xDC00 && |rest| >= 2 && rest[0] == '\\' && rest[1] == 'u' then LowSurrogate(u, rest[2..])
      else Fail
  }

  function LowSurrogate(high: nat, s: string): Read<string>
    requires 0xD800 <= high < 0xDC00
  {
    match ReadUnit(s)
    case Fail => Fail
    case Ok(low, rest) =>
      if 0xDC00 <= low < 0xE000 then Ok(Utf8(0x1_0000 + (high - 0xD800) * 1024 + (low - 0xDC00)), rest) else Fail
  }

  function ReadEscape(s: string): Read<string> {
    if s == "" then Fail
    else if s[0] == '"' || s[0] == '\\' || s[0] == '/' then Ok([s[0]], s[1..])
    else if s[0] == 'b' then Ok(['\U{8}'], s[1..])
    else if s[0] == 'f' then Ok(['\U{C}'], s[1..])
    else if s[0] == 'n' then Ok("\n", s[1..])
    else if s[0] == 'r' then Ok("\r", s[1..])
    else if s[0] == 't' then Ok("\t", s[1..])
    else if s[0] == 'u' then ReadUnicode(s[1..])
    else Fail
  }

  lemma ReadEscapeShrinks(s: string)
    ensures ReadEscape(s).Ok? ==> |ReadEscape(s).rest| < |s|
  {
  }

  function Prepend(x: string, r: Read<string>): Read<string> {
    match r
    case Fail => Fail
    case Ok(v, rest) => Ok(x + v, rest)
  }

  /** The rest of a string literal, after its opening quote. */
  function ReadChars(s: string): (r: Read<string>)
    ensures r.Ok? ==> |r.rest| < |s|
    decreases |s|
  {
    if s == "" then Fail
    else if s[0] == '"' then Ok("", s[1..])
    else if s[0] == '\\' then
      ReadEscapeShrinks(s[1..]);
      match ReadEscape(s[1..])
      case Fail => Fail
      case Ok(x, rest) => Prepend(x, ReadChars(rest))
    else if s[0] < ' ' then Fail
    else Prepend([s[0]], ReadChars(s[1..]))
  }

  // ----- Values -----

  predicate StartsWith(s: string, p: string) {
    p <= s
  }

  function ReadValue(s: string): (r: Read<Value>)
    ensures r.Ok? ==> |r.rest| < |s|
    decreases |s|, 0
  {
    var t := SkipSpace(s);
    if t == "" then Fail
    else if StartsWith(t, "null") then Ok(Null, t[4..])
    else if StartsWith(t, "true") then Ok(Bool(true), t[4..])
    else if StartsWith(t, "false") then Ok(Bool(false), t[5..])
    else if t[0] == '"' then
      match ReadChars(t[1..])
      case Fail => Fail
      case Ok(x, rest) => Ok(Str(x), rest)
    else if t[0] == '[' then
      var u := SkipSpace(t[1..]);
      if u != "" && u[0] == ']' then Ok(Arr([]), u[1..])
      else
        match ReadItems(u)
        case Fail => Fail
        case Ok(items, rest) => Ok(Arr(items), rest)
    else if t[0] == '{' then
      var u := SkipSpace(t[1..]);
      if u != "" && u[0] == '}' then Ok(Obj([]), u[1..])
      else
        match ReadMembers(u)
        case Fail => Fail
        case Ok(members, rest) => Ok(Obj(members), rest)
    else if NumberStart(t[0]) then
      var n := NumberLength(t);
      Ok(Number(NumberOf(t[..n])), t[n..])
    else Fail
  }

  /** One or more elements, up to the closing bracket. */
  function ReadItems(s: string): (r: Read<seq<Value>>)
    ensures r.Ok? ==> |r.rest| < |s|
    decreases |s|, 1
  {
    match ReadValue(s)
    case Fail => Fail
    case Ok(v, rest) =>
      var t := SkipSpace(rest);
      if t == "" then Fail
      else if t[0] == ']' then Ok([v], t[1..])
      else if t[0] == ',' then
        match ReadItems(t[1..])
        case Fail => Fail
        case Ok(items, rest') => Ok([v] + items, rest')
      else Fail
  }

  /** A name and its value. */
  function ReadMember(s: string): (r: Read<Member>)
    ensures r.Ok? ==> |r.rest| < |s|
    decreases |s|, 1
  {
    var t := SkipSpace(s);
    if t == "" || t[0] != '"' then Fail
    else
      match ReadChars(t[1..])
      case Fail => Fail
      case Ok(name, rest) =>
        var u := SkipSpace(rest);
        if u == "" || u[0] != ':' then Fail
        else
          match ReadValue(u[1..])
          case Fail => Fail
          case Ok(v, rest') => Ok(Member(name, v), rest')
  }

  function ReadMembers(s: string): (r: Read<seq<Member>>)
    ensures r.Ok? ==> |r.rest| < |s|
    decreases |s|, 2
  {
    match ReadMember(s)
    case Fail => Fail
    case Ok(m, rest) =>
      var t := SkipSpace(rest);
      if t == "" then Fail
      else if t[0] == '}' then Ok([m], t[1..])
      else if t[0] == ',' then
        match ReadMembers(t[1..])
        case Fail => Fail
        case Ok(members, rest') => Ok([m] + members, rest')
      else Fail
  }

  /** A whole text: one value, with space around it. */
  function ReadText(s: string): Read<Value> {
    match ReadValue(s)
    case Fail => Fail
    case Ok(v, rest) => if SkipSpace(rest) == "" then Ok(v, "") else Fail
  }

  // ----- What the writers' strings are read as -----

  lemma ShortEscapeBack(e: char, c: char, tail: string)
    requires ReadEscape([e] + tail) == Ok([c], tail)
    ensures ReadChars("\\" + [e] + tail) == Prepend([c], ReadChars(tail))
  {
    assert ("\\" + [e] + tail)[1..] == [e] + tail;
  }

  lemma UnicodeEscapeBack(c: char, tail: string)
    requires c < ' '
    ensures ReadChars("\\u00" + [Hex(c as nat / 16), Hex(c as nat % 16)] + tail) == Prepend([c], ReadChars(tail))
  {
    var h, l := Hex(c as nat / 16), Hex(c as nat % 16);
    HexBack(0);
    HexBack(c as nat / 16);
    HexBack(c as nat % 16);
    var s := "\\u00" + [h, l] + tail;
    var unit := "00" + [h, l] + tail;
    assert s[1..] == "u" + unit && s[1..][1..] == unit && unit[4..] == tail;
    assert ReadUnit(unit) == Ok(c as nat, tail);
    assert ReadEscape(s[1..]) == Ok([c], tail);
  }

  lemma EscapeBack(c: char, tail: string)
    ensures ReadChars(Escaped(c) + tail) == Prepend([c], ReadChars(tail))
  {
    if c == '\U{8}' {
      ShortEscapeBack('b', c, tail);
    } else if c == '\t' {
      ShortEscapeBack('t', c, tail);
    } else if c == '\n' {
      ShortEscapeBack('n', c, tail);
    } else if c == '\U{C}' {
      ShortEscapeBack('f', c, tail);
    } else if c == '\r' {
      ShortEscapeBack('r', c, tail);
    } else if c < ' ' {
      UnicodeEscapeBack(c, tail);
    } else if c == '"' {
      ShortEscapeBack('"', c, tail);
    } else if c == '\\' {
      ShortEscapeBack('\\', c, tail);
    } else {
      assert ([c] + tail)[1..] == tail;
    }
  }

  lemma EscapedAllEmpty(rest: string)
    ensures EscapedAll("") + "\"" + rest == "\"" + rest && ReadChars("\"" + rest) == Ok("", rest)
  {
    assert ("\"" + rest)[1..] == rest;
  }

  lemma EscapedAllFirst(s: string, rest: string)
    requires s != ""
    ensures EscapedAll(s) + "\"" + rest == Escaped(s[0]) + (EscapedAll(s[1..]) + "\"" + rest)
  {
    hide Escaped;
  }

  /** A string literal is read back to the bytes it was written for. */
  lemma {:induction false} StringBack(s: string, rest: string)
    ensures ReadChars(EscapedAll(s) + "\"" + rest) == Ok(s, rest)
    decreases |s|
  {
    hide ReadChars, Escaped, EscapedAll;
    if s == "" {
      EscapedAllEmpty(rest);
    } else {
      StringBack(s[1..], rest);
      EscapedAllFirst(s, rest);
      EscapeBack(s[0], EscapedAll(s[1..]) + "\"" + rest);
      assert [s[0]] + s[1..] == s;
    }
  }

  // ----- The text of a tree, followed by more -----

  function PutString(s: string, tail: string): string {
    "\"" + (EscapedAll(s) + "\"" + tail)
  }

  function Put(style: Style, v: Value, depth: nat, tail: string): string
    decreases v, 0
  {
    match v
    case Null => "null" + tail
    case Bool(b) => (if b then "true" else "false") + tail
    case Number(n) => Token(n) + tail
    case Str(s) => PutString(s, tail)
    case Arr(items) =>
      "[" + PutItems(style, items, true, depth + 1, (if items == [] then "" else ItemsEnd(style, depth)) + ("]" + tail))
    case Obj(members) =>
      "{" + PutMembers(style, members, true, depth + 1, (if members == [] then "" else MembersEnd(style, depth)) +
          ("}" + tail))
  }

  function PutItems(style: Style, items: seq<Value>, first: bool, depth: nat, tail: string): string
    decreases items
  {
    if items == [] then tail
    else Comma(first) + (ItemGap(style, first, depth) + Put(style, items[0], depth,
        PutItems(style, items[1..], false, depth, tail)))
  }

  function PutMember(style: Style, m: Member, depth: nat, tail: string): string
    decreases m, 1
  {
    PutString(m.name, ":" + (ColonGap(style) + Put(style, m.value, depth, tail)))
  }

  function PutMembers(style: Style, members: seq<Member>, first: bool, depth: nat, tail: string): string
    decreases members
  {
    if members == [] then tail
    else
      Comma(first)
      + (NameGap(style, depth) + PutMember(style, members[0], depth,
          PutMembers(style, members[1..], false, depth, tail)))
  }

  lemma Chain(a: string, b: string, c: string, d: string, tail: string)
    ensures a + (b + (c + (d + tail))) == a + b + c + d + tail
  {
  }

  lemma PutStringIs(s: string, tail: string)
    ensures PutString(s, tail) == Quoted(s) + tail
  {
    Chain("\"", EscapedAll(s), "\"", "", tail);
  }

  lemma {:induction false} PutIs(style: Style, v: Value, depth: nat, tail: string)
    ensures Put(style, v, depth, tail) == Render(style, v, depth) + tail
    decreases v, 0
  {
    hide ItemsEnd, MembersEnd, RenderItems, RenderMembers, PutItems, PutMembers, PutString, Quoted, Token;
    match v
    case Arr(items) =>
      var end := if items == [] then "" else ItemsEnd(style, depth);
      PutItemsIs(style, items, true, depth + 1, end + ("]" + tail));
      Chain("[", RenderItems(style, items, true, depth + 1), end, "]", tail);
    case Obj(members) =>
      var end := if members == [] then "" else MembersEnd(style, depth);
      PutMembersIs(style, members, true, depth + 1, end + ("}" + tail));
      Chain("{", RenderMembers(style, members, true, depth + 1), end, "}", tail);
    case Str(s) => PutStringIs(s, tail);
    case _ =>
  }

  lemma {:induction false} PutItemsIs(style: Style, items: seq<Value>, first: bool, depth: nat, tail: string)
    ensures PutItems(style, items, first, depth, tail) == RenderItems(style, items, first, depth) + tail
    decreases items
  {
    hide Render, Put, Comma, ItemGap;
    if items != [] {
      PutItemsIs(style, items[1..], false, depth, tail);
      PutIs(style, items[0], depth, PutItems(style, items[1..], false, depth, tail));
      Chain(Comma(first), ItemGap(style, first, depth), Render(style, items[0], depth),
            RenderItems(style, items[1..], false, depth), tail);
    }
  }

  lemma PutMemberIs(style: Style, m: Member, depth: nat, tail: string)
    ensures PutMember(style, m, depth, tail) == Quoted(m.name) + ":" + ColonGap(style) +
      Render(style, m.value, depth) + tail
    decreases m, 1
  {
    hide Render, Put, ColonGap, PutString, Quoted;
    PutIs(style, m.value, depth, tail);
    PutStringIs(m.name, ":" + (ColonGap(style) + Put(style, m.value, depth, tail)));
    Chain(Quoted(m.name), ":", ColonGap(style), Render(style, m.value, depth), tail);
  }

  lemma {:induction false} PutMembersIs(style: Style, members: seq<Member>, first: bool, depth: nat, tail: string)
    ensures PutMembers(style, members, first, depth, tail) == RenderMembers(style, members, first, depth) + tail
    decreases members
  {
    hide Render, Put, Comma, NameGap, PutMember, Quoted, ColonGap;
    if members != [] {
      var m, rest := members[0], RenderMembers(style, members[1..], false, depth);
      PutMembersIs(style, members[1..], false, depth, tail);
      PutMemberIs(style, m, depth, PutMembers(style, members[1..], false, depth, tail));
      MemberChain(Comma(first), NameGap(style, depth), Quoted(m.name), ":", ColonGap(style),
          Render(style, m.value, depth), rest, tail);
    }
  }

  lemma MemberChain(c: string, g: string, q: string, colon: string, cg: string, v: string, rest: string, tail: string)
    ensures c + (g + (q + colon + cg + v + (rest + tail))) == c + g + q + colon + cg + v + rest + tail
  {
    var m := q + colon + cg + v;
    Chain(c, g, m, rest, tail);
    assert c + g + m == c + g + q + colon + cg + v;
  }

  // ----- Space -----

  ghost predicate AllSpace(s: string) {
    forall k :: 0 <= k < |s| ==> Space(s[k])
  }

  lemma Gaps(style: Style, first: bool, depth: nat)
    requires StyleOk(style)
    ensures AllSpace(ItemGap(style, first, depth)) && AllSpace(NameGap(style, depth)) && AllSpace(ColonGap(style))
    ensures AllSpace(ItemsEnd(style, depth)) && AllSpace(MembersEnd(style, depth))
  {
  }

  lemma {:induction false} SkipsGap(gap: string, s: string)
    requires AllSpace(gap) && (s == "" || !Space(s[0]))
    ensures SkipSpace(gap + s) == s
    decreases |gap|
  {
    if gap == "" {
      assert gap + s == s;
    } else {
      SkipsGap(gap[1..], s);
      assert (gap + s)[1..] == gap[1..] + s;
    }
  }

  lemma ReadAfterGap(gap: string, s: string)
    requires AllSpace(gap) && (s == "" || !Space(s[0]))
    ensures ReadValue(gap + s) == ReadValue(s)
  {
    SkipsGap(gap, s);
    SkipsGap("", s);
    assert "" + s == s;
  }

  // ----- The round trip -----

  /** Every number in the tree has a text that can be told from its surroundings, and the text of a double
      is not that of an integer: the conversion of doubles always puts a point or an exponent. */
  predicate Printable(v: Value)
    decreases v
  {
    match v
    case Number(n) => NumPrintable(n)
    case Arr(items) => forall k :: 0 <= k < |items| ==> Printable(items[k])
    case Obj(members) => forall k :: 0 <= k < |members| ==> Printable(members[k].value)
    case _ => true
  }

  predicate NumPrintable(n: Num) {
    match n
    case Integer(_) => true
    case Double(t) =>
      && t != "" && NumberStart(t[0]) && (forall k :: 0 <= k < |t| ==> NumberChar(t[k]))
      && exists k :: 0 <= k < |t| && (t[k] == '.' || t[k] == 'e' || t[k] == 'E')
  }

  /** What may follow a value: anything that does not go on with a number. */
  predicate Ends(rest: string) {
    rest == "" || !NumberChar(rest[0])
  }

  lemma {:induction false} NumberLengthIs(token: string, rest: string)
    requires (forall k :: 0 <= k < |token| ==> NumberChar(token[k])) && Ends(rest)
    ensures NumberLength(token + rest) == |token|
    decreases |token|
  {
    if token == "" {
      assert token + rest == rest;
    } else {
      NumberLengthIs(token[1..], rest);
      assert (token + rest)[1..] == token[1..] + rest;
    }
  }

  lemma TokenIs(n: Num)
    requires NumPrintable(n)
    ensures Token(n) != "" && NumberStart(Token(n)[0]) && forall k :: 0 <= k < |Token(n)| ==> NumberChar(Token(n)[k])
    ensures NumberOf(Token(n)) == n
  {
    match n
    case Integer(i) => IntegerIs(i);
    case Double(t) => DoubleIs(t);
  }

  lemma IntegerIs(i: int)
    ensures var t := IntegerText.SignedText(i);
      t != "" && NumberStart(t[0]) && (forall k :: 0 <= k < |t| ==> NumberChar(t[k])) && NumberOf(t) == Integer(i)
  {
    hide IntegerText.Text, IntegerText.Value;
    IntegerText.TextReads(if i < 0 then -i else i);
    if i < 0 {
      var t := IntegerText.Text(-i);
      assert ("-" + t)[1..] == t && ("-" + t)[0] == '-';
      assert !Digits("-" + t);
    }
  }

  lemma DoubleIs(t: string)
    requires NumPrintable(Double(t))
    ensures NumberOf(t) == Double(t)
  {
    hide IntegerText.Value;
    var k :| 0 <= k < |t| && (t[k] == '.' || t[k] == 'e' || t[k] == 'E');
    assert !('0' <= t[k] <= '9');
    if t[0] == '-' {
      assert k > 0 && t[1..][k - 1] == t[k];
    }
  }

  lemma NumberBack(n: Num, rest: string)
    requires NumPrintable(n) && Ends(rest)
    ensures ReadValue(Token(n) + rest) == Ok(Number(n), rest)
  {
    hide Token, NumberOf;
    TokenIs(n);
    var token := Token(n);
    var s := token + rest;
    NumberLengthIs(token, rest);
    assert s[0] == token[0] && s[..|token|] == token && s[|token|..] == rest;
    assert SkipSpace(s) == s;
    assert !StartsWith(s, "null") && !StartsWith(s, "true") && !StartsWith(s, "false");
  }

  lemma WordBack(word: string, v: Value, rest: string)
    requires (word == "null" && v == Null) || (word == "true" && v == Bool(true)) ||
      (word == "false" && v == Bool(false))
    ensures ReadValue(word + rest) == Ok(v, rest)
  {
    var s := word + rest;
    assert s[0] == word[0] && s[1] == word[1];
    assert s[..|word|] == word && s[|word|..] == rest;
    assert SkipSpace(s) == s && StartsWith(s, word);
  }

  lemma NotAWord(s: string)
    requires s != "" && s[0] in "\"[{"
    ensures SkipSpace(s) == s && !StartsWith(s, "null") && !StartsWith(s, "true") && !StartsWith(s, "false")
  {
  }

  /** A value's text starts with a character that is no space and no closing bracket. */
  lemma PutStart(style: Style, v: Value, depth: nat, tail: string)
    requires Printable(v)
    ensures var s := Put(style, v, depth, tail); s != "" && !Space(s[0]) && s[0] != ']' && s[0] != '}'
  {
    match v
    case Number(n) =>
      hide Token, NumberOf;
      TokenIs(n);
    case _ =>
  }

  lemma StrBack(s: string, rest: string)
    ensures ReadValue(PutString(s, rest)) == Ok(Str(s), rest)
  {
    var t := PutString(s, rest);
    NotAWord(t);
    StringBack(s, rest);
    assert t[1..] == EscapedAll(s) + "\"" + rest;
  }

  lemma EmptyArray(rest: string)
    ensures ReadValue("[" + ("]" + rest)) == Ok(Arr([]), rest)
  {
    var t := "[" + ("]" + rest);
    NotAWord(t);
    assert t[1..] == "]" + rest && SkipSpace("]" + rest) == "]" + rest && ("]" + rest)[1..] == rest;
  }

  lemma EmptyObject(rest: string)
    ensures ReadValue("{" + ("}" + rest)) == Ok(Obj([]), rest)
  {
    var t := "{" + ("}" + rest);
    NotAWord(t);
    assert t[1..] == "}" + rest && SkipSpace("}" + rest) == "}" + rest && ("}" + rest)[1..] == rest;
  }

  lemma OpenArray(gap: string, s: string)
    requires AllSpace(gap) && s != "" && !Space(s[0]) && s[0] != ']'
    ensures ReadValue("[" + (gap + s)) == match ReadItems(s) case Fail => Fail case Ok(items, rest) =>
      Ok(Arr(items), rest)
  {
    var t := "[" + (gap + s);
    NotAWord(t);
    SkipsGap(gap, s);
    assert t[1..] == gap + s;
  }

  lemma OpenObject(gap: string, s: string)
    requires AllSpace(gap) && s != "" && !Space(s[0]) && s[0] != '}'
    ensures ReadValue("{" + (gap + s)) == match ReadMembers(s) case Fail => Fail case Ok(members, rest) =>
      Ok(Obj(members), rest)
  {
    var t := "{" + (gap + s);
    NotAWord(t);
    SkipsGap(gap, s);
    assert t[1..] == gap + s;
  }

  /** Every printable tree's text, whatever follows it, is read back to the tree. */
  lemma {:induction false} ValueBack(style: Style, v: Value, depth: nat, rest: string)
    requires StyleOk(style) && Printable(v) && Ends(rest)
    ensures ReadValue(Put(style, v, depth, rest)) == Ok(v, rest)
    decreases v, 0
  {
    hide ReadValue, ReadItems, ReadMembers, PutItems, PutMembers, PutString, Token, ItemsEnd, MembersEnd, ItemGap,
        NameGap;
    match v
    case Null => WordBack("null", v, rest);
    case Bool(b) => WordBack(if b then "true" else "false", v, rest);
    case Number(n) => NumberBack(n, rest);
    case Str(s) => StrBack(s, rest);
    case Arr(items) =>
      if items == [] {
        EmptyArray(rest);
        NoItems(style, depth + 1, "]" + rest);
      } else {
        var tail := ItemsEnd(style, depth) + ("]" + rest);
        var gap, s := ItemGap(style, true, depth + 1), Put(style, items[0], depth + 1,
            PutItems(style, items[1..], false, depth + 1, tail));
        Gaps(style, true, depth + 1);
        Gaps(style, true, depth);
        PutStart(style, items[0], depth + 1, PutItems(style, items[1..], false, depth + 1, tail));
        ItemsBack(style, items, "", depth + 1, ItemsEnd(style, depth), rest);
        assert "" + s == s;
        OpenArray(gap, s);
        PutItemsOne(style, items, depth + 1, tail);
      }
    case Obj(members) =>
      if members == [] {
        EmptyObject(rest);
        NoMembers(style, depth + 1, "}" + rest);
      } else {
        var tail := MembersEnd(style, depth) + ("}" + rest);
        var s := PutMember(style, members[0], depth + 1, PutMembers(style, members[1..], false, depth + 1, tail));
        Gaps(style, true, depth + 1);
        Gaps(style, true, depth);
        PutMemberStart(style, members[0], depth + 1, PutMembers(style, members[1..], false, depth + 1, tail));
        MembersBack(style, members, "", depth + 1, MembersEnd(style, depth), rest);
        assert "" + s == s;
        OpenObject(NameGap(style, depth + 1), s);
        PutMembersOne(style, members, depth + 1, tail);
      }
  }

  lemma NoItems(style: Style, depth: nat, tail: string)
    ensures PutItems(style, [], true, depth, "" + tail) == tail
  {
  }

  lemma NoMembers(style: Style, depth: nat, tail: string)
    ensures PutMembers(style, [], true, depth, "" + tail) == tail
  {
  }

  lemma PutItemsOne(style: Style, items: seq<Value>, depth: nat, tail: string)
    requires items != []
    ensures PutItems(style, items, true, depth, tail) ==
            ItemGap(style, true, depth) + Put(style, items[0], depth, PutItems(style, items[1..], false, depth, tail))
    ensures PutItems(style, items, false, depth, tail) ==
            "," + (ItemGap(style, false, depth) + Put(style, items[0], depth,
                PutItems(style, items[1..], false, depth, tail)))
  {
    hide Put, ItemGap;
  }

  lemma PutMembersOne(style: Style, members: seq<Member>, depth: nat, tail: string)
    requires members != []
    ensures PutMembers(style, members, true, depth, tail) ==
            NameGap(style, depth) + PutMember(style, members[0], depth,
                PutMembers(style, members[1..], false, depth, tail))
    ensures PutMembers(style, members, false, depth, tail) ==
            "," + (NameGap(style, depth) + PutMember(style, members[0], depth,
                PutMembers(style, members[1..], false, depth, tail)))
  {
    hide PutMember, NameGap;
  }

  lemma PutMemberStart(style: Style, m: Member, depth: nat, tail: string)
    ensures var s := PutMember(style, m, depth, tail); s != "" && s[0] == '"'
  {
  }

  /** What the reader finds after an element: the closing bracket, or a comma. */
  lemma AfterItem(end: string, close: string, rest: string)
    requires AllSpace(end) && |close| == 1 && !Space(close[0]) && !NumberChar(close[0])
    ensures SkipSpace(end + (close + rest)) == close + rest && Ends(end + (close + rest))
    ensures (close + rest)[0] == close[0] && (close + rest)[1..] == rest
  {
    SkipsGap(end, close + rest);
    assert (close + rest)[0] == close[0];
    if end != "" {
      assert Space(end[0]) && (end + (close + rest))[0] == end[0];
    } else {
      assert end + (close + rest) == close + rest;
    }
  }

  lemma ReadItemsStep(s: string, v: Value, r: string)
    requires ReadValue(s) == Ok(v, r) && SkipSpace(r) != ""
    ensures var t := SkipSpace(r);
      && (t[0] == ']' ==> ReadItems(s) == Ok([v], t[1..]))
      && (t[0] == ',' && ReadItems(t[1..]).Ok? ==>
            ReadItems(s) == Ok([v] + ReadItems(t[1..]).value, ReadItems(t[1..]).rest))
  {
  }

  /** After an element that is not the last the reader finds a comma, and then the next one with its space. */
  lemma NextItem(style: Style, items: seq<Value>, depth: nat, tail: string)
    requires |items| > 1 && StyleOk(style)
    ensures
      var r := PutItems(style, items[1..], false, depth, tail);
      var next := ItemGap(style, false, depth) + Put(style, items[1], depth,
          PutItems(style, items[2..], false, depth, tail));
      SkipSpace(r) == "," + next && ("," + next)[1..] == next && Ends(r) && AllSpace(ItemGap(style, false, depth))
  {
    hide Put, PutItems, ItemGap, SkipSpace;
    var next := ItemGap(style, false, depth) + Put(style, items[1], depth,
        PutItems(style, items[2..], false, depth, tail));
    PutItemsOne(style, items[1..], depth, tail);
    assert items[1..][0] == items[1] && items[1..][1..] == items[2..];
    Gaps(style, false, depth);
    AfterItem("", ",", next);
    assert "" + ("," + next) == "," + next;
  }

  lemma {:induction false} ItemsBack(style: Style, items: seq<Value>, gap: string, depth: nat, end: string,
      rest: string)
    requires items != [] && StyleOk(style) && AllSpace(gap) && AllSpace(end)
    requires forall k :: 0 <= k < |items| ==> Printable(items[k])
    ensures ReadItems(gap + Put(style, items[0], depth, PutItems(style, items[1..], false, depth,
      end + ("]" + rest)))) == Ok(items, rest)
    decreases items
  {
    hide ReadValue, ReadItems, Put, PutItems, ItemGap, SkipSpace, Printable;
    var tail := end + ("]" + rest);
    var r := PutItems(style, items[1..], false, depth, tail);
    var s := Put(style, items[0], depth, r);
    PutStart(style, items[0], depth, r);
    ReadAfterGap(gap, s);
    if items[1..] == [] {
      AfterItem(end, "]", rest);
      NoMore(style, depth, tail);
      ValueBack(style, items[0], depth, r);
      ReadItemsStep(gap + s, items[0], r);
      assert items == [items[0]];
    } else {
      NextItem(style, items, depth, tail);
      assert items[1..][0] == items[1] && items[1..][1..] == items[2..];
      ValueBack(style, items[0], depth, r);
      ItemsBack(style, items[1..], ItemGap(style, false, depth), depth, end, rest);
      ReadItemsStep(gap + s, items[0], r);
      assert items == [items[0]] + items[1..];
    }
  }

  lemma NoMore(style: Style, depth: nat, tail: string)
    ensures PutItems(style, [], false, depth, tail) == tail && PutMembers(style, [], false, depth, tail) == tail
  {
  }

  /** A member is read back, with the space that may be before it. */
  lemma MemberBack(style: Style, m: Member, gap: string, depth: nat, rest: string)
    requires StyleOk(style) && AllSpace(gap) && Printable(m.value) && Ends(rest)
    ensures ReadMember(gap + PutMember(style, m, depth, rest)) == Ok(m, rest)
    decreases m, 1
  {
    hide ReadValue, ReadChars, Put, Printable;
    var v := Put(style, m.value, depth, rest);
    var after := ":" + (ColonGap(style) + v);
    var s := PutString(m.name, after);
    SkipsGap(gap, s);
    StringBack(m.name, after);
    assert s[1..] == EscapedAll(m.name) + "\"" + after;
    assert SkipSpace(after) == after && after[1..] == ColonGap(style) + v;
    Gaps(style, true, depth);
    PutStart(style, m.value, depth, rest);
    ReadAfterGap(ColonGap(style), v);
    ValueBack(style, m.value, depth, rest);
  }

  lemma ReadMembersStep(s: string, m: Member, r: string)
    requires ReadMember(s) == Ok(m, r) && SkipSpace(r) != ""
    ensures var t := SkipSpace(r);
      && (t[0] == '}' ==> ReadMembers(s) == Ok([m], t[1..]))
      && (t[0] == ',' && ReadMembers(t[1..]).Ok? ==>
            ReadMembers(s) == Ok([m] + ReadMembers(t[1..]).value, ReadMembers(t[1..]).rest))
  {
  }

  lemma NextMember(style: Style, members: seq<Member>, depth: nat, tail: string)
    requires |members| > 1 && StyleOk(style)
    ensures
      var r := PutMembers(style, members[1..], false, depth, tail);
      var next := NameGap(style, depth) + PutMember(style, members[1], depth,
          PutMembers(style, members[2..], false, depth, tail));
      SkipSpace(r) == "," + next && ("," + next)[1..] == next && Ends(r) && AllSpace(NameGap(style, depth))
  {
    hide PutMember, PutMembers, NameGap, SkipSpace;
    var next := NameGap(style, depth) + PutMember(style, members[1], depth,
        PutMembers(style, members[2..], false, depth, tail));
    PutMembersOne(style, members[1..], depth, tail);
    assert members[1..][0] == members[1] && members[1..][1..] == members[2..];
    Gaps(style, false, depth);
    AfterItem("", ",", next);
    assert "" + ("," + next) == "," + next;
  }

  lemma {:induction false} MembersBack(style: Style, members: seq<Member>, gap: string, depth: nat, end: string,
      rest: string)
    requires members != [] && StyleOk(style) && AllSpace(gap) && AllSpace(end)
    requires forall k :: 0 <= k < |members| ==> Printable(members[k].value)
    ensures ReadMembers(gap + PutMember(style, members[0], depth,
      PutMembers(style, members[1..], false, depth, end + ("}" + rest))))
            == Ok(members, rest)
    decreases members
  {
    hide ReadMember, ReadMembers, PutMember, PutMembers, NameGap, SkipSpace, Printable;
    var tail := end + ("}" + rest);
    var r := PutMembers(style, members[1..], false, depth, tail);
    var s := PutMember(style, members[0], depth, r);
    if members[1..] == [] {
      AfterItem(end, "}", rest);
      NoMore(style, depth, tail);
      MemberBack(style, members[0], gap, depth, r);
      ReadMembersStep(gap + s, members[0], r);
      assert members == [members[0]];
    } else {
      NextMember(style, members, depth, tail);
      assert members[1..][0] == members[1] && members[1..][1..] == members[2..];
      MemberBack(style, members[0], gap, depth, r);
      MembersBack(style, members[1..], NameGap(style, depth), depth, end, rest);
      ReadMembersStep(gap + s, members[0], r);
      assert members == [members[0]] + members[1..];
    }
  }

  /** The text of either writer for a tree is read back to the same tree. */
  lemma RoundTrip(style: Style, v: Value)
    requires StyleOk(style) && Printable(v)
    ensures ReadText(Render(style, v, 0)) == Ok(v, "")
  {
    PutIs(style, v, 0, "");
    ValueBack(style, v, 0, "");
    assert Render(style, v, 0) + "" == Render(style, v, 0);
  }
}
