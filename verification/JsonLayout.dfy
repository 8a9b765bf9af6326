/** Where the pretty writer breaks and indents: its text is the plain writer's, read character by character, with a line
    break after every bracket that opens something and every comma, one before every bracket that closes something, and
    after each break the indentation once for every bracket open there. */
module JsonLayout {
  import opened JsonTree
  import opened JsonText
  import opened JsonReader
  import JsonPretty

  // ----- The layout -----

  /** A new line with `n` brackets open. */
  function Line(style: Style, n: nat): string
    requires style.Pretty?
  {
    "\n" + seq(n * style.indentCount, _ => style.indentChar)
  }

  /** The text is on one line inside the innermost of the open brackets. */
  predicate OneLine(style: Style, open: string)
    requires style.Pretty?
  {
    style.singleLineArray && open != "" && open[|open| - 1] == '['
  }

  /** Lays out a plain text from a place where the brackets `open` are open. */
  function LaidOut(style: Style, open: string, s: string): string
    requires style.Pretty?
    decreases |s|
  {
    if s == "" then ""
    else if s[0] == '"' then "\"" + StringLaidOut(style, open, s[1..])
    else if s[0] == ':' then ": " + LaidOut(style, open, s[1..])
    else if s[0] == ',' then
      "," + (if OneLine(style, open) then " " else Line(style, |open|)) + LaidOut(style, open, s[1..])
    else if s[0] == '[' || s[0] == '{' then
      if |s| > 1 && (s[1] == ']' || s[1] == '}') then s[..2] + LaidOut(style, open, s[2..])
      else
        var inside := open + [s[0]];
        [s[0]] + (if OneLine(style, inside) then "" else Line(style, |inside|)) + LaidOut(style, inside, s[1..])
    else if (s[0] == ']' || s[0] == '}') && open != "" then
      var outside := open[..|open| - 1];
      (if OneLine(style, open) then "" else Line(style, |outside|)) + ([s[0]] + LaidOut(style, outside, s[1..]))
    else [s[0]] + LaidOut(style, open, s[1..])
  }

  /** Inside a string literal nothing is added. */
  function StringLaidOut(style: Style, open: string, s: string): string
    requires style.Pretty?
    decreases |s|
  {
    if s == "" then ""
    else if s[0] == '"' then "\"" + LaidOut(style, open, s[1..])
    else if s[0] == '\\' && |s| > 1 then s[..2] + StringLaidOut(style, open, s[2..])
    else [s[0]] + StringLaidOut(style, open, s[1..])
  }

  // ----- Words and literals -----

  /** A character of a number or a name of a constant. */
  predicate Inner(c: char) {
    c != '"' && c != ':' && c != ',' && c != '[' && c != '{' && c != ']' && c != '}'
  }

  lemma InnerStays(style: Style, open: string, s: string)
    requires style.Pretty? && s != "" && Inner(s[0])
    ensures LaidOut(style, open, s) == [s[0]] + LaidOut(style, open, s[1..])
  {
  }

  lemma {:induction false} WordStays(style: Style, open: string, word: string, tail: string)
    requires style.Pretty? && forall k :: 0 <= k < |word| ==> Inner(word[k])
    ensures LaidOut(style, open, word + tail) == word + LaidOut(style, open, tail)
    decreases |word|
  {
    hide LaidOut;
    if word == "" {
      assert word + tail == tail;
    } else {
      InnerStays(style, open, word + tail);
      WordStays(style, open, word[1..], tail);
      assert (word + tail)[1..] == word[1..] + tail;
      assert word == [word[0]] + word[1..];
    }
  }

  lemma {:induction false} PlainStays(style: Style, open: string, word: string, tail: string)
    requires style.Pretty? && forall k :: 0 <= k < |word| ==> word[k] != '\\' && word[k] != '"'
    ensures StringLaidOut(style, open, word + tail) == word + StringLaidOut(style, open, tail)
    decreases |word|
  {
    if word == "" {
      assert word + tail == tail;
    } else {
      PlainStays(style, open, word[1..], tail);
      assert (word + tail)[1..] == word[1..] + tail;
      assert word == [word[0]] + word[1..];
    }
  }

  lemma EscapedStays(style: Style, open: string, c: char, tail: string)
    requires style.Pretty?
    ensures StringLaidOut(style, open, Escaped(c) + tail) == Escaped(c) + StringLaidOut(style, open, tail)
  {
    var e := Escaped(c);
    JsonPretty.EscapeShape(c);
    hide Escaped;
    if |e| == 1 {
      PlainStays(style, open, e, tail);
    } else {
      var s := e + tail;
      assert s[..2] == e[..2] && s[2..] == e[2..] + tail;
      PlainStays(style, open, e[2..], tail);
      assert e == e[..2] + e[2..];
    }
  }

  lemma {:induction false} AllEscapedStays(style: Style, open: string, x: string, tail: string)
    requires style.Pretty?
    ensures
      StringLaidOut(style, open, EscapedAll(x) + "\"" + tail) == EscapedAll(x) + "\"" + LaidOut(style, open, tail)
    decreases |x|
  {
    hide Escaped, StringLaidOut;
    if x == "" {
      QuoteEnds(style, open, tail);
      assert EscapedAll(x) + "\"" + tail == "\"" + tail;
    } else {
      hide EscapedAll;
      AllEscapedStays(style, open, x[1..], tail);
      EscapedStays(style, open, x[0], EscapedAll(x[1..]) + "\"" + tail);
      JsonPretty.EscapedFirst(x, tail);
      JsonPretty.EscapedFirst(x, LaidOut(style, open, tail));
    }
  }

  lemma QuoteEnds(style: Style, open: string, tail: string)
    requires style.Pretty?
    ensures StringLaidOut(style, open, "\"" + tail) == "\"" + LaidOut(style, open, tail)
  {
    assert ("\"" + tail)[1..] == tail;
  }

  lemma LiteralStays(style: Style, open: string, x: string, tail: string)
    requires style.Pretty?
    ensures LaidOut(style, open, PutString(x, tail)) == PutString(x, LaidOut(style, open, tail))
  {
    AllEscapedStays(style, open, x, tail);
    assert PutString(x, tail)[1..] == EscapedAll(x) + "\"" + tail;
  }

  lemma TokenStays(style: Style, open: string, n: Num, tail: string)
    requires style.Pretty? && NumPrintable(n)
    ensures LaidOut(style, open, Token(n) + tail) == Token(n) + LaidOut(style, open, tail)
  {
    hide Token;
    TokenIs(n);
    forall k | 0 <= k < |Token(n)| ensures Inner(Token(n)[k]) {
      assert NumberChar(Token(n)[k]);
    }
    WordStays(style, open, Token(n), tail);
  }

  // ----- Brackets, commas and colons -----

  lemma EmptyPair(style: Style, open: string, pair: string, tail: string)
    requires style.Pretty? && (pair == "[]" || pair == "{}")
    ensures LaidOut(style, open, pair + tail) == pair + LaidOut(style, open, tail)
  {
    var s := pair + tail;
    assert s[0] == pair[0] && s[1] == pair[1] && s[..2] == pair && s[2..] == tail;
  }

  lemma Opens(style: Style, open: string, c: char, s: string)
    requires style.Pretty? && (c == '[' || c == '{') && s != "" && s[0] != ']' && s[0] != '}'
    ensures
      var inside := open + [c];
      LaidOut(style, open, [c] + s) ==
      [c] + ((if OneLine(style, inside) then "" else Line(style, |inside|)) + LaidOut(style, inside, s))
  {
    hide Line, OneLine;
    var text, inside := [c] + s, open + [c];
    assert text[0] == c && text[1..] == s && (|text| > 1 ==> text[1] == s[0]);
    Join([c], if OneLine(style, inside) then "" else Line(style, |inside|), LaidOut(style, inside, s));
  }

  lemma Join(a: string, b: string, c: string)
    ensures a + b + c == a + (b + c)
  {
  }

  lemma ClosesAt(style: Style, inside: string, s: string)
    requires style.Pretty? && s != "" && (s[0] == ']' || s[0] == '}') && inside != ""
    ensures
      var open := inside[..|inside| - 1];
      LaidOut(style, inside, s) ==
      (if OneLine(style, inside) then "" else Line(style, |open|)) + ([s[0]] + LaidOut(style, open, s[1..]))
  {
  }

  lemma Closes(style: Style, inside: string, open: string, b: char, tail: string)
    requires style.Pretty? && (b == ']' || b == '}') && inside != "" && open == inside[..|inside| - 1]
    ensures
      LaidOut(style, inside, [b] + tail) ==
      (if OneLine(style, inside) then "" else Line(style, |open|)) + ([b] + LaidOut(style, open, tail))
  {
    hide Line, OneLine, LaidOut;
    ClosesAt(style, inside, [b] + tail);
    assert ([b] + tail)[1..] == tail;
  }

  lemma CommaBreaks(style: Style, open: string, s: string)
    requires style.Pretty?
    ensures
      LaidOut(style, open, "," + s) ==
      "," + ((if OneLine(style, open) then " " else Line(style, |open|)) + LaidOut(style, open, s))
  {
    assert ("," + s)[1..] == s;
    Join(",", if OneLine(style, open) then " " else Line(style, |open|), LaidOut(style, open, s));
  }

  lemma ColonSpaces(style: Style, open: string, s: string)
    requires style.Pretty?
    ensures LaidOut(style, open, ":" + s) == ": " + LaidOut(style, open, s)
  {
    assert (":" + s)[1..] == s;
  }

  // ----- The text of a tree -----

  /** What the writer puts where, as the layout has it. */
  lemma GapsAre(style: Style, first: bool, n: nat)
    requires style.Pretty?
    ensures ItemGap(style, first, n) == if style.singleLineArray then if first then "" else " " else Line(style, n)
    ensures NameGap(style, n) == MembersEnd(style, n) == Line(style, n) && ColonGap(style) == " "
    ensures ItemsEnd(style, n) == if style.singleLineArray then "" else Line(style, n)
  {
  }

  lemma {:induction false} ValueLaidOut(style: Style, open: string, v: Value, tail: string)
    requires style.Pretty? && Printable(v)
    ensures LaidOut(style, open, Put(Compact, v, |open|, tail)) == Put(style, v, |open|, LaidOut(style, open, tail))
    decreases v, 0
  {
    hide LaidOut, PutItems, PutMembers, PutString, Token;
    match v
    case Null => WordStays(style, open, "null", tail);
    case Bool(b) => WordStays(style, open, if b then "true" else "false", tail);
    case Number(n) => TokenStays(style, open, n, tail);
    case Str(s) => LiteralStays(style, open, s, tail);
    case Arr(items) => ArrayLaidOut(style, open, items, tail);
    case Obj(members) => ObjectLaidOut(style, open, members, tail);
  }

  lemma {:induction false} ArrayLaidOut(style: Style, open: string, items: seq<Value>, tail: string)
    requires style.Pretty? && forall k :: 0 <= k < |items| ==> Printable(items[k])
    ensures
      LaidOut(style, open, Put(Compact, Arr(items), |open|, tail)) ==
      Put(style, Arr(items), |open|, LaidOut(style, open, tail))
    decreases items, 2
  {
    hide LaidOut, PutItems, Put, Line, ItemGap, ItemsEnd, Printable;
    var n, inside := |open|, open + "[";
    PlainArray(items, n, tail);
    ArrayIs(style, items, n, LaidOut(style, open, tail));
    GapsAre(style, true, n);
    GapsAre(style, true, n + 1);
    if items == [] {
      EmptyPair(style, open, "[]", tail);
    } else {
      var rest := PutItems(Compact, items[1..], false, n + 1, "]" + tail);
      var s := Put(Compact, items[0], n + 1, rest);
      PutStart(Compact, items[0], n + 1, rest);
      Opens(style, open, '[', s);
      ValueLaidOut(style, inside, items[0], rest);
      ItemsLaidOut(style, inside, items[1..], "]" + tail);
      Closes(style, inside, open, ']', tail);
    }
  }

  /** The text of an array, by its first element and the others. */
  lemma ArrayIs(style: Style, items: seq<Value>, n: nat, tail: string)
    ensures items == [] ==> Put(style, Arr(items), n, tail) == "[]" + tail
    ensures items != [] ==>
      Put(style, Arr(items), n, tail) ==
      "[" + (ItemGap(style, true, n + 1) + Put(style, items[0], n + 1,
          PutItems(style, items[1..], false, n + 1, ItemsEnd(style, n) + ("]" + tail))))
  {
    if items == [] {
      assert "" + ("]" + tail) == "]" + tail && "[" + ("]" + tail) == "[]" + tail;
    } else {
      var s := ItemGap(style, true, n + 1) + Put(style, items[0], n + 1,
          PutItems(style, items[1..], false, n + 1, ItemsEnd(style, n) + ("]" + tail)));
      assert "" + s == s;
    }
  }

  lemma PlainArray(items: seq<Value>, n: nat, tail: string)
    ensures items == [] ==> Put(Compact, Arr(items), n, tail) == "[]" + tail
    ensures items != [] ==>
      Put(Compact, Arr(items), n, tail) ==
      "[" + Put(Compact, items[0], n + 1, PutItems(Compact, items[1..], false, n + 1, "]" + tail))
  {
    hide Put, PutItems;
    ArrayIs(Compact, items, n, tail);
    JsonPretty.NoGap("]" + tail, n);
    if items != [] {
      JsonPretty.NoGap(Put(Compact, items[0], n + 1, PutItems(Compact, items[1..], false, n + 1, "]" + tail)), n + 1);
    }
  }

  lemma {:induction false} ItemsLaidOut(style: Style, open: string, items: seq<Value>, tail: string)
    requires style.Pretty? && open != "" && open[|open| - 1] == '['
    requires forall k :: 0 <= k < |items| ==> Printable(items[k])
    ensures
      LaidOut(style, open, PutItems(Compact, items, false, |open|, tail)) ==
      PutItems(style, items, false, |open|, LaidOut(style, open, tail))
    decreases items
  {
    hide LaidOut, Put, Line, ItemGap, Printable;
    if items != [] {
      var rest := PutItems(Compact, items[1..], false, |open|, tail);
      var s := Put(Compact, items[0], |open|, rest);
      JsonPretty.NoGap(s, |open|);
      CommaBreaks(style, open, s);
      GapsAre(style, false, |open|);
      ValueLaidOut(style, open, items[0], rest);
      ItemsLaidOut(style, open, items[1..], tail);
    }
  }

  lemma {:induction false} ObjectLaidOut(style: Style, open: string, members: seq<Member>, tail: string)
    requires style.Pretty? && forall k :: 0 <= k < |members| ==> Printable(members[k].value)
    ensures
      LaidOut(style, open, Put(Compact, Obj(members), |open|, tail)) ==
      Put(style, Obj(members), |open|, LaidOut(style, open, tail))
    decreases members, 2
  {
    hide LaidOut, PutMembers, PutMember, Put, Line, NameGap, MembersEnd, Printable;
    var n, inside := |open|, open + "{";
    PlainObject(members, n, tail);
    ObjectIs(style, members, n, LaidOut(style, open, tail));
    GapsAre(style, true, n);
    GapsAre(style, true, n + 1);
    if members == [] {
      EmptyPair(style, open, "{}", tail);
    } else {
      var rest := PutMembers(Compact, members[1..], false, n + 1, "}" + tail);
      var s := PutMember(Compact, members[0], n + 1, rest);
      MemberStarts(members[0], n + 1, rest);
      Opens(style, open, '{', s);
      MemberLaidOut(style, inside, members[0], rest);
      MembersLaidOut(style, inside, members[1..], "}" + tail);
      Closes(style, inside, open, '}', tail);
    }
  }

  lemma MemberStarts(m: Member, n: nat, tail: string)
    ensures var s := PutMember(Compact, m, n, tail); s != "" && s[0] == '"'
  {
  }

  lemma ObjectIs(style: Style, members: seq<Member>, n: nat, tail: string)
    ensures members == [] ==> Put(style, Obj(members), n, tail) == "{}" + tail
    ensures members != [] ==>
      Put(style, Obj(members), n, tail) ==
      "{" + (NameGap(style, n + 1) + PutMember(style, members[0], n + 1,
          PutMembers(style, members[1..], false, n + 1, MembersEnd(style, n) + ("}" + tail))))
  {
    if members == [] {
      assert "" + ("}" + tail) == "}" + tail && "{" + ("}" + tail) == "{}" + tail;
    } else {
      var s := NameGap(style, n + 1) + PutMember(style, members[0], n + 1,
          PutMembers(style, members[1..], false, n + 1, MembersEnd(style, n) + ("}" + tail)));
      assert "" + s == s;
    }
  }

  lemma PlainObject(members: seq<Member>, n: nat, tail: string)
    ensures members == [] ==> Put(Compact, Obj(members), n, tail) == "{}" + tail
    ensures members != [] ==>
      Put(Compact, Obj(members), n, tail) ==
      "{" + PutMember(Compact, members[0], n + 1, PutMembers(Compact, members[1..], false, n + 1, "}" + tail))
  {
    hide Put, PutMember, PutMembers;
    ObjectIs(Compact, members, n, tail);
    JsonPretty.NoGap("}" + tail, n);
    if members != [] {
      JsonPretty.NoGap(
        PutMember(Compact, members[0], n + 1, PutMembers(Compact, members[1..], false, n + 1, "}" + tail)), n + 1);
    }
  }

  lemma MemberLaidOut(style: Style, open: string, m: Member, tail: string)
    requires style.Pretty? && Printable(m.value)
    ensures
      LaidOut(style, open, PutMember(Compact, m, |open|, tail)) ==
      PutMember(style, m, |open|, LaidOut(style, open, tail))
    decreases m, 1
  {
    hide LaidOut, Put, PutString, Printable;
    var v := Put(Compact, m.value, |open|, tail);
    assert "" + v == v;
    LiteralStays(style, open, m.name, ":" + v);
    ColonSpaces(style, open, v);
    ValueLaidOut(style, open, m.value, tail);
    var w := Put(style, m.value, |open|, LaidOut(style, open, tail));
    assert ": " + w == ":" + (" " + w);
  }

  lemma {:induction false} MembersLaidOut(style: Style, open: string, members: seq<Member>, tail: string)
    requires style.Pretty? && open != "" && open[|open| - 1] == '{'
    requires forall k :: 0 <= k < |members| ==> Printable(members[k].value)
    ensures
      LaidOut(style, open, PutMembers(Compact, members, false, |open|, tail)) ==
      PutMembers(style, members, false, |open|, LaidOut(style, open, tail))
    decreases members
  {
    hide LaidOut, PutMember, Line, NameGap, Printable;
    if members != [] {
      var rest := PutMembers(Compact, members[1..], false, |open|, tail);
      var s := PutMember(Compact, members[0], |open|, rest);
      JsonPretty.NoGap(s, |open|);
      CommaBreaks(style, open, s);
      GapsAre(style, false, |open|);
      MemberLaidOut(style, open, members[0], rest);
      MembersLaidOut(style, open, members[1..], tail);
    }
  }

  /** The pretty writer's text of any tree, in any format, is the plain writer's laid out. */
  lemma PrettyIsLaidOut(style: Style, v: Value)
    requires style.Pretty? && Printable(v)
    ensures Render(style, v, 0) == LaidOut(style, "", Render(Compact, v, 0))
  {
    ValueLaidOut(style, "", v, "");
    PutIs(style, v, 0, "");
    PutIs(Compact, v, 0, "");
    assert Render(style, v, 0) + "" == Render(style, v, 0);
    assert Render(Compact, v, 0) + "" == Render(Compact, v, 0);
  }
}
