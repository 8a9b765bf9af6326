/** The pretty writer's text is the plain writer's with white space added outside string literals. */
module JsonPretty {
  import opened JsonTree
  import opened JsonText
  import opened JsonReader

  /** A text without the white space outside its string literals. */
  function Bare(s: string): string
    decreases |s|
  {
    if s == "" then ""
    else if s[0] == '"' then "\"" + BareString(s[1..])
    else if Space(s[0]) then Bare(s[1..])
    else [s[0]] + Bare(s[1..])
  }

  /** The same, from inside a string literal on. */
  function BareString(s: string): string
    decreases |s|
  {
    if s == "" then ""
    else if s[0] == '"' then "\"" + Bare(s[1..])
    else if s[0] == '\\' && |s| > 1 then s[..2] + BareString(s[2..])
    else [s[0]] + BareString(s[1..])
  }

  lemma {:induction false} BareGap(gap: string, tail: string)
    requires AllSpace(gap)
    ensures Bare(gap + tail) == Bare(tail)
    decreases |gap|
  {
    if gap == "" {
      assert gap + tail == tail;
    } else {
      BareGap(gap[1..], tail);
      assert (gap + tail)[1..] == gap[1..] + tail;
    }
  }

  lemma {:induction false} BareWord(word: string, tail: string)
    requires forall k :: 0 <= k < |word| ==> !Space(word[k]) && word[k] != '"'
    ensures Bare(word + tail) == word + Bare(tail)
    decreases |word|
  {
    if word == "" {
      assert word + tail == tail;
    } else {
      BareWord(word[1..], tail);
      assert (word + tail)[1..] == word[1..] + tail;
      assert word == [word[0]] + word[1..];
    }
  }

  lemma {:induction false} BareStringWord(word: string, tail: string)
    requires forall k :: 0 <= k < |word| ==> word[k] != '\\' && word[k] != '"'
    ensures BareString(word + tail) == word + BareString(tail)
    decreases |word|
  {
    if word == "" {
      assert word + tail == tail;
    } else {
      BareStringWord(word[1..], tail);
      assert (word + tail)[1..] == word[1..] + tail;
      assert word == [word[0]] + word[1..];
    }
  }

  lemma EscapeShape(c: char)
    ensures |Escaped(c)| > 1 ==> Escaped(c)[0] == '\\' && forall k :: 2 <= k < |Escaped(c)| ==>
      Escaped(c)[k] != '\\' && Escaped(c)[k] != '"'
    ensures |Escaped(c)| == 1 ==> Escaped(c)[0] != '\\' && Escaped(c)[0] != '"'
  {
  }

  lemma BareEscaped(c: char, tail: string)
    ensures BareString(Escaped(c) + tail) == Escaped(c) + BareString(tail)
  {
    var e := Escaped(c);
    EscapeShape(c);
    hide Escaped;
    if |e| == 1 {
      BareStringWord(e, tail);
    } else {
      var s := e + tail;
      assert s[..2] == e[..2] && s[2..] == e[2..] + tail;
      BareStringWord(e[2..], tail);
      assert e == e[..2] + e[2..];
    }
  }

  lemma {:induction false} BareEscapedAll(x: string, tail: string)
    ensures BareString(EscapedAll(x) + "\"" + tail) == EscapedAll(x) + "\"" + Bare(tail)
    decreases |x|
  {
    hide Escaped, BareString;
    if x == "" {
      BareQuote(tail);
      assert EscapedAll(x) + "\"" + tail == "\"" + tail;
    } else {
      hide EscapedAll;
      BareEscapedAll(x[1..], tail);
      BareEscaped(x[0], EscapedAll(x[1..]) + "\"" + tail);
      EscapedFirst(x, tail);
      EscapedFirst(x, Bare(tail));
    }
  }

  lemma BareQuote(tail: string)
    ensures BareString("\"" + tail) == "\"" + Bare(tail)
  {
    assert ("\"" + tail)[1..] == tail;
  }

  lemma EscapedFirst(x: string, tail: string)
    requires x != ""
    ensures EscapedAll(x) + "\"" + tail == Escaped(x[0]) + (EscapedAll(x[1..]) + "\"" + tail)
  {
    hide Escaped;
  }

  lemma BareLiteral(x: string, tail: string)
    ensures Bare(PutString(x, tail)) == PutString(x, Bare(tail))
  {
    BareEscapedAll(x, tail);
    assert PutString(x, tail)[1..] == EscapedAll(x) + "\"" + tail;
  }

  lemma BareToken(n: Num, tail: string)
    requires NumPrintable(n)
    ensures Bare(Token(n) + tail) == Token(n) + Bare(tail)
  {
    hide Token;
    TokenIs(n);
    forall k | 0 <= k < |Token(n)| ensures !Space(Token(n)[k]) && Token(n)[k] != '"' {
      assert NumberChar(Token(n)[k]);
    }
    BareWord(Token(n), tail);
  }

  lemma {:induction false} BareValue(style: Style, v: Value, depth: nat, tail: string)
    requires StyleOk(style) && Printable(v)
    ensures Bare(Put(style, v, depth, tail)) == Put(Compact, v, depth, Bare(tail))
    decreases v, 0
  {
    hide Bare, PutItems, PutMembers, PutString, Token;
    match v
    case Null => BareWord("null", tail);
    case Bool(b) => BareWord(if b then "true" else "false", tail);
    case Number(n) => BareToken(n, tail);
    case Str(s) => BareLiteral(s, tail);
    case Arr(items) =>
      var end := if items == [] then "" else ItemsEnd(style, depth);
      BareWord("[", PutItems(style, items, true, depth + 1, end + ("]" + tail)));
      BareItems(style, items, true, depth + 1, end + ("]" + tail));
      Gaps(style, true, depth);
      BareGap(end, "]" + tail);
      BareWord("]", tail);
      NoGap("]" + Bare(tail), depth);
    case Obj(members) =>
      var end := if members == [] then "" else MembersEnd(style, depth);
      BareWord("{", PutMembers(style, members, true, depth + 1, end + ("}" + tail)));
      BareMembers(style, members, true, depth + 1, end + ("}" + tail));
      Gaps(style, true, depth);
      BareGap(end, "}" + tail);
      BareWord("}", tail);
      NoGap("}" + Bare(tail), depth);
  }

  lemma NoGap(s: string, depth: nat)
    ensures "" + s == s && ItemsEnd(Compact, depth) + s == s && MembersEnd(Compact, depth) + s == s
    ensures ItemGap(Compact, true, depth) + s == s && ItemGap(Compact, false, depth) + s == s
    ensures NameGap(Compact, depth) + s == s && ColonGap(Compact) + s == s
  {
  }

  lemma {:induction false} BareItems(style: Style, items: seq<Value>, first: bool, depth: nat, tail: string)
    requires StyleOk(style) && forall k :: 0 <= k < |items| ==> Printable(items[k])
    ensures Bare(PutItems(style, items, first, depth, tail)) == PutItems(Compact, items, first, depth, Bare(tail))
    decreases items
  {
    hide Bare, Put, ItemGap, Printable;
    if items != [] {
      var r := PutItems(style, items[1..], false, depth, tail);
      var s := Put(style, items[0], depth, r);
      BareWord(Comma(first), ItemGap(style, first, depth) + s);
      Gaps(style, first, depth);
      BareGap(ItemGap(style, first, depth), s);
      BareValue(style, items[0], depth, r);
      BareItems(style, items[1..], false, depth, tail);
      NoGap(Bare(s), depth);
    }
  }

  lemma {:induction false} BareMembers(style: Style, members: seq<Member>, first: bool, depth: nat, tail: string)
    requires StyleOk(style) && forall k :: 0 <= k < |members| ==> Printable(members[k].value)
    ensures Bare(PutMembers(style, members, first, depth, tail)) ==
      PutMembers(Compact, members, first, depth, Bare(tail))
    decreases members
  {
    hide Bare, Put, NameGap, ColonGap, PutString, Printable;
    if members != [] {
      var m, r := members[0], PutMembers(style, members[1..], false, depth, tail);
      var v := Put(style, m.value, depth, r);
      var s := PutMember(style, m, depth, r);
      BareWord(Comma(first), NameGap(style, depth) + s);
      Gaps(style, first, depth);
      BareGap(NameGap(style, depth), s);
      BareLiteral(m.name, ":" + (ColonGap(style) + v));
      BareWord(":", ColonGap(style) + v);
      BareGap(ColonGap(style), v);
      BareValue(style, m.value, depth, r);
      BareMembers(style, members[1..], false, depth, tail);
      NoGap(Bare(v), depth);
      NoGap(Bare(s), depth);
    }
  }

  /** Whatever the indentation and the format options, the texts of the two writers differ only by white
      space outside string literals. */
  lemma PrettyIsCompactWithSpace(style: Style, v: Value)
    requires StyleOk(style) && Printable(v)
    ensures Bare(Render(style, v, 0)) == Render(Compact, v, 0)
  {
    PutIs(style, v, 0, "");
    PutIs(Compact, v, 0, "");
    BareValue(style, v, 0, "");
    assert Render(style, v, 0) + "" == Render(style, v, 0) && Render(Compact, v, 0) + "" == Render(Compact, v, 0);
  }
}
