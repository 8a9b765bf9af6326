/** The writers: a stack of levels decides what separates the values, and the events of a tree make its
    text. `Writer` and `PrettyWriter` are one class, whose style says which of the two it is. */
module JsonWriter {
  import opened JsonTree
  import opened JsonText
  import JsonReader

  datatype Level = Level(valueCount: nat, inArray: bool)

  // ----- What the events do -----

  datatype State = State(out: string, levels: seq<Level>, hasRoot: bool)

  /** What `Prefix`, or `PrettyPrefix`, puts before a value or a name. */
  function Lead(style: Style, levels: seq<Level>): string {
    if levels == [] then ""
    else
      var top := levels[|levels| - 1];
      if top.inArray then Comma(top.valueCount == 0) + ItemGap(style, top.valueCount == 0, |levels|)
      else if top.valueCount % 2 == 0 then Comma(top.valueCount == 0) + NameGap(style, |levels|)
      else ":" + ColonGap(style)
  }

  function Counted(levels: seq<Level>, n: nat): (r: seq<Level>)
    ensures |r| == |levels|
  {
    if levels == [] then []
    else levels[|levels| - 1 := levels[|levels| - 1].(valueCount := levels[|levels| - 1].valueCount + n)]
  }

  /** A value or name with text `t` was written. */
  function Wrote(style: Style, s: State, t: string): State {
    State(s.out + Lead(style, s.levels) + t, Counted(s.levels, 1), true)
  }

  /** There is no second root. */
  predicate Rooted(s: State) {
    s.levels != [] ==> s.hasRoot
  }

  /** A value may come now: there is no root yet, or the level on top takes one. */
  predicate TakesValue(s: State) {
    if s.levels == [] then !s.hasRoot
    else s.levels[|s.levels| - 1].inArray || s.levels[|s.levels| - 1].valueCount % 2 == 1
  }

  /** What the assertions of the original demand. A name is a string like any other. */
  predicate Allowed(s: State, e: Event) {
    match e
    case OnString(_) => s.levels == [] ==> !s.hasRoot
    case OnKey(_) => s.levels == [] ==> !s.hasRoot
    case EndObject(_) => s.levels != [] && !s.levels[|s.levels| - 1].inArray &&
        s.levels[|s.levels| - 1].valueCount % 2 == 0
    case EndArray(_) => s.levels != [] && s.levels[|s.levels| - 1].inArray
    case _ => TakesValue(s)
  }

  function Opened(style: Style, s: State, bracket: string, inArray: bool): State {
    var t := Wrote(style, s, bracket);
    t.(levels := t.levels + [Level(0, inArray)])
  }

  function Closed(style: Style, s: State, gap: string, bracket: string): State
    requires s.levels != []
  {
    var depth := |s.levels| - 1;
    State(s.out + (if s.levels[depth].valueCount == 0 then "" else gap) + bracket, s.levels[..depth], s.hasRoot)
  }

  function Step(style: Style, s: State, e: Event): State
    requires Allowed(s, e)
  {
    match e
    case OnNull => Wrote(style, s, "null")
    case OnBool(b) => Wrote(style, s, if b then "true" else "false")
    case OnNumber(n) => Wrote(style, s, Token(n))
    case OnString(x) => Wrote(style, s, Quoted(x))
    case OnKey(x) => Wrote(style, s, Quoted(x))
    case StartObject => Opened(style, s, "{", false)
    case StartArray => Opened(style, s, "[", true)
    case EndObject(_) => Closed(style, s, MembersEnd(style, |s.levels| - 1), "}")
    case EndArray(_) => Closed(style, s, ItemsEnd(style, |s.levels| - 1), "]")
  }

  predicate Runs(style: Style, s: State, events: seq<Event>)
    decreases |events|
  {
    events == [] || (Allowed(s, events[0]) && Runs(style, Step(style, s, events[0]), events[1..]))
  }

  function Run(style: Style, s: State, events: seq<Event>): State
    requires Runs(style, s, events)
    decreases |events|
  {
    if events == [] then s else Run(style, Step(style, s, events[0]), events[1..])
  }

  lemma {:induction false} RunAppend(style: Style, s: State, first: seq<Event>, rest: seq<Event>)
    requires Runs(style, s, first) && Runs(style, Run(style, s, first), rest)
    ensures Runs(style, s, first + rest) && Run(style, s, first + rest) == Run(style, Run(style, s, first), rest)
    decreases |first|
  {
    if first == [] {
      assert first + rest == rest;
    } else {
      assert (first + rest)[1..] == first[1..] + rest;
      RunAppend(style, Step(style, s, first[0]), first[1..], rest);
    }
  }

  lemma RunOne(style: Style, s: State, e: Event)
    requires Allowed(s, e)
    ensures Runs(style, s, [e]) && Run(style, s, [e]) == Step(style, s, e)
  {
    assert [e][1..] == [];
  }

  /** Three runs in a row. */
  lemma RunThree(style: Style, s: State, a: seq<Event>, b: seq<Event>, c: seq<Event>, s1: State, s2: State)
    requires Runs(style, s, a) && Run(style, s, a) == s1
    requires Runs(style, s1, b) && Run(style, s1, b) == s2
    requires Runs(style, s2, c)
    ensures Runs(style, s, a + b + c) && Run(style, s, a + b + c) == Run(style, s2, c)
  {
    RunAppend(style, s, a, b);
    RunAppend(style, s, a + b, c);
  }

  lemma NoLead(style: Style, s: State)
    ensures s.out + Lead(style, s.levels) + "" == s.out + Lead(style, s.levels)
    ensures s.levels == [] ==> Lead(style, s.levels) == "" && s.out + "" + "" == s.out
  {
  }

  // ----- The events of a tree write its text -----

  /** `t` was written, with `n` values or names more on the level. */
  function Filled(s: State, t: string, n: nat): State {
    State(s.out + t, Counted(s.levels, n), s.hasRoot)
  }

  lemma CountedTwice(levels: seq<Level>, m: nat, n: nat)
    ensures Counted(Counted(levels, m), n) == Counted(levels, m + n)
  {
  }

  lemma CountedNone(levels: seq<Level>)
    ensures Counted(levels, 0) == levels
  {
  }

  lemma FilledTwice(s: State, t: string, m: nat, t': string, n: nat)
    ensures Filled(Filled(s, t, m), t', n) == Filled(s, t + t', m + n)
  {
    CountedTwice(s.levels, m, n);
    assert s.out + t + t' == s.out + (t + t');
  }

  lemma WroteIsFilled(style: Style, s: State, t: string)
    requires s.levels != [] && Rooted(s)
    ensures Wrote(style, s, t) == Filled(s, Lead(style, s.levels) + t, 1)
  {
    assert s.out + Lead(style, s.levels) + t == s.out + (Lead(style, s.levels) + t);
  }

  lemma NothingFilled(s: State)
    ensures Filled(s, "", 0) == s
  {
    CountedNone(s.levels);
    assert s.out + "" == s.out;
  }

  /** The closing bracket completes the text of an array or object opened at `s`. */
  lemma OpenFillClose(style: Style, s: State, open: string, inArray: bool, t: string, n: nat, gap: string,
      close: string)
    ensures Closed(style, Filled(Opened(style, s, open, inArray), t, n), gap, close)
            == Wrote(style, s, open + t + (if n == 0 then "" else gap) + close)
  {
    var levels := Counted(s.levels, 1);
    assert (levels + [Level(0, inArray)])[..|levels|] == levels;
    assert (levels + [Level(n, inArray)])[..|levels|] == levels;
    var l := s.out + Lead(style, s.levels);
    var g := if n == 0 then "" else gap;
    assert l + open + t + g + close == l + (open + t + g + close);
  }

  lemma Regroup(lead: string, name: string, colon: string, gap: string, v: string, rest: string)
    ensures (lead + name) + (colon + gap + v) + rest == lead + name + colon + gap + v + rest
  {
  }

  /** The text of one member, without the separator before it. */
  function MemberText(style: Style, m: Member, depth: nat): string {
    Quoted(m.name) + ":" + ColonGap(style) + Render(style, m.value, depth)
  }

  /** A member with what comes before it. */
  function LeadAndMember(style: Style, m: Member, first: bool, depth: nat): string {
    Comma(first) + NameGap(style, depth) + MemberText(style, m, depth)
  }

  lemma RenderMembersOne(style: Style, members: seq<Member>, first: bool, depth: nat)
    requires members != []
    ensures RenderMembers(style, members, first, depth) ==
            LeadAndMember(style, members[0], first, depth) + RenderMembers(style, members[1..], false, depth)
  {
    hide Render, Comma, NameGap, Quoted, ColonGap;
    var m := members[0];
    Regroup(Comma(first) + NameGap(style, depth), Quoted(m.name), ":", ColonGap(style), Render(style, m.value, depth),
            RenderMembers(style, members[1..], false, depth));
    Regroup(Comma(first) + NameGap(style, depth), Quoted(m.name), ":", ColonGap(style), Render(style, m.value, depth),
        "");
  }

  /** Wherever a value may come, the events of a tree are all allowed, and write its text after the
      separator, one value on the level, and no level more or less. */
  lemma {:induction false} EventsWrite(style: Style, v: Value, s: State)
    requires TakesValue(s) && Rooted(s)
    ensures Runs(style, s, Events(v)) && Run(style, s, Events(v)) == Wrote(style, s, Render(style, v, |s.levels|))
    decreases v, 0
  {
    hide Runs, Run, Wrote, Lead, Quoted, Token, ItemEvents, MemberEvents, RenderItems, RenderMembers, ItemsEnd,
        MembersEnd, Opened, Closed, Filled, Counted;
    match v
    case Null => RunOne(style, s, OnNull);
    case Bool(b) => RunOne(style, s, OnBool(b));
    case Number(n) => RunOne(style, s, OnNumber(n));
    case Str(x) => RunOne(style, s, OnString(x));
    case Arr(items) => ArrayWrites(style, items, s);
    case Obj(members) => ObjectWrites(style, members, s);
  }

  lemma OpenedIs(style: Style, s: State, open: string, inArray: bool)
    ensures var s1 := Opened(style, s, open, inArray);
      Rooted(s1) && |s1.levels| == |s.levels| + 1 && s1.levels[|s.levels|] == Level(0, inArray)
  {
  }

  lemma FilledIs(s: State, t: string, n: nat)
    requires s.levels != []
    ensures var s2 := Filled(s, t, n);
      && |s2.levels| == |s.levels| && s2.levels[|s.levels| - 1].inArray == s.levels[|s.levels| - 1].inArray
      && s2.levels[|s.levels| - 1].valueCount == s.levels[|s.levels| - 1].valueCount + n
      && s2.hasRoot == s.hasRoot
  {
  }

  lemma {:induction false} ArrayWrites(style: Style, items: seq<Value>, s: State)
    requires TakesValue(s) && Rooted(s)
    ensures Runs(style, s, [StartArray] + ItemEvents(items) + [EndArray(|items|)])
    ensures Run(style, s, [StartArray] + ItemEvents(items) + [EndArray(|items|)]) ==
            Wrote(style, s, Render(style, Arr(items), |s.levels|))
    decreases items, 1
  {
    hide Runs, Run, Wrote, RenderItems, ItemsEnd, Opened, Closed, Filled, ItemEvents;
    var depth := |s.levels|;
    var s1, t := Opened(style, s, "[", true), RenderItems(style, items, true, depth + 1);
    RunOne(style, s, StartArray);
    OpenedIs(style, s, "[", true);
    ItemsWrite(style, items, s1);
    var s2 := Filled(s1, t, |items|);
    FilledIs(s1, t, |items|);
    RunOne(style, s2, EndArray(|items|));
    RunThree(style, s, [StartArray], ItemEvents(items), [EndArray(|items|)], s1, s2);
    OpenFillClose(style, s, "[", true, t, |items|, ItemsEnd(style, depth), "]");
  }

  lemma {:induction false} ObjectWrites(style: Style, members: seq<Member>, s: State)
    requires TakesValue(s) && Rooted(s)
    ensures Runs(style, s, [StartObject] + MemberEvents(members) + [EndObject(|members|)])
    ensures Run(style, s, [StartObject] + MemberEvents(members) + [EndObject(|members|)]) ==
            Wrote(style, s, Render(style, Obj(members), |s.levels|))
    decreases members, 1
  {
    hide Runs, Run, Wrote, RenderMembers, MembersEnd, Opened, Closed, Filled, MemberEvents;
    var depth := |s.levels|;
    var s1, t := Opened(style, s, "{", false), RenderMembers(style, members, true, depth + 1);
    RunOne(style, s, StartObject);
    OpenedIs(style, s, "{", false);
    MembersWrite(style, members, s1);
    var s2 := Filled(s1, t, 2 * |members|);
    FilledIs(s1, t, 2 * |members|);
    RunOne(style, s2, EndObject(|members|));
    RunThree(style, s, [StartObject], MemberEvents(members), [EndObject(|members|)], s1, s2);
    OpenFillClose(style, s, "{", false, t, 2 * |members|, MembersEnd(style, depth), "}");
  }

  lemma {:induction false} ItemsWrite(style: Style, items: seq<Value>, s: State)
    requires s.levels != [] && s.levels[|s.levels| - 1].inArray && Rooted(s)
    ensures Runs(style, s, ItemEvents(items))
    ensures Run(style, s, ItemEvents(items)) ==
            Filled(s, RenderItems(style, items, s.levels[|s.levels| - 1].valueCount == 0, |s.levels|), |items|)
    decreases items, 0
  {
    hide Runs, Run, Wrote, Filled, Render, ItemGap, Comma, Events;
    NothingFilled(s);
    if items == [] {
      RunNone(style, s);
    } else {
      var t := Render(style, items[0], |s.levels|);
      EventsWrite(style, items[0], s);
      WroteIsFilled(style, s, t);
      var l := Lead(style, s.levels) + t;
      var s1 := Filled(s, l, 1);
      FilledIs(s, l, 1);
      ItemsWrite(style, items[1..], s1);
      RunAppend(style, s, Events(items[0]), ItemEvents(items[1..]));
      FilledTwice(s, l, 1, RenderItems(style, items[1..], false, |s.levels|), |items| - 1);
    }
  }

  lemma RunNone(style: Style, s: State)
    ensures Runs(style, s, []) && Run(style, s, []) == s
  {
  }

  lemma {:induction false} MembersWrite(style: Style, members: seq<Member>, s: State)
    requires s.levels != [] && !s.levels[|s.levels| - 1].inArray && s.levels[|s.levels| - 1].valueCount % 2 == 0 &&
      Rooted(s)
    ensures Runs(style, s, MemberEvents(members))
    ensures Run(style, s, MemberEvents(members)) ==
            Filled(s, RenderMembers(style, members, s.levels[|s.levels| - 1].valueCount == 0, |s.levels|),
                2 * |members|)
    decreases members, 0
  {
    hide Runs, Run, Wrote, Filled, Render, RenderMembers, LeadAndMember, Events;
    if members == [] {
      NothingFilled(s);
      RunNone(style, s);
      NoMembersText(style, s.levels[|s.levels| - 1].valueCount == 0, |s.levels|);
    } else {
      var m, depth, first := members[0], |s.levels|, s.levels[|s.levels| - 1].valueCount == 0;
      MemberWrites(style, m, s);
      var s2 := Filled(s, LeadAndMember(style, m, first, depth), 2);
      FilledIs(s, LeadAndMember(style, m, first, depth), 2);
      MembersWrite(style, members[1..], s2);
      RunAppend(style, s, [OnKey(m.name)] + Events(m.value), MemberEvents(members[1..]));
      MembersJoin(style, members, s, first, depth);
    }
  }

  lemma MembersJoin(style: Style, members: seq<Member>, s: State, first: bool, depth: nat)
    requires members != []
    ensures Filled(Filled(s, LeadAndMember(style, members[0], first, depth), 2),
                   RenderMembers(style, members[1..], false, depth), 2 * |members[1..]|)
            == Filled(s, RenderMembers(style, members, first, depth), 2 * |members|)
  {
    hide Filled, LeadAndMember, RenderMembers;
    FilledTwice(s, LeadAndMember(style, members[0], first, depth), 2,
                RenderMembers(style, members[1..], false, depth), 2 * (|members| - 1));
    RenderMembersOne(style, members, first, depth);
  }

  /** A name and its value. */
  lemma MemberWrites(style: Style, m: Member, s: State)
    requires s.levels != [] && !s.levels[|s.levels| - 1].inArray && s.levels[|s.levels| - 1].valueCount % 2 == 0 &&
      Rooted(s)
    ensures Runs(style, s, [OnKey(m.name)] + Events(m.value))
    ensures Run(style, s, [OnKey(m.name)] + Events(m.value)) ==
            Filled(s, LeadAndMember(style, m, s.levels[|s.levels| - 1].valueCount == 0, |s.levels|), 2)
    decreases m, 1
  {
    hide Runs, Run, Wrote, Filled, Render, NameGap, ColonGap, Comma, Quoted, Events;
    var name := Lead(style, s.levels) + Quoted(m.name);
    var s1 := Filled(s, name, 1);
    KeyWrites(style, m.name, s);
    FilledIs(s, name, 1);
    EventsWrite(style, m.value, s1);
    WroteIsFilled(style, s1, Render(style, m.value, |s.levels|));
    RunAppend(style, s, [OnKey(m.name)], Events(m.value));
    NameAndValue(style, m, s);
  }

  lemma KeyWrites(style: Style, name: string, s: State)
    requires s.levels != [] && Rooted(s)
    ensures Runs(style, s, [OnKey(name)])
    ensures Run(style, s, [OnKey(name)]) == Filled(s, Lead(style, s.levels) + Quoted(name), 1)
  {
    hide Runs, Run, Wrote, Filled, Lead, Quoted;
    RunOne(style, s, OnKey(name));
    WroteIsFilled(style, s, Quoted(name));
  }

  lemma NameAndValue(style: Style, m: Member, s: State)
    requires s.levels != [] && !s.levels[|s.levels| - 1].inArray && s.levels[|s.levels| - 1].valueCount % 2 == 0
    ensures
      var s1 := Filled(s, Lead(style, s.levels) + Quoted(m.name), 1);
      Filled(s1, Lead(style, s1.levels) + Render(style, m.value, |s.levels|), 1)
      == Filled(s, LeadAndMember(style, m, s.levels[|s.levels| - 1].valueCount == 0, |s.levels|), 2)
  {
    hide Filled, Render, NameGap, ColonGap, Comma, Quoted;
    var depth, first := |s.levels|, s.levels[|s.levels| - 1].valueCount == 0;
    var name := Lead(style, s.levels) + Quoted(m.name);
    FilledIs(s, name, 1);
    var value := ":" + ColonGap(style) + Render(style, m.value, depth);
    FilledTwice(s, name, 1, value, 1);
    LeadAndMemberIs(style, m, first, depth);
  }

  lemma LeadAndMemberIs(style: Style, m: Member, first: bool, depth: nat)
    ensures LeadAndMember(style, m, first, depth) ==
            (Comma(first) + NameGap(style, depth) + Quoted(m.name)) +
                (":" + ColonGap(style) + Render(style, m.value, depth))
  {
    hide Render, NameGap, ColonGap, Comma, Quoted;
    var a, b, v := Comma(first) + NameGap(style, depth), Quoted(m.name), Render(style, m.value, depth);
    assert a + (b + ":" + ColonGap(style) + v) == (a + b) + (":" + ColonGap(style) + v);
  }

  lemma RenderItemsOne(style: Style, items: seq<Value>, first: bool, depth: nat)
    requires items != []
    ensures RenderItems(style, items, first, depth) ==
            (Comma(first) + ItemGap(style, first, depth) + Render(style, items[0], depth)) +
                RenderItems(style, items[1..], false, depth)
    ensures RenderItems(style, [], first, depth) == ""
  {
    hide Render, Comma, ItemGap;
  }

  lemma {:induction false} RenderItemsNext(style: Style, items: seq<Value>, first: bool, depth: nat, i: nat)
    requires i < |items|
    ensures RenderItems(style, items[..i + 1], first, depth) ==
            RenderItems(style, items[..i], first, depth)
            + (Comma(first && i == 0) + ItemGap(style, first && i == 0, depth) + Render(style, items[i], depth))
    decreases i
  {
    hide Render, RenderItems, Comma, ItemGap;
    var a, b := items[..i], items[..i + 1];
    RenderItemsOne(style, b, first, depth);
    assert b[0] == items[0];
    if i == 0 {
      assert b[1..] == [] && a == [];
      RenderItemsOne(style, b, false, depth);
    } else {
      RenderItemsOne(style, a, first, depth);
      RenderItemsNext(style, items[1..], false, depth, i - 1);
      assert a[1..] == items[1..][..i - 1] && b[1..] == items[1..][..i];
      assert a[0] == items[0] && items[1..][i - 1] == items[i];
    }
  }

  lemma {:induction false} RenderMembersNext(style: Style, members: seq<Member>, first: bool, depth: nat, i: nat)
    requires i < |members|
    ensures RenderMembers(style, members[..i + 1], first, depth) ==
            RenderMembers(style, members[..i], first, depth) + LeadAndMember(style, members[i], first && i == 0, depth)
    decreases i
  {
    hide RenderMembers, LeadAndMember;
    var a, b := members[..i], members[..i + 1];
    RenderMembersOne(style, b, first, depth);
    assert b[0] == members[0];
    NoMembersText(style, first, depth);
    if i == 0 {
      NoMembersText(style, false, depth);
      assert b[1..] == [] && a == [];
    } else {
      RenderMembersOne(style, a, first, depth);
      RenderMembersNext(style, members[1..], false, depth, i - 1);
      assert a[1..] == members[1..][..i - 1] && b[1..] == members[1..][..i];
      assert a[0] == members[0] && members[1..][i - 1] == members[i];
    }
  }

  lemma NoMembersText(style: Style, first: bool, depth: nat)
    ensures RenderMembers(style, [], first, depth) == ""
    ensures forall m {:trigger LeadAndMember(style, m, first, depth)} ::
      LeadAndMember(style, m, first, depth) + "" == "" + LeadAndMember(style, m, first, depth)
  {
  }

  lemma WholeEscaped(s: string)
    ensures s[..0] == "" && EscapedAll("") == "" && s[..|s|] == s
  {
  }

  lemma {:induction false} EscapedNext(s: string, i: nat)
    requires i < |s|
    ensures EscapedAll(s[..i + 1]) == EscapedAll(s[..i]) + Escaped(s[i])
    decreases i
  {
    hide Escaped;
    var a, b := s[..i], s[..i + 1];
    if i == 0 {
      assert b[1..] == "" && b[0] == s[0];
    } else {
      EscapedNext(s[1..], i - 1);
      assert a[1..] == s[1..][..i - 1] && b[1..] == s[1..][..i];
      assert a[0] == b[0] == s[0];
    }
  }

  // ----- The writer -----

  class Writer {
    const style: Style
    var out: string
    var levels: seq<Level>
    var hasRoot: bool

    constructor (style: Style)
      ensures this.style == style && Now() == State("", [], false)
    {
      this.style, out, levels, hasRoot := style, "", [], false;
    }

    function Now(): State
      reads this
    {
      State(out, levels, hasRoot)
    }

    method WriteIndent()
      modifies this`out
      ensures out == old(out) + Indent(style, |levels|)
    {
      if style.Pretty? {
        out := out + seq(|levels| * style.indentCount, _ => style.indentChar);
      } else {
        out := out + "";
      }
    }

    /** `Prefix` of the writer, on a level. */
    method PlainLead()
      requires style.Compact? && levels != []
      modifies this`out
      ensures out == old(out) + Lead(style, levels)
    {
      var level := levels[|levels| - 1];
      if level.valueCount > 0 {
        if level.inArray {
          out := out + ",";
        } else {
          out := out + if level.valueCount % 2 == 0 then "," else ":";
        }
      }
    }

    /** `PrettyPrefix` of the pretty writer, on a level. */
    method PrettyLead()
      requires style.Pretty? && levels != []
      modifies this`out
      ensures out == old(out) + Lead(style, levels)
    {
      var level := levels[|levels| - 1];
      ghost var before := out;
      ghost var first := level.valueCount == 0;
      if level.inArray {
        if level.valueCount > 0 {
          out := out + ",";
          if style.singleLineArray {
            out := out + " ";
          }
        }
        if !style.singleLineArray {
          out := out + "\n";
          WriteIndent();
        }
        assert out == before + (Comma(first) + ItemGap(style, first, |levels|));
      } else {
        if level.valueCount > 0 {
          if level.valueCount % 2 == 0 {
            out := out + "," + "\n";
          } else {
            out := out + ":" + " ";
          }
        } else {
          out := out + "\n";
        }
        if level.valueCount % 2 == 0 {
          WriteIndent();
          assert out == before + (Comma(first) + NameGap(style, |levels|));
        } else {
          assert out == before + (":" + ColonGap(style));
        }
      }
    }

    /** What comes before every value and name; `isString` says whether this is one that can be a name. */
    method Prefix(isString: bool)
      requires Rooted(Now()) && (levels == [] ==> !hasRoot) && (isString || TakesValue(Now()))
      modifies this
      ensures Now() == Wrote(style, old(Now()), "")
    {
      hide Lead;
      NoLead(style, Now());
      if levels != [] {
        if style.Compact? {
          PlainLead();
        } else {
          PrettyLead();
        }
        var level := levels[|levels| - 1];
        // the assertion of the original: names are strings
        assert !level.inArray && level.valueCount % 2 == 0 ==> isString;
        levels := levels[|levels| - 1 := level.(valueCount := level.valueCount + 1)];
      } else {
        hasRoot := true;
      }
    }

    /** The table and the loop of `WriteString`. */
    method WriteString(s: string)
      modifies this`out
      ensures out == old(out) + Quoted(s)
    {
      hide Escaped, EscapedAll;
      ghost var before := out;
      out := out + "\"";
      var i := 0;
      WholeEscaped(s);
      assert out == before + "\"" + EscapedAll(s[..i]);
      while i < |s|
        invariant 0 <= i <= |s| && out == before + "\"" + EscapedAll(s[..i])
      {
        EscapedNext(s, i);
        out := out + Escaped(s[i]);
        i := i + 1;
      }
      out := out + "\"";
      assert before + "\"" + EscapedAll(s) + "\"" == before + ("\"" + EscapedAll(s) + "\"");
    }

    /** A value or name whose text is known. */
    method WriteText(t: string)
      requires Rooted(Now()) && TakesValue(Now())
      modifies this
      ensures Now() == Wrote(style, old(Now()), t)
    {
      ghost var s := Now();
      Prefix(false);
      out := out + t;
      assert out == s.out + Lead(style, s.levels) + t;
    }

    method Null()
      requires Rooted(Now()) && Allowed(Now(), OnNull)
      modifies this
      ensures Now() == Step(style, old(Now()), OnNull)
    {
      WriteText("null");
    }

    method Bool(b: bool)
      requires Rooted(Now()) && Allowed(Now(), OnBool(b))
      modifies this
      ensures Now() == Step(style, old(Now()), OnBool(b))
    {
      WriteText(if b then "true" else "false");
    }

    /** `Int`, `Uint`, `Int64`, `Uint64` and `Double`. */
    method Number(n: Num)
      requires Rooted(Now()) && Allowed(Now(), OnNumber(n))
      modifies this
      ensures Now() == Step(style, old(Now()), OnNumber(n))
    {
      WriteText(Token(n));
    }

    method String(x: string)
      requires Rooted(Now()) && Allowed(Now(), OnString(x))
      modifies this
      ensures Now() == Step(style, old(Now()), OnString(x))
    {
      ghost var s := Now();
      Prefix(true);
      WriteString(x);
      assert out == s.out + Lead(style, s.levels) + Quoted(x);
    }

    method Key(x: string)
      requires Rooted(Now()) && Allowed(Now(), OnKey(x))
      modifies this
      ensures Now() == Step(style, old(Now()), OnKey(x))
    {
      String(x);
    }

    method StartObject()
      requires Rooted(Now()) && Allowed(Now(), JsonTree.StartObject)
      modifies this
      ensures Now() == Step(style, old(Now()), JsonTree.StartObject)
    {
      WriteText("{");
      levels := levels + [Level(0, false)];
    }

    method StartArray()
      requires Rooted(Now()) && Allowed(Now(), JsonTree.StartArray)
      modifies this
      ensures Now() == Step(style, old(Now()), JsonTree.StartArray)
    {
      WriteText("[");
      levels := levels + [Level(0, true)];
    }

    method EndObject(memberCount: nat)
      requires Allowed(Now(), JsonTree.EndObject(memberCount))
      modifies this
      ensures Now() == Step(style, old(Now()), JsonTree.EndObject(memberCount))
    {
      hide Wrote, Opened, Lead, Token, Quoted, TakesValue, Counted;
      ghost var s := Now();
      var empty := levels[|levels| - 1].valueCount == 0;
      levels := levels[..|levels| - 1];
      if style.Pretty? && !empty {
        out := out + "\n";
        WriteIndent();
      }
      ghost var gap := if empty then "" else MembersEnd(style, |s.levels| - 1);
      assert out == s.out + gap;
      out := out + "}";
    }

    method EndArray(elementCount: nat)
      requires Allowed(Now(), JsonTree.EndArray(elementCount))
      modifies this
      ensures Now() == Step(style, old(Now()), JsonTree.EndArray(elementCount))
    {
      ghost var s := Now();
      var empty := levels[|levels| - 1].valueCount == 0;
      levels := levels[..|levels| - 1];
      if style.Pretty? && !empty && !style.singleLineArray {
        out := out + "\n";
        WriteIndent();
      }
      ghost var gap := if empty then "" else ItemsEnd(style, |s.levels| - 1);
      assert out == s.out + gap;
      out := out + "]";
    }

    /** `GenericValue::Accept` with a writer: the writer's text grows by the text of the tree. */
    method Accept(v: Value)
      requires Rooted(Now()) && TakesValue(Now())
      modifies this
      ensures Now() == Wrote(style, old(Now()), Render(style, v, |old(levels)|))
      decreases v, 0
    {
      hide Wrote, RenderItems, RenderMembers, ItemsEnd, MembersEnd, Quoted, Token;
      match v {
        case Null => Null();
        case Bool(b) => Bool(b);
        case Number(n) => Number(n);
        case Str(x) => String(x);
        case Arr(items) => AcceptItems(items);
        case Obj(members) => AcceptMembers(members);
      }
    }

    method AcceptItems(items: seq<Value>)
      requires Rooted(Now()) && TakesValue(Now())
      modifies this
      ensures Now() == Wrote(style, old(Now()), Render(style, Arr(items), |old(levels)|))
      decreases items, 1
    {
      hide Wrote, RenderItems, ItemsEnd, Opened, Closed, Filled;
      ghost var s, depth := Now(), |levels|;
      StartArray();
      ghost var s1 := Now();
      OpenedIs(style, s, "[", true);
      NothingFilled(s1);
      NoItems(style, depth + 1);
      var i := 0;
      while i < |items|
        invariant 0 <= i <= |items|
        invariant Now() == Filled(s1, RenderItems(style, items[..i], true, depth + 1), i)
      {
        RenderItemsNext(style, items, true, depth + 1, i);
        AcceptItem(items[i], s1, RenderItems(style, items[..i], true, depth + 1), i, depth + 1);
        i := i + 1;
      }
      assert items[..i] == items;
      FilledIs(s1, RenderItems(style, items, true, depth + 1), |items|);
      EndArray(|items|);
      OpenFillClose(style, s, "[", true, RenderItems(style, items, true, depth + 1), |items|, ItemsEnd(style, depth),
          "]");
    }

    /** One turn of the loop over the elements. */
    method AcceptItem(v: Value, ghost s1: State, ghost t: string, ghost i: nat, ghost depth: nat)
      requires Rooted(s1) && s1.levels != [] && depth == |s1.levels| && s1.levels[depth - 1] == Level(0, true)
      requires Now() == Filled(s1, t, i)
      modifies this
      ensures Now() == Filled(s1, t + (Comma(i == 0) + ItemGap(style, i == 0, depth) + Render(style, v, depth)), i + 1)
      decreases v, 2
    {
      hide Wrote, Filled, Render, ItemGap, Comma;
      FilledIs(s1, t, i);
      ghost var s2 := Now();
      Accept(v);
      WroteIsFilled(style, s2, Render(style, v, depth));
      FilledTwice(s1, t, i, Lead(style, s2.levels) + Render(style, v, depth), 1);
    }

    method AcceptMembers(members: seq<Member>)
      requires Rooted(Now()) && TakesValue(Now())
      modifies this
      ensures Now() == Wrote(style, old(Now()), Render(style, Obj(members), |old(levels)|))
      decreases members, 1
    {
      hide Wrote, RenderMembers, MembersEnd, Opened, Closed, Filled;
      ghost var s, depth := Now(), |levels|;
      StartObject();
      ghost var s1 := Now();
      OpenedIs(style, s, "{", false);
      NothingFilled(s1);
      NoItems(style, depth + 1);
      var i := 0;
      while i < |members|
        invariant 0 <= i <= |members|
        invariant Now() == Filled(s1, RenderMembers(style, members[..i], true, depth + 1), 2 * i)
      {
        FilledIs(s1, RenderMembers(style, members[..i], true, depth + 1), 2 * i);
        AcceptMember(members[i], s1, RenderMembers(style, members[..i], true, depth + 1), i, depth + 1);
        RenderMembersNext(style, members, true, depth + 1, i);
        i := i + 1;
      }
      assert members[..i] == members;
      FilledIs(s1, RenderMembers(style, members, true, depth + 1), 2 * |members|);
      EndObject(|members|);
      OpenFillClose(style, s, "{", false, RenderMembers(style, members, true, depth + 1), 2 * |members|,
          MembersEnd(style, depth), "}");
    }

    /** One turn of the loop over the members. */
    method AcceptMember(m: Member, ghost s1: State, ghost t: string, ghost i: nat, ghost depth: nat)
      requires Rooted(s1) && s1.levels != [] && depth == |s1.levels| && s1.levels[depth - 1] == Level(0, false)
      requires Now() == Filled(s1, t, 2 * i)
      modifies this
      ensures Now() == Filled(s1, t + LeadAndMember(style, m, i == 0, depth), 2 * (i + 1))
      decreases m, 2
    {
      hide Wrote, Filled, Render, Quoted, Comma, NameGap, ColonGap;
      FilledIs(s1, t, 2 * i);
      ghost var s2 := Now();
      Key(m.name);
      WroteIsFilled(style, s2, Quoted(m.name));
      ghost var name := Lead(style, s2.levels) + Quoted(m.name);
      FilledIs(s2, name, 1);
      ghost var s3 := Now();
      Accept(m.value);
      WroteIsFilled(style, s3, Render(style, m.value, depth));
      ghost var value := ":" + ColonGap(style) + Render(style, m.value, depth);
      FilledTwice(s2, name, 1, value, 1);
      FilledTwice(s1, t, 2 * i, name + value, 2);
      Regroup(Lead(style, s2.levels), Quoted(m.name), ":", ColonGap(style), Render(style, m.value, depth), "");
      assert name + value == LeadAndMember(style, m, i == 0, depth);
    }
  }

  lemma NoItems(style: Style, depth: nat)
    ensures RenderItems(style, [], true, depth) == "" && RenderMembers(style, [], true, depth) == ""
  {
  }

  /** Writing a tree with a fresh writer, plain or pretty, makes a text that is read back to the tree. */
  method WriteTree(style: Style, v: Value) returns (text: string)
    requires StyleOk(style) && JsonReader.Printable(v)
    ensures text == Render(style, v, 0)
    ensures JsonReader.ReadText(text) == JsonReader.Ok(v, "")
  {
    hide JsonReader.ReadText, Render;
    var w := new Writer(style);
    w.Accept(v);
    text := w.out;
    assert "" + "" + Render(style, v, 0) == Render(style, v, 0);
    JsonReader.RoundTrip(style, v);
  }
}
