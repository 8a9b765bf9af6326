/** JSON text: what the writers emit for a value tree. */
module JsonText {
  import opened Hexadecimal
  import opened JsonTree
  import IntegerText

  // ----- Strings -----

  /** What `WriteString` writes for a byte, by the table `escape`. */
  function Escaped(c: char): (e: string)
    ensures e != ""
  {
    if c == '\U{8}' then "\\b"
    else if c == '\t' then "\\t"
    else if c == '\n' then "\\n"
    else if c == '\U{C}' then "\\f"
    else if c == '\r' then "\\r"
    else if c < ' ' then "\\u00" + [Hex(c as nat / 16), Hex(c as nat % 16)]
    else if c == '"' then "\\\""
    else if c == '\\' then "\\\\"
    else [c]
  }

  /** The table's letters for the control characters. */
  function Letter(i: nat): char
    requires i < 32
  {
    "uuuuuuuubtnufruuuuuuuuuuuuuuuuuu"[i]
  }

  lemma LetterIs(i: nat)
    requires i < 32
    ensures Letter(i) ==
      if i == 8 then 'b' else if i == 9 then 't' else if i == 10 then 'n' else if i == 12 then 'f'
      else if i == 13 then 'r' else 'u'
  {
  }

  /** A control character is written by its letter, or by its code in four digits; quote and backslash after a
      backslash; anything else as it is. */
  lemma EscapedIs(c: char)
    ensures c < ' ' && Letter(c as nat) != 'u' ==> Escaped(c) == ['\\', Letter(c as nat)]
    ensures c < ' ' && Letter(c as nat) == 'u' ==>
      Escaped(c) == "\\u00" + [UPPER[c as nat / 16], UPPER[c as nat % 16]]
    ensures c == '"' || c == '\\' ==> Escaped(c) == ['\\', c]
    ensures c >= ' ' && c != '"' && c != '\\' ==> Escaped(c) == [c]
  {
    hide Letter, Hex;
    if c < ' ' {
      LetterIs(c as nat);
      Digits(c as nat / 16);
      Digits(c as nat % 16);
    }
  }

  function EscapedAll(s: string): string {
    if s == "" then "" else Escaped(s[0]) + EscapedAll(s[1..])
  }

  function Quoted(s: string): string {
    "\"" + EscapedAll(s) + "\""
  }

  // ----- The text of a tree -----

  datatype Style = Compact | Pretty(indentChar: char, indentCount: nat, singleLineArray: bool)

  predicate Space(c: char) {
    c == ' ' || c == '\t' || c == '\n' || c == '\r'
  }

  /** `SetIndent` asserts that the character is white space. */
  predicate StyleOk(style: Style) {
    style.Pretty? ==> Space(style.indentChar)
  }

  function Indent(style: Style, depth: nat): string {
    if style.Pretty? then seq(depth * style.indentCount, _ => style.indentChar) else ""
  }

  /** The white space before an element of an array at the given depth, after the separator. */
  function ItemGap(style: Style, first: bool, depth: nat): string {
    if style.Compact? then ""
    else if style.singleLineArray then if first then "" else " "
    else "\n" + Indent(style, depth)
  }

  function NameGap(style: Style, depth: nat): string {
    if style.Compact? then "" else "\n" + Indent(style, depth)
  }

  function ColonGap(style: Style): string {
    if style.Compact? then "" else " "
  }

  function Comma(first: bool): string {
    if first then "" else ","
  }

  /** What comes before the closing bracket of an array, or brace of an object, that is not empty. */
  function ItemsEnd(style: Style, depth: nat): string {
    if style.Compact? || style.singleLineArray then "" else "\n" + Indent(style, depth)
  }

  function MembersEnd(style: Style, depth: nat): string {
    if style.Compact? then "" else "\n" + Indent(style, depth)
  }

  /** Integers are printed in decimal, doubles as the token that their conversion gave. */
  function Token(n: Num): string {
    match n
    case Integer(i) => IntegerText.SignedText(i)
    case Double(t) => t
  }

  /** The text of a tree that starts inside `depth` arrays and objects. */
  function Render(style: Style, v: Value, depth: nat): string
    decreases v, 0
  {
    match v
    case Null => "null"
    case Bool(b) => if b then "true" else "false"
    case Number(n) => Token(n)
    case Str(s) => Quoted(s)
    case Arr(items) =>
      "[" + RenderItems(style, items, true, depth + 1) + (if items == [] then "" else ItemsEnd(style, depth)) + "]"
    case Obj(members) =>
      "{" + RenderMembers(style, members, true, depth + 1)
      + (if members == [] then "" else MembersEnd(style, depth)) + "}"
  }

  function RenderItems(style: Style, items: seq<Value>, first: bool, depth: nat): string
    decreases items
  {
    if items == [] then ""
    else
      Comma(first) + ItemGap(style, first, depth) + Render(style, items[0], depth)
      + RenderItems(style, items[1..], false, depth)
  }

  function RenderMembers(style: Style, members: seq<Member>, first: bool, depth: nat): string
    decreases members
  {
    if members == [] then ""
    else
      Comma(first) + NameGap(style, depth) + Quoted(members[0].name) + ":" + ColonGap(style) +
          Render(style, members[0].value, depth)
      + RenderMembers(style, members[1..], false, depth)
  }
}
