/** The text of a value, compact or pretty. */
module ParsonPrinter {
  import opened ParsonText
  import opened ParsonValue

  datatype Style = Style(codec: Codec, pretty: bool, escapeSlashes: bool)

  // ------------------------------------------------------ the text of a value

  function Spaces(level: nat): string {
    if level == 0 then "" else Spaces(level - 1) + "    "
  }

  function Indent(pretty: bool, level: nat): string { if pretty then Spaces(level) else "" }

  function NewLine(pretty: bool): string { if pretty then "\n" else "" }

  function Comma(more: bool): string { if more then "," else "" }

  function Colon(pretty: bool): string { if pretty then ": " else ":" }

  function Print(style: Style, v: Value, level: nat): string
    decreases v, 0
  {
    match v
    case Null => "null"
    case Boolean(flag) => if flag then "true" else "false"
    case Number(x) => style.codec.show(x)
    case String(s) => Quote(s, style.escapeSlashes)
    case Array(items) => "[" + NewLine(style.pretty && items != []) + ArrayRest(style, items, 0, level)
    case Object(members) => "{" + NewLine(style.pretty && members != []) + ObjectRest(style, members, 0, level)
  }

  // A value and the end of its line.
  function ValueText(style: Style, v: Value, more: bool, level: nat): string
    decreases v, 1
  {
    Print(style, v, level) + (Comma(more) + NewLine(style.pretty))
  }

  function ArrayLine(style: Style, items: seq<Value>, i: nat, level: nat): string
    requires i < |items|
    decreases items, 0
  {
    Indent(style.pretty, level + 1) + ValueText(style, items[i], i < |items| - 1, level + 1)
  }

  // From an item on to the end of its array.
  function ArrayRest(style: Style, items: seq<Value>, i: nat, level: nat): string
    requires i <= |items|
    decreases items, 1, |items| - i
  {
    if i == |items| then Indent(style.pretty && items != [], level) + "]"
    else ArrayLine(style, items, i, level) + ArrayRest(style, items, i + 1, level)
  }

  function KeyText(style: Style, key: string, level: nat): string {
    Indent(style.pretty, level) + (Quote(key, style.escapeSlashes) + Colon(style.pretty))
  }

  function ObjectLine(style: Style, members: seq<Member>, i: nat, level: nat): string
    requires i < |members|
    decreases members, 0
  {
    KeyText(style, members[i].name, level + 1) + ValueText(style, members[i].value, i < |members| - 1, level + 1)
  }

  function ObjectRest(style: Style, members: seq<Member>, i: nat, level: nat): string
    requires i <= |members|
    decreases members, 1, |members| - i
  {
    if i == |members| then Indent(style.pretty && members != [], level) + "}"
    else ObjectLine(style, members, i, level) + ObjectRest(style, members, i + 1, level)
  }
}
