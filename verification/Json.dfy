/** JSON values, as `serde_json::Value` holds them. A number is kept as its printed text. */
module Json {
  import opened Wrappers

  datatype Value =
    | Null
    | Bool(b: bool)
    | Number(text: string)
    | Str(s: string)
    | Array(items: seq<Value>)
    | Object(members: seq<Member>)

  datatype Member = Member(key: string, value: Value)

  /** The member of an object named `key`, if any; other values have no members. */
  function Get(v: Value, key: string): Option<Value> {
    if v.Object? then Lookup(v.members, key) else None
  }

  function Lookup(members: seq<Member>, key: string): Option<Value> {
    if members == [] then None
    else if members[0].key == key then Some(members[0].value)
    else Lookup(members[1..], key)
  }

  // ---- Printing

  /** Layout between tokens: what starts a line at each nesting level, and what follows a colon.
      Empty strings give the compact form, a newline and indentation the pretty one. */
  datatype Style = Style(line: nat -> string, afterColon: string)

  predicate IsJsonSpace(c: char) {
    c == ' ' || c == '\n' || c == '\r' || c == '\t'
  }

  ghost predicate Blank(style: Style) {
    && (forall level: nat, i :: 0 <= i < |style.line(level)| ==> IsJsonSpace(style.line(level)[i]))
    && (forall i :: 0 <= i < |style.afterColon| ==> IsJsonSpace(style.afterColon[i]))
  }

  predicate IsNumberChar(c: char) {
    '0' <= c <= '9' || c == '-' || c == '+' || c == '.' || c == 'e' || c == 'E'
  }

  /** Every number holds characters that occur in numbers. */
  ghost predicate Printable(v: Value)
    decreases v
  {
    match v
    case Number(text) => forall i :: 0 <= i < |text| ==> IsNumberChar(text[i])
    case Array(items) => forall i :: 0 <= i < |items| ==> Printable(items[i])
    case Object(members) => forall i :: 0 <= i < |members| ==> Printable(members[i].value)
    case _ => true
  }

  function HexDigit(n: nat): char
    requires n < 16
  {
    if n < 10 then '0' + n as char else 'a' + (n - 10) as char
  }

  /** Section 7 of RFC 8259: quotation mark, reverse solidus and control characters are escaped. */
  function EscapeChar(c: char): string {
    if c == '"' then ['\\', '"']
    else if c == '\\' then ['\\', '\\']
    else if c == '\n' then ['\\', 'n']
    else if c == '\r' then ['\\', 'r']
    else if c == '\t' then ['\\', 't']
    else if c as int == 8 then ['\\', 'b']
    else if c as int == 12 then ['\\', 'f']
    else if c as int < 0x20 then ['\\', 'u', '0', '0', HexDigit(c as int / 16), HexDigit(c as int % 16)]
    else [c]
  }

  function Escape(s: string): string {
    if s == [] then [] else EscapeChar(s[0]) + Escape(s[1..])
  }

  function PrintString(s: string): string {
    ['"'] + Escape(s) + ['"']
  }

  function Print(v: Value, style: Style, level: nat): string
    decreases v, 1
  {
    match v
    case Null => "null"
    case Bool(b) => if b then "true" else "false"
    case Number(text) => text
    case Str(s) => PrintString(s)
    case Array(_) => ['['] + Inner(v, style, level) + [']']
    case Object(_) => ['{'] + Inner(v, style, level) + ['}']
  }

  /** What stands between the brackets of an array or object. */
  function Inner(v: Value, style: Style, level: nat): string
    requires v.Array? || v.Object?
    decreases v, 0
  {
    match v
    case Array(items) => if items == [] then [] else PrintItems(items, style, level + 1) + style.line(level)
    case Object(members) => if members == [] then [] else PrintMembers(members, style, level + 1) + style.line(level)
  }

  function PrintItems(items: seq<Value>, style: Style, level: nat): string
    decreases items, 0
  {
    if items == [] then []
    else
      style.line(level) + Print(items[0], style, level)
      + (if |items| == 1 then [] else [',']) + PrintItems(items[1..], style, level)
  }

  function PrintMembers(members: seq<Member>, style: Style, level: nat): string
    decreases members, 0
  {
    if members == [] then []
    else
      style.line(level) + PrintString(members[0].key) + [':'] + style.afterColon + Print(members[0].value, style, level)
      + (if |members| == 1 then [] else [',']) + PrintMembers(members[1..], style, level)
  }
}
