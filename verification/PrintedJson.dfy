/** The scanner finds the exact end of every printed JSON object or array, whatever braces,
    quotes or backslashes its strings hold and whatever follows it. */
module PrintedJson {
  import opened Wrappers
  import opened Strings
  import opened Json
  import opened StructuredOutput

  ghost predicate IsBracketPair(open: char, close: char) {
    (open == '{' && close == '}') || (open == '[' && close == ']')
  }

  /** Outside strings at a depth, and inside one. */
  function Outside(depth: int): Scan {
    Scan(depth, false, false)
  }

  function InString(depth: int): Scan {
    Scan(depth, true, false)
  }

  /** Scanning `p` meets no end and leads from one state to the other. */
  ghost predicate Passes(open: char, close: char, from: Scan, p: string, to: Scan)
    decreases |p|
  {
    if p == [] then from == to
    else !EndsAt(open, close, from, p[0]) && Passes(open, close, ScanChar(open, close, from, p[0]), p[1..], to)
  }

  lemma {:induction false} PassesConcat(open: char, close: char, a: Scan, p: string, b: Scan, q: string, c: Scan)
    requires Passes(open, close, a, p, b) && Passes(open, close, b, q, c)
    ensures Passes(open, close, a, p + q, c)
    decreases |p|
  {
    if p == [] {
      assert p + q == q;
    } else {
      assert (p + q)[1..] == p[1..] + q;
      PassesConcat(open, close, ScanChar(open, close, a, p[0]), p[1..], b, q, c);
    }
  }

  lemma {:induction false} PassesFind(open: char, close: char, from: Scan, p: string, to: Scan, rest: string)
    requires Passes(open, close, from, p, to)
    ensures FindFrom(open, close, from, p + rest) == Shift(FindFrom(open, close, to, rest), |p|)
    decreases |p|
  {
    if p == [] {
      assert p + rest == rest;
    } else {
      assert (p + rest)[1..] == p[1..] + rest;
      PassesFind(open, close, ScanChar(open, close, from, p[0]), p[1..], to, rest);
    }
  }

  lemma PassesOne(open: char, close: char, from: Scan, c: char)
    requires !EndsAt(open, close, from, c)
    ensures Passes(open, close, from, [c], ScanChar(open, close, from, c))
  {
    assert [c][1..] == [];
  }

  // ---- Text without quotes or brackets

  ghost predicate Plain(p: string) {
    forall i :: 0 <= i < |p| ==> p[i] !in ['"', '{', '}', '[', ']']
  }

  lemma {:induction false} PlainPasses(open: char, close: char, depth: int, p: string)
    requires IsBracketPair(open, close) && Plain(p)
    ensures Passes(open, close, Outside(depth), p, Outside(depth))
    decreases |p|
  {
    if p != [] {
      assert forall i :: 0 <= i < |p[1..]| ==> p[1..][i] == p[i + 1];
      PlainPasses(open, close, depth, p[1..]);
    }
  }

  lemma StylePasses(open: char, close: char, depth: int, style: Style, level: nat)
    requires IsBracketPair(open, close) && Blank(style)
    ensures Passes(open, close, Outside(depth), style.line(level), Outside(depth))
    ensures Passes(open, close, Outside(depth), style.afterColon, Outside(depth))
  {
    PlainPasses(open, close, depth, style.line(level));
    PlainPasses(open, close, depth, style.afterColon);
  }

  // ---- Strings

  lemma HexDigitPlain(n: nat)
    requires n < 16
    ensures HexDigit(n) != '"' && HexDigit(n) != '\\'
  {
  }

  lemma EscapeCharPasses(open: char, close: char, depth: int, c: char)
    ensures Passes(open, close, InString(depth), EscapeChar(c), InString(depth))
  {
    var e, st := EscapeChar(c), InString(depth);
    if |e| == 1 {
      PassesOne(open, close, st, e[0]);
      assert e == [e[0]];
    } else {
      var escaped := Scan(depth, true, true);
      PassesOne(open, close, st, e[0]);
      PassesOne(open, close, escaped, e[1]);
      PassesConcat(open, close, st, [e[0]], escaped, [e[1]], st);
      if |e| == 2 {
        assert e == [e[0]] + [e[1]];
      } else {
        HexDigitPlain(c as int / 16);
        HexDigitPlain(c as int % 16);
        PassesOne(open, close, st, e[2]);
        PassesOne(open, close, st, e[3]);
        PassesOne(open, close, st, e[4]);
        PassesOne(open, close, st, e[5]);
        PassesConcat(open, close, st, [e[4]], st, [e[5]], st);
        PassesConcat(open, close, st, [e[3]], st, [e[4]] + [e[5]], st);
        PassesConcat(open, close, st, [e[2]], st, [e[3]] + ([e[4]] + [e[5]]), st);
        PassesConcat(open, close, st, [e[0]] + [e[1]], st, [e[2]] + ([e[3]] + ([e[4]] + [e[5]])), st);
        assert e == [e[0]] + [e[1]] + ([e[2]] + ([e[3]] + ([e[4]] + [e[5]])));
      }
    }
  }

  lemma {:induction false} EscapePasses(open: char, close: char, depth: int, s: string)
    ensures Passes(open, close, InString(depth), Escape(s), InString(depth))
  {
    if s != [] {
      EscapeCharPasses(open, close, depth, s[0]);
      EscapePasses(open, close, depth, s[1..]);
      PassesConcat(open, close, InString(depth), EscapeChar(s[0]), InString(depth), Escape(s[1..]), InString(depth));
    }
  }

  lemma StringPasses(open: char, close: char, depth: int, s: string)
    requires IsBracketPair(open, close)
    ensures Passes(open, close, Outside(depth), PrintString(s), Outside(depth))
  {
    PassesOne(open, close, Outside(depth), '"');
    EscapePasses(open, close, depth, s);
    PassesOne(open, close, InString(depth), '"');
    PassesConcat(open, close, Outside(depth), ['"'], InString(depth), Escape(s), InString(depth));
    PassesConcat(open, close, Outside(depth), ['"'] + Escape(s), InString(depth), ['"'], Outside(depth));
  }

  // ---- Values

  /** The depth inside a pair of brackets: one more if the scanner counts this kind. */
  function Deeper(open: char, depth: int, bracket: char): int {
    if open == bracket then depth + 1 else depth
  }

  lemma {:induction false} ValuePasses(open: char, close: char, depth: int, v: Value, style: Style, level: nat)
    requires IsBracketPair(open, close) && Blank(style) && Printable(v) && depth >= 1
    ensures Passes(open, close, Outside(depth), Print(v, style, level), Outside(depth))
    decreases v, 1
  {
    match v {
      case Null => PlainPasses(open, close, depth, "null");
      case Bool(b) => PlainPasses(open, close, depth, if b then "true" else "false");
      case Number(text) => PlainPasses(open, close, depth, text);
      case Str(s) => StringPasses(open, close, depth, s);
      case Array(_) =>
        InnerPasses(open, close, Deeper(open, depth, '['), v, style, level);
        BracketsPass(open, close, depth, '[', Inner(v, style, level), ']');
      case Object(_) =>
        InnerPasses(open, close, Deeper(open, depth, '{'), v, style, level);
        BracketsPass(open, close, depth, '{', Inner(v, style, level), '}');
    }
  }

  lemma BracketsPass(open: char, close: char, depth: int, left: char, inner: string, right: char)
    requires IsBracketPair(open, close) && IsBracketPair(left, right) && depth >= 1
    requires Passes(open, close, Outside(Deeper(open, depth, left)), inner, Outside(Deeper(open, depth, left)))
    ensures Passes(open, close, Outside(depth), [left] + inner + [right], Outside(depth))
  {
    var inside := Outside(Deeper(open, depth, left));
    PassesOne(open, close, Outside(depth), left);
    PassesConcat(open, close, Outside(depth), [left], inside, inner, inside);
    PassesOne(open, close, inside, right);
    PassesConcat(open, close, Outside(depth), [left] + inner, inside, [right], Outside(depth));
  }

  lemma {:induction false} InnerPasses(open: char, close: char, depth: int, v: Value, style: Style, level: nat)
    requires v.Array? || v.Object?
    requires IsBracketPair(open, close) && Blank(style) && Printable(v) && depth >= 1
    ensures Passes(open, close, Outside(depth), Inner(v, style, level), Outside(depth))
    decreases v, 0
  {
    StylePasses(open, close, depth, style, level);
    match v {
      case Array(items) =>
        if items != [] {
          ItemsPass(open, close, depth, items, style, level + 1);
          var text, st := PrintItems(items, style, level + 1), Outside(depth);
          PassesConcat(open, close, st, text, st, style.line(level), st);
        }
      case Object(members) =>
        if members != [] {
          MembersPass(open, close, depth, members, style, level + 1);
          var text, st := PrintMembers(members, style, level + 1), Outside(depth);
          PassesConcat(open, close, st, text, st, style.line(level), st);
        }
    }
  }

  lemma {:induction false} ItemsPass(open: char, close: char, depth: int, items: seq<Value>, style: Style, level: nat)
    requires IsBracketPair(open, close) && Blank(style) && depth >= 1
    requires forall i :: 0 <= i < |items| ==> Printable(items[i])
    ensures Passes(open, close, Outside(depth), PrintItems(items, style, level), Outside(depth))
    decreases items, 0
  {
    if items != [] {
      var st, rest := Outside(depth), items[1..];
      var comma := if |items| == 1 then [] else [','];
      StylePasses(open, close, depth, style, level);
      ValuePasses(open, close, depth, items[0], style, level);
      PlainPasses(open, close, depth, comma);
      assert forall i :: 0 <= i < |rest| ==> rest[i] == items[i + 1];
      ItemsPass(open, close, depth, rest, style, level);
      PassesConcat(open, close, st, style.line(level), st, Print(items[0], style, level), st);
      var front := style.line(level) + Print(items[0], style, level);
      PassesConcat(open, close, st, front, st, comma, st);
      PassesConcat(open, close, st, front + comma, st, PrintItems(rest, style, level), st);
    }
  }

  lemma {:induction false} MembersPass(open: char, close: char, depth: int, members: seq<Member>, style: Style,
      level: nat)
    requires IsBracketPair(open, close) && Blank(style) && depth >= 1
    requires forall i :: 0 <= i < |members| ==> Printable(members[i].value)
    ensures Passes(open, close, Outside(depth), PrintMembers(members, style, level), Outside(depth))
    decreases members, 0
  {
    if members != [] {
      var st, rest := Outside(depth), members[1..];
      var comma := if |members| == 1 then [] else [','];
      var key, value := PrintString(members[0].key), Print(members[0].value, style, level);
      StylePasses(open, close, depth, style, level);
      StringPasses(open, close, depth, members[0].key);
      PlainPasses(open, close, depth, [':']);
      ValuePasses(open, close, depth, members[0].value, style, level);
      PlainPasses(open, close, depth, comma);
      assert forall i :: 0 <= i < |rest| ==> rest[i] == members[i + 1];
      MembersPass(open, close, depth, rest, style, level);
      var p1 := style.line(level) + key;
      var p2 := p1 + [':'];
      var p3 := p2 + style.afterColon;
      var p4 := p3 + value;
      PassesConcat(open, close, st, style.line(level), st, key, st);
      PassesConcat(open, close, st, p1, st, [':'], st);
      PassesConcat(open, close, st, p2, st, style.afterColon, st);
      PassesConcat(open, close, st, p3, st, value, st);
      PassesConcat(open, close, st, p4, st, comma, st);
      PassesConcat(open, close, st, p4 + comma, st, PrintMembers(rest, style, level), st);
    }
  }

  // ---- Main results

  /** The scanner for the value's own kind of bracket returns the last position of the printed
      value, whatever comes after it. */
  lemma FindsPrintedEnd(v: Value, style: Style, level: nat, trailing: string)
    requires Blank(style) && Printable(v) && (v.Object? || v.Array?)
    ensures var (open, close) := if v.Object? then ('{', '}') else ('[', ']');
            FindFrom(open, close, FRESH, Print(v, style, level) + trailing) == Some(|Print(v, style, level)| - 1)
  {
    var (open, close) := if v.Object? then ('{', '}') else ('[', ']');
    var inner := Inner(v, style, level);
    InnerPasses(open, close, 1, v, style, level);
    PassesOne(open, close, FRESH, open);
    PassesConcat(open, close, FRESH, [open], Outside(1), inner, Outside(1));
    PassesFind(open, close, FRESH, [open] + inner, Outside(1), [close] + trailing);
    assert Print(v, style, level) + trailing == ([open] + inner) + ([close] + trailing);
  }

  lemma {:induction false} FindChar(prefix: string, c: char, rest: string)
    requires c !in prefix
    ensures StructuredOutput.Find(prefix + [c] + rest, [c]) == Some(|prefix|)
  {
    var s := prefix + [c] + rest;
    if prefix == [] {
      assert [c] <= s;
    } else {
      assert s[0] == prefix[0] && s[1..] == prefix[1..] + [c] + rest;
      FindChar(prefix[1..], c, rest);
    }
  }

  lemma BracketedAt(parse: Parser, prefix: string, text: string, trailing: string, open: char, close: char)
    requires open !in prefix && text != [] && text[0] == open
    requires FindFrom(open, close, FRESH, text + trailing) == Some(|text| - 1)
    ensures Bracketed(parse, prefix + text + trailing, open, close) == parse(text)
  {
    hide FindFrom;
    var content, after := prefix + text + trailing, text[1..] + trailing;
    assert content == prefix + [open] + after;
    FindChar(prefix, open, after);
    assert content[|prefix|..] == text + trailing;
    assert (text + trailing)[..|text|] == text;
  }

  /** The slice between the first bracket of the value's kind and its match is the printed value. */
  lemma BracketedIsPrinted(parse: Parser, prefix: string, v: Value, style: Style, level: nat, trailing: string)
    requires Blank(style) && Printable(v) && (v.Object? || v.Array?)
    requires (if v.Object? then '{' else '[') !in prefix
    ensures var (open, close) := if v.Object? then ('{', '}') else ('[', ']');
            Bracketed(parse, prefix + Print(v, style, level) + trailing, open, close) == parse(Print(v, style, level))
  {
    hide FindFrom, Bracketed;
    var (open, close) := if v.Object? then ('{', '}') else ('[', ']');
    FindsPrintedEnd(v, style, level, trailing);
    BracketedAt(parse, prefix, Print(v, style, level), trailing, open, close);
  }

  /** An object embedded in an answer is extracted whole, if no brace comes before it and no json
      fence preempts it. */
  lemma ExtractsEmbeddedObject(parse: Parser, prefix: string, v: Value, style: Style, level: nat, trailing: string)
    requires Blank(style) && Printable(v) && v.Object? && '{' !in prefix
    requires parse(Print(v, style, level)) == Some(v)
    requires var content := prefix + Print(v, style, level) + trailing; parse(content).None? && Fenced(content).None?
    ensures Extracted(parse, prefix + Print(v, style, level) + trailing) == Ok(v)
  {
    BracketedIsPrinted(parse, prefix, v, style, level, trailing);
  }

  /** An embedded array is extracted whole exactly when the text from the first opening brace to
      its match does not parse, or parses to that same array. */
  lemma ExtractsEmbeddedArrayExactly(parse: Parser, prefix: string, v: Value, style: Style, level: nat,
      trailing: string)
    requires Blank(style) && Printable(v) && v.Array? && '[' !in prefix
    requires parse(Print(v, style, level)) == Some(v)
    requires var content := prefix + Print(v, style, level) + trailing; parse(content).None? && Fenced(content).None?
    ensures var content := prefix + Print(v, style, level) + trailing;
            Extracted(parse, content) == Ok(v)
            <==> Bracketed(parse, content, '{', '}').None? || Bracketed(parse, content, '{', '}') == Some(v)
  {
    BracketedIsPrinted(parse, prefix, v, style, level, trailing);
  }

  lemma {:induction false} FindNoChar(s: string, c: char)
    requires c !in s
    ensures StructuredOutput.Find(s, [c]) == None
  {
    if s != [] {
      assert s[0] in s && [c][0] == c;
      FindNoChar(s[1..], c);
    }
  }

  /** So it is when no brace occurs ... */
  lemma ExtractsArrayWithoutBraces(parse: Parser, prefix: string, v: Value, style: Style, level: nat, trailing: string)
    requires Blank(style) && Printable(v) && v.Array? && '[' !in prefix
    requires parse(Print(v, style, level)) == Some(v)
    requires var content := prefix + Print(v, style, level) + trailing;
             parse(content).None? && Fenced(content).None? && '{' !in content
    ensures Extracted(parse, prefix + Print(v, style, level) + trailing) == Ok(v)
  {
    FindNoChar(prefix + Print(v, style, level) + trailing, '{');
    ExtractsEmbeddedArrayExactly(parse, prefix, v, style, level, trailing);
  }

  /** ... but of an array that starts with an object only that object is extracted. */
  lemma ArrayOfObjectsLosesRest(parse: Parser, prefix: string, items: seq<Value>, style: Style, level: nat,
      trailing: string)
    requires Blank(style) && Printable(Array(items)) && items != [] && items[0].Object? && '{' !in prefix
    requires parse(Print(items[0], style, level + 1)) == Some(items[0])
    requires var content := prefix + Print(Array(items), style, level) + trailing;
             parse(content).None? && Fenced(content).None?
    ensures Extracted(parse, prefix + Print(Array(items), style, level) + trailing) == Ok(items[0])
  {
    hide Extracted, Bracketed, Fenced;
    var first, line := Print(items[0], style, level + 1), style.line(level + 1);
    var comma := if |items| == 1 then [] else [','];
    var others, end := PrintItems(items[1..], style, level + 1), style.line(level);
    ArrayText(items, style, level);
    Regroup(prefix, line, first, comma + others + end, trailing);
    ExtractsEmbeddedObject(parse, prefix + ['['] + line, items[0], style, level + 1,
                           comma + others + end + [']'] + trailing);
  }

  lemma ArrayText(items: seq<Value>, style: Style, level: nat)
    requires items != []
    ensures var comma := if |items| == 1 then [] else [','];
            Print(Array(items), style, level)
            == ['['] + (style.line(level + 1) + Print(items[0], style, level + 1)
                        + (comma + PrintItems(items[1..], style, level + 1) + style.line(level))) + [']']
  {
    var line, first := style.line(level + 1), Print(items[0], style, level + 1);
    var comma := if |items| == 1 then [] else [','];
    var others := PrintItems(items[1..], style, level + 1);
    assert Inner(Array(items), style, level) == line + first + comma + others + style.line(level);
    assert line + first + comma + others + style.line(level) == line + first + (comma + others + style.line(level));
  }

  lemma Regroup(prefix: string, line: string, first: string, rest: string, trailing: string)
    ensures prefix + (['['] + (line + first + rest) + [']']) + trailing
            == (prefix + ['['] + line) + first + (rest + [']'] + trailing)
  {
  }
}
