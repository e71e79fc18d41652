/** Extracting a JSON value from an agent's answer. Positions count characters. */
module StructuredOutput {
  import opened Wrappers
  import opened Strings
  import Json

  // ---- The bracket scanner

  datatype Scan = Scan(depth: int, inString: bool, escapeNext: bool)

  const FRESH: Scan := Scan(0, false, false)

  /** The scanner's variables after one character. */
  function ScanChar(open: char, close: char, st: Scan, c: char): Scan {
    if st.escapeNext then st.(escapeNext := false)
    else if c == '\\' && st.inString then st.(escapeNext := true)
    else if c == '"' then st.(inString := !st.inString)
    else if st.inString then st
    else if c == open then st.(depth := st.depth + 1)
    else if c == close then st.(depth := st.depth - 1)
    else st
  }

  /** A closing bracket outside strings that brings the depth back to zero. */
  predicate EndsAt(open: char, close: char, st: Scan, c: char) {
    && !st.escapeNext && !st.inString && c != '"' && c != open && c == close
    && st.depth == 1
  }

  function ScanAll(open: char, close: char, st: Scan, s: string): Scan
    decreases |s|
  {
    if s == [] then st else ScanAll(open, close, ScanChar(open, close, st, s[0]), s[1..])
  }

  /** The scanner stands before position `i`. */
  predicate IsEnd(open: char, close: char, s: string, i: nat)
    requires i < |s|
  {
    EndsAt(open, close, ScanAll(open, close, FRESH, s[..i]), s[i])
  }

  /** The least end, looking from a state on. */
  function FindFrom(open: char, close: char, st: Scan, s: string): Option<nat>
    decreases |s|
  {
    if s == [] then None
    else if EndsAt(open, close, st, s[0]) then Some(0)
    else Shift(FindFrom(open, close, ScanChar(open, close, st, s[0]), s[1..]), 1)
  }

  function Shift(o: Option<nat>, n: nat): Option<nat> {
    if o.Some? then Some(o.value + n) else None
  }

  method FindMatchingBracket(s: string, open: char, close: char) returns (end: Option<nat>)
    ensures end == FindFrom(open, close, FRESH, s)
  {
    var depth := 0;
    var inString := false;
    var escapeNext := false;
    var i := 0;
    while i < |s|
      invariant 0 <= i <= |s|
      invariant FindFrom(open, close, FRESH, s)
             == Shift(FindFrom(open, close, Scan(depth, inString, escapeNext), s[i..]), i)
    {
      var c := s[i];
      assert s[i..][0] == c && s[i..][1..] == s[i + 1..];
      i := i + 1;
      if escapeNext {
        escapeNext := false;
        continue;
      }
      if c == '\\' && inString {
        escapeNext := true;
      } else if c == '"' {
        inString := !inString;
      } else if inString {
      } else if c == open {
        depth := depth + 1;
      } else if c == close {
        depth := depth - 1;
        if depth == 0 {
          return Some(i - 1);
        }
      }
    }
    end := None;
  }

  lemma {:induction false} ScanAllSnoc(open: char, close: char, st: Scan, s: string, c: char)
    ensures ScanAll(open, close, st, s + [c]) == ScanChar(open, close, ScanAll(open, close, st, s), c)
    decreases |s|
  {
    if s == [] {
      assert ([] + [c])[1..] == [];
    } else {
      assert (s + [c])[1..] == s[1..] + [c];
      ScanAllSnoc(open, close, ScanChar(open, close, st, s[0]), s[1..], c);
    }
  }

  lemma {:induction false} FindFromMeaning(open: char, close: char, s: string, i: nat)
    requires i <= |s|
    requires forall k: nat :: k < i ==> !IsEnd(open, close, s, k)
    ensures var r := FindFrom(open, close, ScanAll(open, close, FRESH, s[..i]), s[i..]);
            if r.None? then forall k: nat :: k < |s| ==> !IsEnd(open, close, s, k)
            else
              && r.value + i < |s| && IsEnd(open, close, s, r.value + i)
              && forall k: nat :: k < r.value + i ==> !IsEnd(open, close, s, k)
    decreases |s| - i
  {
    if i < |s| {
      assert s[i..][0] == s[i] && s[i..][1..] == s[i + 1..];
      if !IsEnd(open, close, s, i) {
        assert s[..i + 1] == s[..i] + [s[i]];
        ScanAllSnoc(open, close, FRESH, s[..i], s[i]);
        FindFromMeaning(open, close, s, i + 1);
      }
    }
  }

  /** The scanner returns the least position where the depth outside strings returns to zero, and
      nothing when there is none. */
  lemma FindIsLeastEnd(open: char, close: char, s: string)
    ensures var r := FindFrom(open, close, FRESH, s);
            if r.None? then forall k: nat :: k < |s| ==> !IsEnd(open, close, s, k)
            else
              && r.value < |s| && IsEnd(open, close, s, r.value)
              && forall k: nat :: k < r.value ==> !IsEnd(open, close, s, k)
  {
    FindFromMeaning(open, close, s, 0);
    assert s[..0] == [] && s[0..] == s;
  }

  // ---- Extraction

  datatype ExtractError = NotFound | ParseError

  /** A JSON parser; nothing is known of it but what it answers. */
  type Parser = string -> Option<Json.Value>

  /** The first position where `pattern` occurs. */
  function Find(s: string, pattern: string): (r: Option<nat>)
    ensures r.Some? ==> r.value + |pattern| <= |s| && s[r.value..][..|pattern|] == pattern
  {
    if pattern <= s then Some(0)
    else if s == [] then None
    else
      var r := Find(s[1..], pattern);
      if r.None? then None else assert s[r.value + 1..] == s[1..][r.value..]; Some(r.value + 1)
  }

  /** The value in the slice from the first `open` to its matching `close`. */
  function Bracketed(parse: Parser, content: string, open: char, close: char): Option<Json.Value> {
    match Find(content, [open])
    case None => None
    case Some(start) =>
      var end := FindFrom(open, close, FRESH, content[start..]);
      if end.None? || end.value >= |content[start..]| then None else parse(content[start..][..end.value + 1])
  }

  /** The text between a json fence and the next fence. */
  function Fenced(content: string): Option<string> {
    match Find(content, "```json")
    case None => None
    case Some(start) =>
      var rest := content[start + 7..];
      var end := Find(rest, "```");
      if end.None? then None else Some(Trim(rest[..end.value]))
  }

  function Extracted(parse: Parser, content: string): Result<Json.Value, ExtractError> {
    if parse(content).Some? then Ok(parse(content).value)
    else if Fenced(content).Some? then
      var v := parse(Fenced(content).value);
      if v.Some? then Ok(v.value) else Err(ParseError)
    else if Bracketed(parse, content, '{', '}').Some? then Ok(Bracketed(parse, content, '{', '}').value)
    else if Bracketed(parse, content, '[', ']').Some? then Ok(Bracketed(parse, content, '[', ']').value)
    else Err(NotFound)
  }

  method ExtractJson(parse: Parser, content: string) returns (r: Result<Json.Value, ExtractError>)
    ensures r == Extracted(parse, content)
  {
    hide FindFrom, Find, Trim, IsEnd;
    var whole := parse(content);
    if whole.Some? {
      return Ok(whole.value);
    }
    var fence := Find(content, "```json");
    if fence.Some? {
      var jsonStart := fence.value + 7;
      var end := Find(content[jsonStart..], "```");
      if end.Some? {
        var v := parse(Trim(content[jsonStart..][..end.value]));
        return if v.Some? then Ok(v.value) else Err(ParseError);
      }
    }
    var brackets := [('{', '}'), ('[', ']')];
    assert brackets[0] == ('{', '}') && brackets[1] == ('[', ']');
    var i := 0;
    while i < |brackets|
      invariant 0 <= i <= |brackets|
      invariant forall k :: 0 <= k < i ==> Bracketed(parse, content, brackets[k].0, brackets[k].1).None?
    {
      var (open, close) := brackets[i];
      var start := Find(content, [open]);
      if start.Some? {
        var substr := content[start.value..];
        var end := FindMatchingBracket(substr, open, close);
        FindIsLeastEnd(open, close, substr);
        if end.Some? {
          var v := parse(substr[..end.value + 1]);
          if v.Some? {
            assert Bracketed(parse, content, open, close) == v;
            assert i == 0 || Bracketed(parse, content, brackets[0].0, brackets[0].1).None?;
            return Ok(v.value);
          }
        }
      }
      i := i + 1;
    }
    r := Err(NotFound);
  }
}
