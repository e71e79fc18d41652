/** Which part of an answer is handed to the JSON parser, said of positions in the answer. */
module Extraction {
  import opened Wrappers
  import opened Strings
  import opened StructuredOutput
  import Json

  // ---- First occurrences

  ghost predicate Occurs(s: string, pattern: string, i: nat) {
    i + |pattern| <= |s| && s[i..i + |pattern|] == pattern
  }

  ghost predicate FirstAt(s: string, pattern: string, i: nat) {
    Occurs(s, pattern, i) && forall k: nat :: k < i ==> !Occurs(s, pattern, k)
  }

  lemma OccursTail(s: string, pattern: string, i: nat)
    requires s != []
    ensures Occurs(s, pattern, i + 1) <==> Occurs(s[1..], pattern, i)
    ensures pattern <= s <==> Occurs(s, pattern, 0)
  {
    if i + 1 + |pattern| <= |s| {
      assert s[1..][i..i + |pattern|] == s[i + 1..i + 1 + |pattern|];
    }
  }

  lemma FirstAtTail(s: string, pattern: string, i: nat)
    requires s != [] && !Occurs(s, pattern, 0)
    ensures FirstAt(s, pattern, i + 1) <==> FirstAt(s[1..], pattern, i)
  {
    hide Occurs;
    forall k: nat
      ensures Occurs(s, pattern, k + 1) <==> Occurs(s[1..], pattern, k)
    {
      OccursTail(s, pattern, k);
    }
    if FirstAt(s[1..], pattern, i) {
      forall k: nat | k < i + 1
        ensures !Occurs(s, pattern, k)
      {
        if k > 0 {
          assert !Occurs(s[1..], pattern, k - 1);
        }
      }
    }
    if FirstAt(s, pattern, i + 1) {
      forall k: nat | k < i
        ensures !Occurs(s[1..], pattern, k)
      {
        assert !Occurs(s, pattern, k + 1);
      }
    }
  }

  /** The search returns the first occurrence, and nothing exactly if there is none. */
  lemma {:induction false} FindMeaning(s: string, pattern: string, i: nat)
    ensures Find(s, pattern) == Some(i) <==> FirstAt(s, pattern, i)
  {
    if s == [] {
      assert Find(s, pattern) == if pattern <= s then Some(0) else None;
    } else {
      OccursTail(s, pattern, 0);
      if pattern <= s {
        assert Occurs(s, pattern, 0);
      } else if i > 0 {
        FirstAtTail(s, pattern, i - 1);
        FindMeaning(s[1..], pattern, i - 1);
      }
    }
  }

  // ---- Text as code and string literals

  /** What may stand between the quotes of a literal: no bare quote, no backslash left over. */
  ghost predicate Escaped(body: string) {
    body != [] ==>
      if body[0] == '\\' then |body| >= 2 && Escaped(body[2..]) else body[0] != '"' && Escaped(body[1..])
  }

  datatype Piece = Code(text: string) | Literal(body: string)

  ghost predicate IsPiece(p: Piece) {
    match p
    case Code(text) => '"' !in text
    case Literal(body) => Escaped(body)
  }

  ghost function PieceText(p: Piece): string {
    match p
    case Code(text) => text
    case Literal(body) => ['"'] + body + ['"']
  }

  ghost function TextOf(pieces: seq<Piece>): string {
    if pieces == [] then [] else PieceText(pieces[0]) + TextOf(pieces[1..])
  }

  ghost function Occurrences(c: char, text: string): nat {
    if text == [] then 0 else (if text[0] == c then 1 else 0) + Occurrences(c, text[1..])
  }

  /** How many brackets are open after the pieces; those in literals do not count. */
  ghost function Depth(open: char, close: char, pieces: seq<Piece>): int {
    if pieces == [] then 0 else PieceDepth(open, close, pieces[0]) + Depth(open, close, pieces[1..])
  }

  ghost function PieceDepth(open: char, close: char, p: Piece): int {
    if p.Code? then Occurrences(open, p.text) - Occurrences(close, p.text) else 0
  }

  /** Nothing, or a literal that is not closed yet. */
  ghost predicate Unfinished(rest: string) {
    rest != [] ==> rest[0] == '"' && (Escaped(rest[1..]) || (rest[|rest| - 1] == '\\' && Escaped(rest[1..|rest| - 1])))
  }

  ghost predicate Brackets(open: char, close: char) {
    open != close && open !in "\"\\" && close !in "\"\\"
  }

  lemma {:induction false} ScanCode(open: char, close: char, depth: int, text: string)
    requires Brackets(open, close) && '"' !in text
    ensures ScanAll(open, close, Scan(depth, false, false), text)
            == Scan(depth + Occurrences(open, text) - Occurrences(close, text), false, false)
    decreases |text|
  {
    if text != [] {
      assert text[0] in text;
      var next := ScanChar(open, close, Scan(depth, false, false), text[0]);
      ScanCode(open, close, next.depth, text[1..]);
    }
  }

  lemma {:induction false} ScanEscaped(open: char, close: char, depth: int, body: string)
    requires Escaped(body)
    ensures ScanAll(open, close, Scan(depth, true, false), body) == Scan(depth, true, false)
    decreases |body|
  {
    if body != [] {
      if body[0] == '\\' {
        assert body[1..][1..] == body[2..];
        assert ScanAll(open, close, Scan(depth, true, false), body)
            == ScanAll(open, close, Scan(depth, true, true), body[1..])
            == ScanAll(open, close, Scan(depth, true, false), body[2..]);
        ScanEscaped(open, close, depth, body[2..]);
      } else {
        ScanEscaped(open, close, depth, body[1..]);
      }
    }
  }

  lemma {:induction false} ScanConcat(open: char, close: char, st: Scan, a: string, b: string)
    ensures ScanAll(open, close, st, a + b) == ScanAll(open, close, ScanAll(open, close, st, a), b)
    decreases |a|
  {
    if a == [] {
      assert a + b == b;
    } else {
      assert (a + b)[1..] == a[1..] + b;
      ScanConcat(open, close, ScanChar(open, close, st, a[0]), a[1..], b);
    }
  }

  lemma ScanOne(open: char, close: char, st: Scan, c: char)
    ensures ScanAll(open, close, st, [c]) == ScanChar(open, close, st, c)
  {
    assert [c][1..] == [];
  }

  lemma ScanLiteral(open: char, close: char, depth: int, body: string)
    requires Brackets(open, close) && Escaped(body)
    ensures ScanAll(open, close, Scan(depth, false, false), ['"'] + body) == Scan(depth, true, false)
    ensures ScanAll(open, close, Scan(depth, false, false), ['"'] + body + ['"']) == Scan(depth, false, false)
  {
    ScanOne(open, close, Scan(depth, false, false), '"');
    ScanConcat(open, close, Scan(depth, false, false), ['"'], body);
    ScanEscaped(open, close, depth, body);
    ScanConcat(open, close, Scan(depth, false, false), ['"'] + body, ['"']);
    ScanOne(open, close, Scan(depth, true, false), '"');
  }

  lemma ScanPiece(open: char, close: char, depth: int, p: Piece)
    requires Brackets(open, close) && IsPiece(p)
    ensures ScanAll(open, close, Scan(depth, false, false), PieceText(p))
            == Scan(depth + PieceDepth(open, close, p), false, false)
  {
    hide ScanAll, Escaped, Occurrences;
    match p {
      case Code(text) => ScanCode(open, close, depth, text);
      case Literal(body) => ScanLiteral(open, close, depth, body);
    }
  }

  lemma {:induction false} ScanPieces(open: char, close: char, depth: int, pieces: seq<Piece>)
    requires Brackets(open, close) && forall p :: p in pieces ==> IsPiece(p)
    ensures ScanAll(open, close, Scan(depth, false, false), TextOf(pieces))
            == Scan(depth + Depth(open, close, pieces), false, false)
    decreases |pieces|
  {
    hide IsPiece, PieceText, PieceDepth, Brackets, ScanChar;
    if pieces != [] {
      assert pieces[0] in pieces;
      ScanPiece(open, close, depth, pieces[0]);
      ScanConcat(open, close, Scan(depth, false, false), PieceText(pieces[0]), TextOf(pieces[1..]));
      ScanPieces(open, close, depth + PieceDepth(open, close, pieces[0]), pieces[1..]);
    }
  }

  lemma ScanUnfinished(open: char, close: char, depth: int, rest: string)
    requires Brackets(open, close) && rest != [] && Unfinished(rest)
    ensures ScanAll(open, close, Scan(depth, false, false), rest).inString
  {
    if Escaped(rest[1..]) {
      assert rest == ['"'] + rest[1..];
      ScanLiteral(open, close, depth, rest[1..]);
    } else {
      var front := rest[..|rest| - 1];
      assert front[1..] == rest[1..|rest| - 1] && front == ['"'] + front[1..] && rest == front + ['\\'];
      ScanLiteral(open, close, depth, front[1..]);
      ScanConcat(open, close, Scan(depth, false, false), front, ['\\']);
      ScanOne(open, close, Scan(depth, true, false), '\\');
    }
  }

  lemma {:induction false} EscapedConcat(a: string, b: string)
    requires Escaped(a) && Escaped(b)
    ensures Escaped(a + b)
    decreases |a|
  {
    if a == [] {
      assert a + b == b;
    } else if a[0] == '\\' {
      assert (a + b)[2..] == a[2..] + b;
      EscapedConcat(a[2..], b);
    } else {
      assert (a + b)[1..] == a[1..] + b;
      EscapedConcat(a[1..], b);
    }
  }

  lemma {:induction false} TextOfSnoc(pieces: seq<Piece>, p: Piece)
    ensures TextOf(pieces + [p]) == TextOf(pieces) + PieceText(p)
  {
    if pieces == [] {
      assert [] + [p] == [p] && [p][1..] == [];
    } else {
      assert (pieces + [p])[1..] == pieces[1..] + [p];
      TextOfSnoc(pieces[1..], p);
    }
  }

  /** Every text is code and literals, and perhaps a literal that is not closed. */
  lemma {:induction false} Pieces(s: string) returns (pieces: seq<Piece>, rest: string)
    ensures s == TextOf(pieces) + rest && Unfinished(rest)
    ensures forall p :: p in pieces ==> IsPiece(p)
    decreases |s|
  {
    if s == [] {
      pieces, rest := [], [];
    } else {
      var front, c := s[..|s| - 1], s[|s| - 1];
      assert s == front + [c];
      pieces, rest := Pieces(front);
      if rest == [] {
        if c == '"' {
          rest := [c];
        } else {
          TextOfSnoc(pieces, Code([c]));
          pieces := pieces + [Code([c])];
        }
      } else {
        var was := pieces;
        pieces, rest := OneMore(pieces, rest, c);
        assert TextOf(was) + (front[|TextOf(was)|..] + [c]) == s;
      }
    }
  }

  /** A character that does not close the literal keeps it unfinished. */
  lemma StaysUnfinished(rest: string, c: char)
    requires rest != [] && Unfinished(rest) && (c == '"' ==> !Escaped(rest[1..]))
    ensures Unfinished(rest + [c])
  {
    var body, longer := rest[1..], rest + [c];
    assert longer[1..] == body + [c] && longer[1..|longer| - 1] == body;
    if !Escaped(body) {
      var front := rest[1..|rest| - 1];
      assert body == front + ['\\'] && ['\\', c][2..] == [];
      EscapedConcat(front, ['\\', c]);
      assert front + ['\\', c] == body + [c];
    } else if c != '\\' {
      assert [c][1..] == [];
      EscapedConcat(body, [c]);
    }
  }

  lemma OneMore(pieces: seq<Piece>, rest: string, c: char) returns (pieces': seq<Piece>, rest': string)
    requires rest != [] && Unfinished(rest) && forall p :: p in pieces ==> IsPiece(p)
    ensures TextOf(pieces') + rest' == TextOf(pieces) + (rest + [c])
    ensures Unfinished(rest') && forall p :: p in pieces' ==> IsPiece(p)
  {
    hide Escaped, TextOf;
    var body := rest[1..];
    if c == '"' && Escaped(body) {
      TextOfSnoc(pieces, Literal(body));
      pieces', rest' := pieces + [Literal(body)], [];
      assert ['"'] + body + ['"'] == rest + [c];
    } else {
      pieces', rest' := pieces, rest + [c];
      StaysUnfinished(rest, c);
    }
  }

  /** A position ends the search exactly if a closing bracket stands there, outside literals, with
      one bracket open before it. */
  lemma EndMeaning(open: char, close: char, s: string, i: nat) returns (pieces: seq<Piece>, rest: string)
    requires Brackets(open, close) && i < |s|
    ensures s[..i] == TextOf(pieces) + rest && Unfinished(rest) && forall p :: p in pieces ==> IsPiece(p)
    ensures IsEnd(open, close, s, i) <==> rest == [] && s[i] == close && Depth(open, close, pieces) == 1
  {
    pieces, rest := Pieces(s[..i]);
    ScanPieces(open, close, 0, pieces);
    ScanConcat(open, close, FRESH, TextOf(pieces), rest);
    if rest != [] {
      ScanUnfinished(open, close, Depth(open, close, pieces), rest);
    }
  }

  // ---- What is parsed

  /** `body` stands between the first json fence and the next fence after it. */
  ghost predicate IsFenced(content: string, body: string) {
    exists i: nat, j: nat :: FencedAt(content, body, i, j)
  }

  ghost predicate FencedAt(content: string, body: string, i: nat, j: nat) {
    FirstAt(content, "```json", i) && FirstAt(content[i + 7..], "```", j) && body == content[i + 7..][..j]
  }

  /** `text` reaches from the first `open` to the least position where the depth outside strings
      returns to zero. */
  ghost predicate IsBracketed(content: string, open: char, close: char, text: string) {
    exists i: nat, n: nat :: BracketedAt(content, open, close, text, i, n)
  }

  ghost predicate BracketedAt(content: string, open: char, close: char, text: string, i: nat, n: nat) {
    && FirstAt(content, [open], i) && n < |content[i..]| && IsEnd(open, close, content[i..], n)
    && (forall k: nat :: k < n ==> !IsEnd(open, close, content[i..], k))
    && text == content[i..][..n + 1]
  }

  lemma FencedMeaning(content: string)
    ensures Fenced(content).None? <==> forall body :: !IsFenced(content, body)
    ensures forall body :: IsFenced(content, body) ==> Fenced(content) == Some(Trim(body))
  {
    hide Find, FirstAt, Trim;
    forall body, i: nat, j: nat | FencedAt(content, body, i, j)
      ensures Fenced(content) == Some(Trim(body))
    {
      FindMeaning(content, "```json", i);
      FindMeaning(content[i + 7..], "```", j);
    }
    if Fenced(content).Some? {
      var i := Find(content, "```json").value;
      FindMeaning(content, "```json", i);
      var j := Find(content[i + 7..], "```").value;
      FindMeaning(content[i + 7..], "```", j);
      var body := content[i + 7..][..j];
      assert FencedAt(content, body, i, j);
      assert IsFenced(content, body);
    }
  }

  lemma BracketedMeaning(parse: Parser, content: string, open: char, close: char, v: Json.Value)
    ensures Bracketed(parse, content, open, close) == Some(v)
            <==> exists text :: IsBracketed(content, open, close, text) && parse(text) == Some(v)
  {
    hide Find, FindFrom, FirstAt, IsEnd;
    forall text, i: nat, n: nat | BracketedAt(content, open, close, text, i, n)
      ensures Bracketed(parse, content, open, close) == parse(text)
    {
      FindMeaning(content, [open], i);
      FindIsLeastEnd(open, close, content[i..]);
    }
    if Bracketed(parse, content, open, close) == Some(v) {
      var i := Find(content, [open]).value;
      FindMeaning(content, [open], i);
      FindIsLeastEnd(open, close, content[i..]);
      var n := FindFrom(open, close, FRESH, content[i..]).value;
      assert BracketedAt(content, open, close, content[i..][..n + 1], i, n);
    }
  }

  ghost predicate Yields(parse: Parser, content: string, open: char, close: char, v: Json.Value) {
    exists text :: IsBracketed(content, open, close, text) && parse(text) == Some(v)
  }

  /** The whole answer if it parses; else the fenced part, which must parse; else the braces; else
      the brackets; else nothing is found. */
  lemma ExtractedExactly(parse: Parser, content: string)
    ensures var r := Extracted(parse, content);
            && (parse(content).Some? ==> r == Ok(parse(content).value))
            && (parse(content).None? ==>
                 && (forall body :: IsFenced(content, body) ==>
                       r == match parse(Trim(body)) case Some(v) => Ok(v) case None => Err(ParseError))
                 && ((forall body :: !IsFenced(content, body)) ==>
                       && (forall v :: Yields(parse, content, '{', '}', v) ==> r == Ok(v))
                       && ((forall v :: !Yields(parse, content, '{', '}', v)) ==>
                             && (forall v :: Yields(parse, content, '[', ']', v) ==> r == Ok(v))
                             && ((forall v :: !Yields(parse, content, '[', ']', v)) ==> r == Err(NotFound)))))
  {
    hide Bracketed, Fenced, IsFenced, IsBracketed, Trim;
    FencedMeaning(content);
    forall v
      ensures Bracketed(parse, content, '{', '}') == Some(v) <==> Yields(parse, content, '{', '}', v)
      ensures Bracketed(parse, content, '[', ']') == Some(v) <==> Yields(parse, content, '[', ']', v)
    {
      BracketedMeaning(parse, content, '{', '}', v);
      BracketedMeaning(parse, content, '[', ']', v);
    }
  }
}
