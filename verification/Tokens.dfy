/** The token estimator: counters over the characters of a text, and what concatenation does to
    the estimate. */
module Tokens {
  import opened Strings

  predicate InRange(c: char, low: int, high: int) {
    low <= c as int <= high
  }

  predicate IsCjk(c: char) {
    || InRange(c, 0x4E00, 0x9FFF) || InRange(c, 0x3400, 0x4DBF) || InRange(c, 0x20000, 0x2A6DF)
    || InRange(c, 0x2A700, 0x2B73F) || InRange(c, 0x2B740, 0x2B81F) || InRange(c, 0xF900, 0xFAFF)
    || InRange(c, 0x2F800, 0x2FA1F) || InRange(c, 0x3000, 0x303F) || InRange(c, 0x3040, 0x309F)
    || InRange(c, 0x30A0, 0x30FF) || InRange(c, 0xAC00, 0xD7AF)
  }

  predicate IsPunctuation(c: char) {
    || InRange(c, 0x21, 0x2F) || InRange(c, 0x3A, 0x40) || InRange(c, 0x5B, 0x60) || InRange(c, 0x7B, 0x7E)
    || c as int in {0x201C, 0x201D, 0x2018, 0x2019, 0x2026, 0x2013, 0x2014, 0xAB, 0xBB, 0xB7, 0x2022, 0x203B,
                    0x2192, 0x2190, 0x21D2, 0x2194}
  }

  datatype Kind = Space | Cjk | Punctuation | Latin

  function KindOf(c: char): Kind {
    if IsWhitespace(c) then Space
    else if IsCjk(c) then Cjk
    else if IsPunctuation(c) then Punctuation
    else Latin
  }

  /** Ideographic space, though among the CJK symbols, is whitespace. The ASCII punctuation is what is
      printable and neither a letter nor a digit. */
  lemma KindMeaning(c: char)
    ensures KindOf(c) == Cjk
            <==> c as int != 0x3000
                 && (|| 0x3000 <= c as int <= 0x30FF || 0x3400 <= c as int <= 0x4DBF || 0x4E00 <= c as int <= 0x9FFF
                     || 0xAC00 <= c as int <= 0xD7AF || 0xF900 <= c as int <= 0xFAFF || 0x20000 <= c as int <= 0x2A6DF
                     || 0x2A700 <= c as int <= 0x2B81F || 0x2F800 <= c as int <= 0x2FA1F)
    ensures c as int < 0x80 ==>
              (KindOf(c) == Punctuation
               <==> ' ' < c <= '~' && !('0' <= c <= '9') && !('A' <= c <= 'Z') && !('a' <= c <= 'z'))
    ensures KindOf(c) == Space <==> IsWhitespace(c)
  {
  }

  ghost function Count(s: string, kind: Kind): nat {
    if s == [] then 0
    else Count(s[..|s| - 1], kind) + (if KindOf(s[|s| - 1]) == kind then 1 else 0)
  }

  ghost predicate StartsWord(s: string, i: nat)
    requires i < |s|
  {
    !KindOf(s[i]).Space? && (i == 0 || KindOf(s[i - 1]).Space?)
  }

  /** The positions where a maximal run of non-whitespace starts. */
  ghost function WordStarts(s: string): set<nat> {
    set i: nat | i < |s| && StartsWord(s, i)
  }

  ghost function Words(s: string): nat {
    |WordStarts(s)|
  }

  ghost predicate EndsInWord(s: string) {
    s != [] && !KindOf(s[|s| - 1]).Space?
  }

  function DivCeil(n: nat, d: nat): nat
    requires d > 0
  {
    (n + d - 1) / d
  }

  ghost function Estimated(s: string): nat {
    Count(s, Cjk) + DivCeil(Count(s, Punctuation) * 3, 2) + DivCeil(Count(s, Latin), 4) + Words(s) / 8
  }

  method Estimate(text: string) returns (tokens: nat)
    ensures tokens == Estimated(text)
  {
    if text == [] {
      return 0;
    }
    var cjk, latin, punctuation, words := 0, 0, 0, 0;
    var inWord := false;
    var i := 0;
    while i < |text|
      invariant 0 <= i <= |text|
      invariant cjk == Count(text[..i], Cjk) && punctuation == Count(text[..i], Punctuation)
          && latin == Count(text[..i], Latin)
      invariant inWord == EndsInWord(text[..i])
      invariant words + (if inWord then 1 else 0) == Words(text[..i])
    {
      var c := text[i];
      assert text[..i + 1] == text[..i] + [c];
      CountSnoc(text[..i], c);
      WordsSnoc(text[..i], c);
      if IsWhitespace(c) {
        if inWord {
          words := words + 1;
          inWord := false;
        }
      } else {
        inWord := true;
        if IsCjk(c) {
          cjk := cjk + 1;
        } else if IsPunctuation(c) {
          punctuation := punctuation + 1;
        } else {
          latin := latin + 1;
        }
      }
      i := i + 1;
    }
    if inWord {
      words := words + 1;
    }
    assert text[..i] == text;
    tokens := cjk + DivCeil(punctuation * 3, 2) + DivCeil(latin, 4) + words / 8;
  }

  lemma CountSnoc(s: string, c: char)
    ensures forall kind :: Count(s + [c], kind) == Count(s, kind) + (if KindOf(c) == kind then 1 else 0)
    ensures EndsInWord(s + [c]) == !KindOf(c).Space?
  {
    assert (s + [c])[..|s|] == s;
  }

  /** A character adds a word exactly when it starts one. */
  lemma WordsSnoc(s: string, c: char)
    ensures Words(s + [c]) == Words(s) + (if !KindOf(c).Space? && !EndsInWord(s) then 1 else 0)
  {
    var t := s + [c];
    assert forall i: nat :: i < |s| ==> StartsWord(t, i) == StartsWord(s, i);
    assert StartsWord(t, |s|) == (!KindOf(c).Space? && !EndsInWord(s));
    if !KindOf(c).Space? && !EndsInWord(s) {
      assert WordStarts(t) == WordStarts(s) + {|s|};
    } else {
      assert WordStarts(t) == WordStarts(s);
    }
  }

  // ---- Concatenation

  /** A word of the first text runs on into the second. */
  ghost predicate Joins(a: string, b: string) {
    EndsInWord(a) && b != [] && !KindOf(b[0]).Space?
  }

  lemma {:induction false} CountConcat(a: string, b: string, kind: Kind)
    ensures Count(a + b, kind) == Count(a, kind) + Count(b, kind)
    decreases |b|
  {
    if b == [] {
      assert a + b == a;
    } else {
      var front, c := b[..|b| - 1], b[|b| - 1];
      assert a + b == (a + front) + [c] && b == front + [c];
      CountSnoc(a + front, c);
      CountSnoc(front, c);
      CountConcat(a, front, kind);
    }
  }

  lemma {:induction false} WordsConcat(a: string, b: string)
    ensures Words(a + b) == Words(a) + Words(b) - (if Joins(a, b) then 1 else 0)
    decreases |b|
  {
    if b == [] {
      assert a + b == a;
    } else {
      var front, c := b[..|b| - 1], b[|b| - 1];
      assert a + b == (a + front) + [c] && b == front + [c];
      WordsSnoc(a + front, c);
      WordsSnoc(front, c);
      WordsConcat(a, front);
      if front == [] {
        assert a + front == a;
        assert Words([]) == 0 by { assert WordStarts([]) == {}; }
      } else {
        assert (a + front)[|a + front| - 1] == front[|front| - 1] && b[0] == front[0];
      }
    }
  }

  lemma CeilSum(x: nat, y: nat, d: nat)
    requires d == 2 || d == 4
    ensures DivCeil(x, d) + DivCeil(y, d) - 1 <= DivCeil(x + y, d) <= DivCeil(x, d) + DivCeil(y, d)
  {
  }

  lemma EighthSum(x: nat, y: nat, joined: nat)
    requires joined <= 1 && joined <= x + y
    ensures x / 8 + y / 8 - 1 <= (x + y - joined) / 8 <= x / 8 + y / 8 + 1
  {
  }

  /** The estimate of two texts run together is at most one token above the sum of theirs and at
      most three below it. */
  lemma EstimateConcat(a: string, b: string)
    ensures Estimated(a) + Estimated(b) - 3 <= Estimated(a + b) <= Estimated(a) + Estimated(b) + 1
  {
    hide DivCeil, Count, Words;
    CountConcat(a, b, Cjk);
    CountConcat(a, b, Punctuation);
    CountConcat(a, b, Latin);
    WordsConcat(a, b);
    CeilSum(Count(a, Punctuation) * 3, Count(b, Punctuation) * 3, 2);
    CeilSum(Count(a, Latin), Count(b, Latin), 4);
    EighthSum(Words(a), Words(b), if Joins(a, b) then 1 else 0);
  }

  // ---- Texts that attain the bounds

  /** The characters as one-character words, with spaces in between. */
  function Sentence(chars: string): string {
    if |chars| <= 1 then chars else Sentence(chars[..|chars| - 1]) + [' '] + [chars[|chars| - 1]]
  }

  lemma {:induction false} SentenceMeasures(chars: string)
    requires chars != [] && forall i :: 0 <= i < |chars| ==> !KindOf(chars[i]).Space?
    ensures var s := Sentence(chars);
            && (forall kind: Kind :: !kind.Space? ==> Count(s, kind) == Count(chars, kind))
            && Words(s) == |chars| && EndsInWord(s) && s != [] && s[0] == chars[0]
  {
    var front, last := chars[..|chars| - 1], chars[|chars| - 1];
    assert chars == front + [last];
    CountSnoc(front, last);
    if front == [] {
      WordsSnoc([], last);
      assert WordStarts([]) == {};
    } else {
      SentenceMeasures(front);
      CountSnoc(Sentence(front), ' ');
      WordsSnoc(Sentence(front), ' ');
      CountSnoc(Sentence(front) + [' '], last);
      WordsSnoc(Sentence(front) + [' '], last);
    }
  }

  lemma {:induction false} RepeatedCounts(c: char, n: nat)
    ensures var s := seq(n, _ => c); forall kind :: Count(s, kind) == if KindOf(c) == kind then n else 0
  {
    if n > 0 {
      assert seq(n, _ => c) == seq(n - 1, _ => c) + [c];
      RepeatedCounts(c, n - 1);
      CountSnoc(seq(n - 1, _ => c), c);
    }
  }

  const HAN: char := '\U{4E2D}'

  lemma Ceilings(n: nat)
    ensures DivCeil(n * 3, 2) == n + (n + 1) / 2 && DivCeil(n, 4) == (n + 3) / 4
    ensures DivCeil(0, 2) == 0 && DivCeil(0, 4) == 0
  {
  }

  /** What a run of one character costs, by its kind. */
  lemma RunEstimate(c: char, n: nat)
    requires n > 0
    ensures var s := seq(n, _ => c);
            Estimated(s) == match KindOf(c)
                            case Space => 0
                            case Cjk => n
                            case Punctuation => n + (n + 1) / 2
                            case Latin => (n + 3) / 4
  {
    hide Count, Words, DivCeil, KindOf;
    RepeatedCounts(c, n);
    RepeatedWords(c, n);
    Ceilings(n);
  }

  /** Every eighth word costs a token more. */
  lemma WordsEstimate(n: nat)
    requires n > 0
    ensures Estimated(Sentence(seq(n, _ => HAN))) == n + n / 8
  {
    hide Count, Words, Sentence, DivCeil;
    RepeatedCounts(HAN, n);
    SentenceMeasures(seq(n, _ => HAN));
    Ceilings(n);
  }

  lemma {:induction false} RepeatedWords(c: char, n: nat)
    ensures Words(seq(n, _ => c)) == (if n > 0 && !KindOf(c).Space? then 1 else 0)
  {
    if n == 0 {
      assert WordStarts(seq(0, _ => c)) == {};
    } else {
      var front := seq(n - 1, _ => c);
      assert seq(n, _ => c) == front + [c];
      RepeatedWords(c, n - 1);
      WordsSnoc(front, c);
    }
  }

  /** Eight words, one of them punctuation and one Latin, run on into eight such words. */
  lemma LowerBoundAttained()
    ensures var a := Sentence(seq(6, _ => HAN) + ['!'] + ['a']);
            Estimated(a + a) == Estimated(a) + Estimated(a) - 3
  {
    hide Count, Words, EndsInWord, Sentence;
    var chars := seq(6, _ => HAN);
    RepeatedCounts(HAN, 6);
    CountSnoc(chars, '!');
    CountSnoc(chars + ['!'], 'a');
    SentenceMeasures(chars + ['!'] + ['a']);
    DoubledEstimate(Sentence(chars + ['!'] + ['a']), 6, 1, 1, 8);
  }

  lemma DoubledEstimate(a: string, cjk: nat, punctuation: nat, latin: nat, words: nat)
    requires Count(a, Cjk) == cjk && Count(a, Punctuation) == punctuation && Count(a, Latin) == latin
    requires Words(a) == words && EndsInWord(a) && a != [] && !KindOf(a[0]).Space?
    ensures Estimated(a + a)
            == 2 * cjk + DivCeil(6 * punctuation, 2) + DivCeil(2 * latin, 4) + (2 * words - 1) / 8
  {
    hide Count, Words, DivCeil;
    CountConcat(a, a, Cjk);
    CountConcat(a, a, Punctuation);
    CountConcat(a, a, Latin);
    WordsConcat(a, a);
  }

  /** Four words followed by four words. */
  lemma UpperBoundAttained()
    ensures var b := Sentence(seq(4, _ => HAN));
            Estimated(b + [' '] + b) == Estimated(b + [' ']) + Estimated(b) + 1
  {
    hide Count, Words, Sentence;
    var b := Sentence(seq(4, _ => HAN));
    RepeatedCounts(HAN, 4);
    SentenceMeasures(seq(4, _ => HAN));
    CountSnoc(b, ' ');
    WordsSnoc(b, ' ');
    CountConcat(b + [' '], b, Cjk);
    CountConcat(b + [' '], b, Punctuation);
    CountConcat(b + [' '], b, Latin);
    WordsConcat(b + [' '], b);
  }

  /** The per-message sum that compaction uses. */
  ghost function EstimatedSum(texts: seq<string>): nat {
    if texts == [] then 0 else Estimated(texts[0]) + EstimatedSum(texts[1..])
  }

  ghost function Concatenated(texts: seq<string>): string {
    if texts == [] then [] else texts[0] + Concatenated(texts[1..])
  }

  /** It is off the estimate of the whole text by at most three tokens per join one way and one the
      other. */
  lemma {:induction false} SumNearWhole(texts: seq<string>)
    requires texts != []
    ensures var joins := |texts| - 1;
            EstimatedSum(texts) - 3 * joins <= Estimated(Concatenated(texts)) <= EstimatedSum(texts) + joins
  {
    if |texts| == 1 {
      assert texts[1..] == [] && texts[0] + [] == texts[0];
    } else {
      SumNearWhole(texts[1..]);
      EstimateConcat(texts[0], Concatenated(texts[1..]));
    }
  }
}
