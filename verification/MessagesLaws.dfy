/** Laws of the provider transformation: merging is a normal form, transforming twice is
    transforming once, and a chain of switches collapses. */
module MessagesLaws {
  import opened Wrappers
  import opened Sequences
  import opened Strings
  import opened Messages
  import Json

  // ---- Merging yields a normal form

  /** No empty text, no signed text, no two texts side by side. */
  ghost predicate IsMerged(blocks: seq<ContentBlock>) {
    && (forall i :: 0 <= i < |blocks| && blocks[i].Text? ==> blocks[i].text != [] && blocks[i].textSignature.None?)
    && (forall i :: 0 < i < |blocks| && blocks[i].Text? ==> !blocks[i - 1].Text?)
  }

  ghost function NonText(blocks: seq<ContentBlock>): seq<ContentBlock> {
    if blocks == [] then []
    else (if blocks[0].Text? then [] else [blocks[0]]) + NonText(blocks[1..])
  }

  lemma {:induction false} NonTextConcat(a: seq<ContentBlock>, b: seq<ContentBlock>)
    ensures NonText(a + b) == NonText(a) + NonText(b)
  {
    if a == [] {
      assert a + b == b;
    } else {
      assert (a + b)[1..] == a[1..] + b;
      NonTextConcat(a[1..], b);
    }
  }

  lemma FlushNormal(pending: string, block: ContentBlock, rest: seq<ContentBlock>)
    requires !block.Text? && IsMerged(rest)
    ensures IsMerged(Flush(pending) + [block] + rest)
  {
    var r := Flush(pending) + [block] + rest;
    var n := |Flush(pending)|;
    assert forall i :: n < i < |r| ==> r[i] == rest[i - n - 1];
  }

  lemma FlushNonText(pending: string, block: ContentBlock, rest: seq<ContentBlock>)
    requires !block.Text?
    ensures NonText(Flush(pending) + [block] + rest) == [block] + NonText(rest)
  {
    NonTextConcat(Flush(pending) + [block], rest);
    NonTextConcat(Flush(pending), [block]);
    assert NonText([block]) == [block] + NonText([block][1..]) && [block][1..] == [];
  }

  lemma MergedPrefix(a: seq<ContentBlock>, b: seq<ContentBlock>)
    requires IsMerged(a + b)
    ensures IsMerged(a)
  {
    assert forall i :: 0 <= i < |a| ==> (a + b)[i] == a[i];
  }

  lemma {:induction false} MergeFromNormal(pending: string, blocks: seq<ContentBlock>)
    ensures IsMerged(MergeFrom(pending, blocks))
    ensures NonText(MergeFrom(pending, blocks)) == NonText(blocks)
    decreases |blocks|
  {
    if blocks != [] {
      if blocks[0].Text? {
        MergeFromNormal(Accumulate(pending, blocks[0].text), blocks[1..]);
      } else {
        MergeFromNormal("", blocks[1..]);
        FlushNormal(pending, blocks[0], MergeFrom("", blocks[1..]));
        FlushNonText(pending, blocks[0], MergeFrom("", blocks[1..]));
      }
    }
  }

  /** Merging leaves no empty and no adjacent texts and keeps every other block in order. */
  lemma MergeNormal(blocks: seq<ContentBlock>)
    ensures IsMerged(Merged(blocks))
    ensures NonText(Merged(blocks)) == NonText(blocks)
  {
    MergeFromNormal("", blocks);
  }

  /** The blocks settled, and the text pending, after merging `blocks`. */
  ghost function Settled(pending: string, blocks: seq<ContentBlock>): seq<ContentBlock>
    decreases |blocks|
  {
    if blocks == [] then []
    else if blocks[0].Text? then Settled(Accumulate(pending, blocks[0].text), blocks[1..])
    else Flush(pending) + [blocks[0]] + Settled("", blocks[1..])
  }

  ghost function Pending(pending: string, blocks: seq<ContentBlock>): string
    decreases |blocks|
  {
    if blocks == [] then pending
    else if blocks[0].Text? then Pending(Accumulate(pending, blocks[0].text), blocks[1..])
    else Pending("", blocks[1..])
  }

  lemma {:induction false} MergeFromConcat(pending: string, x: seq<ContentBlock>, y: seq<ContentBlock>)
    ensures MergeFrom(pending, x + y) == Settled(pending, x) + MergeFrom(Pending(pending, x), y)
    decreases |x|
  {
    if x == [] {
      assert x + y == y;
    } else {
      assert (x + y)[1..] == x[1..] + y;
      MergeFromConcat(if x[0].Text? then Accumulate(pending, x[0].text) else "", x[1..], y);
    }
  }

  lemma {:induction false} SettledEnds(pending: string, blocks: seq<ContentBlock>)
    ensures var s := Settled(pending, blocks); s != [] ==> !s[|s| - 1].Text?
    ensures MergeFrom(pending, blocks) == Settled(pending, blocks) + Flush(Pending(pending, blocks))
    decreases |blocks|
  {
    if blocks != [] {
      SettledEnds(if blocks[0].Text? then Accumulate(pending, blocks[0].text) else "", blocks[1..]);
    }
  }

  lemma MergedSuffix(blocks: seq<ContentBlock>, n: nat)
    requires IsMerged(blocks) && n <= |blocks|
    ensures IsMerged(blocks[n..])
  {
    assert forall i :: 0 <= i < |blocks| - n ==> blocks[n..][i] == blocks[n + i];
  }

  lemma {:induction false} SettledSelf(blocks: seq<ContentBlock>)
    requires IsMerged(blocks) && (blocks != [] ==> !blocks[|blocks| - 1].Text?)
    ensures Settled("", blocks) == blocks && Pending("", blocks) == ""
    decreases |blocks|
  {
    if blocks != [] {
      var n := if blocks[0].Text? then 2 else 1;
      MergedSuffix(blocks, n);
      SettledSelf(blocks[n..]);
      if blocks[0].Text? {
        assert !blocks[1].Text? && blocks[1..][1..] == blocks[2..];
        assert blocks[..2] == Flush(blocks[0].text) + [blocks[1]];
        assert blocks == blocks[..2] + blocks[2..];
      }
    }
  }

  /** A sequence in normal form that does not end in a text passes through unchanged. */
  lemma MergeFromSettled(settled: seq<ContentBlock>, rest: seq<ContentBlock>)
    requires IsMerged(settled) && (settled != [] ==> !settled[|settled| - 1].Text?)
    ensures MergeFrom("", settled + rest) == settled + MergeFrom("", rest)
  {
    SettledSelf(settled);
    MergeFromConcat("", settled, rest);
  }

  lemma MergeIdentity(blocks: seq<ContentBlock>)
    requires IsMerged(blocks)
    ensures Merged(blocks) == blocks
  {
    if blocks != [] && blocks[|blocks| - 1].Text? {
      var front, last := blocks[..|blocks| - 1], blocks[|blocks| - 1];
      MergeFromSettled(front, [last]);
      assert front + [last] == blocks;
      assert [last][1..] == [] && Flush(last.text) == [last];
    } else {
      MergeFromSettled(blocks, []);
      assert blocks + [] == blocks;
    }
  }

  // ---- Merging is incremental on the left, and on the right exactly when no empty text is lost

  lemma MergeFlushed(pending: string, y: seq<ContentBlock>)
    ensures Merged(Flush(pending) + y) == MergeFrom(pending, y)
  {
    if pending == [] {
      assert Flush(pending) + y == y;
    } else {
      assert (Flush(pending) + y)[1..] == y;
    }
  }

  lemma MergeIncremental(x: seq<ContentBlock>, y: seq<ContentBlock>)
    ensures Merged(x + y) == Merged(Merged(x) + y)
  {
    var s, p := Settled("", x), Pending("", x);
    MergeFromConcat("", x, y);
    SettledEnds("", x);
    MergeNormal(x);
    MergedPrefix(s, Flush(p));
    ConcatAssociative(s, Flush(p), y);
    MergeFromSettled(s, Flush(p) + y);
    MergeFlushed(p, y);
  }

  ghost function DropEmptyTexts(blocks: seq<ContentBlock>): seq<ContentBlock> {
    if blocks != [] && blocks[0].Text? && blocks[0].text == [] then DropEmptyTexts(blocks[1..]) else blocks
  }

  /** What the leading texts add to a non-empty accumulator. */
  ghost function Tail(blocks: seq<ContentBlock>): string {
    if blocks != [] && blocks[0].Text? then "\n" + blocks[0].text + Tail(blocks[1..]) else []
  }

  /** What merging makes of the blocks behind the leading texts. */
  ghost function Behind(blocks: seq<ContentBlock>): seq<ContentBlock> {
    if blocks == [] then []
    else if blocks[0].Text? then Behind(blocks[1..])
    else [blocks[0]] + Merged(blocks[1..])
  }

  lemma {:induction false} MergeFromPending(pending: string, blocks: seq<ContentBlock>)
    requires pending != []
    ensures MergeFrom(pending, blocks) == [PlainBlock(pending + Tail(blocks))] + Behind(blocks)
    decreases |blocks|
  {
    if blocks != [] && blocks[0].Text? {
      MergeFromPending(Accumulate(pending, blocks[0].text), blocks[1..]);
      TailStep(pending, blocks);
    } else {
      assert pending + [] == pending;
    }
  }

  lemma {:induction false} DropEmptyTextsKeeps(blocks: seq<ContentBlock>)
    ensures Merged(DropEmptyTexts(blocks)) == Merged(blocks)
    ensures Behind(DropEmptyTexts(blocks)) == Behind(blocks)
    ensures |Tail(DropEmptyTexts(blocks))| <= |Tail(blocks)|
    ensures var d := DropEmptyTexts(blocks); d != [] && d[0].Text? ==> d[0].text != []
    ensures blocks != [] && blocks[0].Text? && blocks[0].text == [] ==> |Tail(DropEmptyTexts(blocks))| < |Tail(blocks)|
  {
    if blocks != [] && blocks[0].Text? && blocks[0].text == [] {
      DropEmptyTextsKeeps(blocks[1..]);
    }
  }

  lemma BehindSettled(blocks: seq<ContentBlock>)
    ensures Behind(Behind(blocks)) == Behind(blocks) && Tail(Behind(blocks)) == []
  {
    if blocks != [] {
      if blocks[0].Text? {
        BehindSettled(blocks[1..]);
      } else {
        MergeNormal(blocks[1..]);
        MergeIdentity(Merged(blocks[1..]));
        assert Behind(blocks)[1..] == Merged(blocks[1..]);
      }
    }
  }

  /** Merging again behind a pending text sees the same blocks, less the leading empty texts. */
  lemma MergeFromMerged(pending: string, blocks: seq<ContentBlock>)
    requires pending != []
    ensures MergeFrom(pending, Merged(blocks)) == [PlainBlock(pending + Tail(DropEmptyTexts(blocks)))] + Behind(blocks)
  {
    var d := DropEmptyTexts(blocks);
    DropEmptyTextsKeeps(blocks);
    BehindSettled(d);
    var m := Merged(d);
    if d != [] && d[0].Text? {
      MergeFromPending(d[0].text, d[1..]);
      assert m == [PlainBlock(d[0].text + Tail(d[1..]))] + Behind(d);
      assert m[1..] == Behind(d);
      assert Tail(m) == "\n" + (d[0].text + Tail(d[1..])) + [];
      assert "\n" + (d[0].text + Tail(d[1..])) + [] == Tail(d);
    } else {
      assert m == Behind(d);
    }
    MergeFromPending(pending, m);
  }

  /** The mirror image of MergeIncremental fails for an empty text behind a pending one. */
  lemma MergeRightIncrementalFails()
    ensures var x, y := [PlainBlock("a")], [PlainBlock("")];
            Merged(x + y) == [PlainBlock("a\n")] && Merged(x + Merged(y)) == [PlainBlock("a")]
  {
    var x, y := [PlainBlock("a")], [PlainBlock("")];
    assert (x + y)[1..] == y && y[1..] == [] && x[1..] == [];
    assert Merged(y) == [] && x + [] == x;
    assert Accumulate("a", "") == "a\n";
    assert MergeFrom("a", y) == MergeFrom("a\n", []);
  }

  /** It holds exactly when nothing is pending after `x` or `y` does not start with an empty text. */
  lemma MergeRightIncremental(x: seq<ContentBlock>, y: seq<ContentBlock>)
    ensures Merged(x + Merged(y)) == Merged(x + y)
            <==> Pending("", x) == [] || y == [] || !y[0].Text? || y[0].text != []
  {
    var s, p := Settled("", x), Pending("", x);
    MergeFromConcat("", x, y);
    MergeFromConcat("", x, Merged(y));
    if p == [] {
      MergeNormal(y);
      MergeIdentity(Merged(y));
    } else {
      MergeFromPending(p, y);
      MergeFromMerged(p, y);
      DropEmptyTextsKeeps(y);
      var a, b := p + Tail(y), p + Tail(DropEmptyTexts(y));
      if y != [] && y[0].Text? && y[0].text == [] {
        assert |b| < |a|;
        assert (s + MergeFrom(p, y))[|s|] == PlainBlock(a);
        assert (s + MergeFrom(p, Merged(y)))[|s|] == PlainBlock(b);
      } else {
        assert DropEmptyTexts(y) == y;
      }
    }
  }

  // ---- What a merged text holds

  ghost predicate AllText(blocks: seq<ContentBlock>) {
    forall i :: 0 <= i < |blocks| ==> blocks[i].Text?
  }

  ghost function TextsOf(blocks: seq<ContentBlock>): seq<string>
    requires AllText(blocks)
  {
    seq(|blocks|, i requires 0 <= i < |blocks| => blocks[i].text)
  }

  lemma {:induction false} PendingTail(pending: string, blocks: seq<ContentBlock>)
    requires pending != [] && AllText(blocks)
    ensures Settled(pending, blocks) == [] && Pending(pending, blocks) == pending + Tail(blocks)
    decreases |blocks|
  {
    if blocks == [] {
      assert pending + [] == pending;
    } else {
      PendingTail(Accumulate(pending, blocks[0].text), blocks[1..]);
      TailStep(pending, blocks);
    }
  }

  lemma TailStep(pending: string, blocks: seq<ContentBlock>)
    requires pending != [] && blocks != [] && blocks[0].Text?
    ensures Accumulate(pending, blocks[0].text) + Tail(blocks[1..]) == pending + Tail(blocks)
  {
    assert pending + "\n" + blocks[0].text == pending + ("\n" + blocks[0].text);
    ConcatAssociative(pending, "\n" + blocks[0].text, Tail(blocks[1..]));
  }

  lemma {:induction false} TailIsJoin(pending: string, blocks: seq<ContentBlock>)
    requires AllText(blocks)
    ensures pending + Tail(blocks) == Join([pending] + TextsOf(blocks), '\n')
    decreases |blocks|
  {
    if blocks == [] {
      assert pending + [] == pending;
    } else {
      var next, rest := blocks[0].text, TextsOf(blocks[1..]);
      TailIsJoin(next, blocks[1..]);
      assert ([pending] + TextsOf(blocks))[1..] == [next] + rest;
      assert pending + ['\n'] + (next + Tail(blocks[1..])) == pending + ("\n" + next + Tail(blocks[1..]));
    }
  }

  lemma {:induction false} DropEmptyTextsAllText(blocks: seq<ContentBlock>)
    requires AllText(blocks)
    ensures AllText(DropEmptyTexts(blocks))
    ensures Settled("", DropEmptyTexts(blocks)) == Settled("", blocks)
    ensures Pending("", DropEmptyTexts(blocks)) == Pending("", blocks)
  {
    if blocks != [] && blocks[0].text == [] {
      DropEmptyTextsAllText(blocks[1..]);
    }
  }

  lemma RunPending(run: seq<ContentBlock>)
    requires AllText(run)
    ensures AllText(DropEmptyTexts(run)) && Settled("", run) == []
    ensures Pending("", run) == Join(TextsOf(DropEmptyTexts(run)), '\n')
  {
    var d := DropEmptyTexts(run);
    DropEmptyTextsAllText(run);
    DropEmptyTextsKeeps(run);
    if d != [] {
      PendingTail(d[0].text, d[1..]);
      TailIsJoin(d[0].text, d[1..]);
      assert [d[0].text] + TextsOf(d[1..]) == TextsOf(d);
    }
  }

  /** Each maximal run of texts becomes their join by newlines, empty texts at its start left
      out, and no block at all when nothing remains. */
  lemma MergeRun(run: seq<ContentBlock>, rest: seq<ContentBlock>)
    requires AllText(run) && (rest != [] ==> !rest[0].Text?)
    ensures AllText(DropEmptyTexts(run))
    ensures Merged(run + rest)
            == Flush(Join(TextsOf(DropEmptyTexts(run)), '\n'))
               + (if rest == [] then [] else [rest[0]] + Merged(rest[1..]))
  {
    RunPending(run);
    MergeFromConcat("", run, rest);
    if rest != [] {
      ConcatAssociative(Flush(Pending("", run)), [rest[0]], Merged(rest[1..]));
    }
  }

  // ---- Transforming content twice

  /** Blocks the rewrite leaves as they are. */
  ghost predicate Rewritten(blocks: seq<ContentBlock>) {
    forall i :: 0 <= i < |blocks| ==> !blocks[i].Thinking? && !blocks[i].Unknown?
  }

  lemma {:induction false} RewriteAllRewritten(blocks: seq<ContentBlock>)
    ensures Rewritten(RewriteAll(blocks))
  {
    if blocks != [] {
      RewriteAllRewritten(blocks[1..]);
    }
  }

  lemma {:induction false} RewriteAllIdentity(blocks: seq<ContentBlock>)
    requires Rewritten(blocks)
    ensures RewriteAll(blocks) == blocks
  {
    if blocks != [] {
      RewriteAllIdentity(blocks[1..]);
    }
  }

  lemma {:induction false} MergeFromRewritten(pending: string, blocks: seq<ContentBlock>)
    requires Rewritten(blocks)
    ensures Rewritten(MergeFrom(pending, blocks))
    decreases |blocks|
  {
    if blocks != [] {
      MergeFromRewritten(if blocks[0].Text? then Accumulate(pending, blocks[0].text) else "", blocks[1..]);
    }
  }

  lemma NormalizedIdempotent(blocks: seq<ContentBlock>)
    ensures Normalized(Normalized(blocks)) == Normalized(blocks)
    ensures Rewritten(Normalized(blocks)) && IsMerged(Normalized(blocks))
  {
    var n := Normalized(blocks);
    RewriteAllRewritten(blocks);
    MergeFromRewritten("", RewriteAll(blocks));
    RewriteAllIdentity(n);
    MergeNormal(RewriteAll(blocks));
    MergeIdentity(n);
  }

  // ---- What each block becomes

  /** What a block contributes to the content another API receives: a thinking block its text in
      tags, an unknown block its own text if it has one, any other block itself. */
  ghost predicate Contributes(block: ContentBlock, out: seq<ContentBlock>) {
    match block
    case Thinking(t, _, _) => out == [Text("<thinking>\n" + t + "\n</thinking>", None)]
    case Unknown(json) =>
      if exists s :: HoldsText(json, s) then exists s :: HoldsText(json, s) && out == [Text(s, None)] else out == []
    case _ => out == [block]
  }

  /** The JSON object's first member called `text` is the string `s`. */
  ghost predicate HoldsText(json: Json.Value, s: string) {
    json.Object? && exists i :: HoldsTextAt(json.members, i, s)
  }

  ghost predicate HoldsTextAt(members: seq<Json.Member>, i: int, s: string) {
    && 0 <= i < |members| && members[i] == Json.Member("text", Json.Str(s))
    && forall k :: 0 <= k < i ==> members[k].key != "text"
  }

  lemma {:induction false} LookupText(members: seq<Json.Member>, i: nat)
    requires i <= |members| && forall k :: 0 <= k < i ==> members[k].key != "text"
    ensures var r := Json.Lookup(members[i..], "text");
            forall s :: r == Some(Json.Str(s)) <==> exists j :: HoldsTextAt(members, j, s)
    decreases |members| - i
  {
    if i < |members| {
      assert members[i..][1..] == members[i + 1..];
      if members[i].key == "text" {
        if members[i].value.Str? {
          assert HoldsTextAt(members, i, members[i].value.s);
        }
      } else {
        LookupText(members, i + 1);
      }
    }
  }

  lemma RewriteContributes(block: ContentBlock)
    ensures Contributes(block, Rewrite(block))
  {
    if block.Unknown? && block.json.Object? {
      var members := block.json.members;
      LookupText(members, 0);
      assert members[0..] == members;
      var found := Json.Get(block.json, "text");
      if found.Some? && found.value.Str? {
        assert HoldsText(block.json, found.value.s);
      }
    }
  }

  lemma ContributesOnce(block: ContentBlock, a: seq<ContentBlock>, b: seq<ContentBlock>)
    requires Contributes(block, a) && Contributes(block, b)
    ensures a == b
  {
    if block.Unknown? && (exists s :: HoldsText(block.json, s)) {
      var s :| HoldsText(block.json, s) && a == [Text(s, None)];
      var t :| HoldsText(block.json, t) && b == [Text(t, None)];
      var i :| HoldsTextAt(block.json.members, i, s);
      var j :| HoldsTextAt(block.json.members, j, t);
    }
  }

  ghost function Flattened(pieces: seq<seq<ContentBlock>>): seq<ContentBlock> {
    if pieces == [] then [] else pieces[0] + Flattened(pieces[1..])
  }

  lemma {:induction false} RewriteAllFlattens(blocks: seq<ContentBlock>, pieces: seq<seq<ContentBlock>>)
    requires |pieces| == |blocks| && forall i :: 0 <= i < |blocks| ==> Contributes(blocks[i], pieces[i])
    ensures RewriteAll(blocks) == Flattened(pieces)
  {
    if blocks != [] {
      RewriteContributes(blocks[0]);
      ContributesOnce(blocks[0], Rewrite(blocks[0]), pieces[0]);
      RewriteAllFlattens(blocks[1..], pieces[1..]);
    }
  }

  /** For an API other than Anthropic's, content becomes the merge of what its blocks contribute. */
  lemma TransformedMeaning(blocks: seq<ContentBlock>, toApi: Api, pieces: seq<seq<ContentBlock>>)
    requires |pieces| == |blocks| && forall i :: 0 <= i < |blocks| ==> Contributes(blocks[i], pieces[i])
    ensures Transformed(blocks, toApi) == if toApi.AnthropicMessages? then blocks else Merged(Flattened(pieces))
  {
    RewriteAllFlattens(blocks, pieces);
  }

  /** A thinking block alone becomes its text in tags. */
  lemma ThinkingIsKept(t: string, signature: Option<string>, redacted: Option<bool>, toApi: Api)
    requires !toApi.AnthropicMessages?
    ensures Transformed([Thinking(t, signature, redacted)], toApi) == [Text("<thinking>\n" + t + "\n</thinking>", None)]
  {
    var text := "<thinking>\n" + t + "\n</thinking>";
    var block := Thinking(t, signature, redacted);
    TransformedMeaning([block], toApi, [[Text(text, None)]]);
    assert [[Text(text, None)]][1..] == [] && [Text(text, None)] + [] == [Text(text, None)];
    assert text != [] && [Text(text, None)][1..] == [];
    assert Merged([Text(text, None)]) == MergeFrom(text, []);
  }

  // ---- Chains of provider switches

  /** Transform step by step along a chain of target APIs. */
  ghost function TransformChain(messages: seq<Message>, fromApi: Api, targets: seq<Api>): seq<Message>
    decreases |targets|
  {
    if targets == [] then messages
    else TransformChain(TransformForProvider(messages, fromApi, targets[0]), targets[0], targets[1..])
  }

  ghost predicate AllAnthropic(targets: seq<Api>) {
    forall i :: 0 <= i < |targets| ==> targets[i].AnthropicMessages?
  }

  /** What a non-empty chain makes of one message. */
  ghost function Collapsed(m: Message, targets: seq<Api>): Message
    requires targets != []
  {
    if m.Assistant? then
      Assistant(m.assistant.(
        api := targets[|targets| - 1],
        content := if AllAnthropic(targets) then m.assistant.content else Normalized(m.assistant.content)))
    else m
  }

  /** A chain of switches has a closed form: the `api` is the last target, and the content is
      untouched if every target is Anthropic's API and in normal form otherwise. */
  lemma {:induction false} ChainCollapses(messages: seq<Message>, fromApi: Api, targets: seq<Api>)
    requires targets != []
    ensures |TransformChain(messages, fromApi, targets)| == |messages|
    ensures forall i :: 0 <= i < |messages| ==>
              TransformChain(messages, fromApi, targets)[i] == Collapsed(messages[i], targets)
    decreases |targets|
  {
    var once := TransformForProvider(messages, fromApi, targets[0]);
    if |targets| == 1 {
      assert targets[1..] == [];
      assert AllAnthropic(targets) <==> targets[0].AnthropicMessages?;
    } else {
      var rest := targets[1..];
      ChainCollapses(once, targets[0], rest);
      assert AllAnthropic(targets) <==> targets[0].AnthropicMessages? && AllAnthropic(rest) by {
        assert forall i :: 0 <= i < |rest| ==> rest[i] == targets[i + 1];
        if targets[0].AnthropicMessages? && AllAnthropic(rest) {
          assert forall i :: 0 < i < |targets| ==> targets[i] == rest[i - 1];
        }
      }
      forall i | 0 <= i < |messages|
        ensures Collapsed(once[i], rest) == Collapsed(messages[i], targets)
      {
        if messages[i].Assistant? {
          NormalizedIdempotent(messages[i].assistant.content);
        }
      }
    }
  }

  // ---- Tool calls survive

  ghost function ToolCalls(blocks: seq<ContentBlock>): seq<ContentBlock> {
    if blocks == [] then []
    else (if blocks[0].ToolCall? then [blocks[0]] else []) + ToolCalls(blocks[1..])
  }

  lemma {:induction false} ToolCallsNonText(blocks: seq<ContentBlock>)
    ensures ToolCalls(NonText(blocks)) == ToolCalls(blocks)
  {
    if blocks != [] {
      ToolCallsNonText(blocks[1..]);
      assert blocks[0].Text? ==> NonText(blocks) == NonText(blocks[1..]);
      assert !blocks[0].Text? ==> NonText(blocks)[1..] == NonText(blocks[1..]);
    }
  }

  lemma {:induction false} ToolCallsRewrite(blocks: seq<ContentBlock>)
    ensures ToolCalls(RewriteAll(blocks)) == ToolCalls(blocks)
  {
    if blocks != [] {
      ToolCallsRewrite(blocks[1..]);
      if Rewrite(blocks[0]) == [] {
        assert RewriteAll(blocks) == RewriteAll(blocks[1..]);
      } else {
        assert RewriteAll(blocks)[1..] == RewriteAll(blocks[1..]);
      }
    }
  }

  /** The tool calls of a message, with their ids, arguments and order, are the same for every
      target API. */
  lemma ToolCallsSurvive(blocks: seq<ContentBlock>, toApi: Api)
    ensures ToolCalls(Transformed(blocks, toApi)) == ToolCalls(blocks)
  {
    var rewritten := RewriteAll(blocks);
    ToolCallsRewrite(blocks);
    MergeNormal(rewritten);
    ToolCallsNonText(rewritten);
    ToolCallsNonText(Merged(rewritten));
  }
}
