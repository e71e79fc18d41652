/** Laws of compaction: over every run it is invisible to the tool-call protocol, compacting
    again keeps the same recent messages, and it commutes with switching providers. */
module CompactionLaws {
  import opened Wrappers
  import opened Messages
  import opened MessagesLaws
  import opened ToolProtocol
  import opened CompactionSeam
  import opened Compaction

  // ---- The two split searches

  /** Message `j` is the result for a call that message `i` issued. */
  ghost predicate Answers(h: seq<Message>, i: int, j: int) {
    0 <= i < j < |h| && h[j].ToolResult? && Awaits(h, i, j, h[j].result.toolCallId)
  }

  /** Every call and its result lie on the same side of the cut. */
  ghost predicate Separates(h: seq<Message>, cut: nat) {
    exists i, j :: Answers(h, i, j) && i < cut <= j
  }

  lemma CallIdsMeanCalls(m: Message, id: string)
    requires id in CallIds(m)
    ensures HasToolCalls(m)
  {
  }

  lemma NoCallsNoIds(m: Message)
    requires !HasToolCalls(m)
    ensures CallIds(m) == {}
  {
  }

  lemma BoundaryNeverSeparates(h: seq<Message>, cut: nat)
    requires cut <= |h| && BoundaryStop(h, cut)
    ensures !Separates(h, cut)
  {
    forall i, j | Answers(h, i, j) && i < cut <= j
      ensures false
    {
      CallIdsMeanCalls(h[i], h[j].result.toolCallId);
    }
  }

  lemma SeamNeverSeparates(h: seq<Message>, cut: nat)
    requires cut < |h| && SeamStop(h, cut)
    ensures !Separates(h, cut)
  {
  }

  /** In a well-formed history the message after a boundary is not a result. */
  lemma AfterBoundary(h: seq<Message>, cut: nat)
    requires WellFormed(h) && 0 < cut < |h| && IsBoundary(h[cut - 1])
    ensures !h[cut].ToolResult?
  {
    BoundaryForgets(h, cut);
  }

  /** Both searches return the greatest stop of their own kind at or below the naive split,
      neither separates a call from its result, and the boundary search never cuts later than
      the seam search. */
  lemma SplitsAgree(h: seq<Message>, keepRecent: nat)
    requires WellFormed(h) && 1 <= keepRecent < |h|
    ensures !Separates(h, Cut(h, keepRecent))
    ensures !Separates(h, SplitPoint(h, keepRecent))
    ensures Cut(h, keepRecent) <= SplitPoint(h, keepRecent) <= |h| - keepRecent
  {
    var c := Cut(h, keepRecent);
    BoundaryNeverSeparates(h, c);
    SeamNeverSeparates(h, SplitPoint(h, keepRecent));
    if c > 0 {
      AfterBoundary(h, c);
    }
    assert SeamStop(h, c);
  }

  // ---- The same cuts said of the messages themselves

  ghost predicate RequestsTool(m: Message) {
    m.Assistant? && exists i :: 0 <= i < |m.assistant.content| && m.assistant.content[i].ToolCall?
  }

  /** Whether a history can be cut right after the message. */
  ghost predicate EndsTurn(m: Message) {
    m.User? || (m.Assistant? && !RequestsTool(m))
  }

  lemma RequestsToolMeaning(m: Message)
    ensures HasToolCalls(m) == RequestsTool(m)
    ensures IsBoundary(m) == EndsTurn(m)
  {
    if m.Assistant? {
      var content := m.assistant.content;
      assert forall i :: 0 <= i < |content| ==> IsCall(content[i]) == content[i].ToolCall?;
    }
  }

  /** The boundary split is the last place at or below the naive one right after a user message or
      an assistant message that requests no tool, or 0 if there is no such place. */
  lemma CutExactly(h: seq<Message>, keepRecent: nat)
    requires 1 <= keepRecent <= |h|
    ensures var cut := Cut(h, keepRecent);
            && cut <= |h| - keepRecent && (cut > 0 ==> EndsTurn(h[cut - 1]))
            && forall i :: cut <= i < |h| - keepRecent ==> !EndsTurn(h[i])
  {
    var cut := Cut(h, keepRecent);
    if cut > 0 {
      RequestsToolMeaning(h[cut - 1]);
    }
    forall i | cut <= i < |h| - keepRecent
      ensures !EndsTurn(h[i])
    {
      assert !BoundaryStop(h, i + 1);
      RequestsToolMeaning(h[i]);
    }
  }

  ghost predicate SafeBefore(items: seq<Message>, cut: nat)
    requires cut < |items|
  {
    cut == 0 || (!items[cut].ToolResult? && !RequestsTool(items[cut - 1]))
  }

  /** The seam split keeps a short list whole, and else is the last place at or below the naive one
      that is not before a result and not after a tool request. */
  lemma SplitPointExactly(items: seq<Message>, keepRecent: nat)
    requires keepRecent >= 1
    ensures var cut := SplitPoint(items, keepRecent);
            if |items| <= keepRecent then cut == |items|
            else
              && cut <= |items| - keepRecent && SafeBefore(items, cut)
              && forall c :: cut < c <= |items| - keepRecent ==> !SafeBefore(items, c)
  {
    if |items| > keepRecent {
      forall c: nat | c <= |items| - keepRecent
        ensures SafeBefore(items, c) <==> SeamStop(items, c)
      {
        if c > 0 {
          RequestsToolMeaning(items[c - 1]);
        }
      }
    }
  }

  /** What compaction returns: nothing to compact, the short history as it is, or one assistant
      message that quotes the reply before everything from the cut on. */
  lemma CompactedExactly(h: seq<Message>, keepRecent: nat, model: string, reply: Reply, now: int)
    ensures var r := Compacted(h, keepRecent, model, reply, now);
            if h == [] then r.Err?
            else if |h| <= keepRecent then r == Ok(CompactedContext("", h, 0))
            else
              && (r.Err? <==> keepRecent > 0 && forall i :: 0 <= i < |h| - keepRecent ==> !EndsTurn(h[i]))
              && (r.Ok? ==>
                   var text := match reply
                     case Summarized(text) => "[Previous conversation summarized: " + text + "]"
                     case LlmFailed(fallback) => "[Previous conversation summary: " + fallback + "]";
                   var summary := Assistant(AssistantMessage([Text(text, None)], AnthropicMessages, "compactor", model,
                                    Usage(0, 0, 0, 0, 0), Stop, None, None, now));
                   && r.value.summary == (match reply case Summarized(text) => text case LlmFailed(fallback) => fallback)
                   && 0 < r.value.compactedCount == (if keepRecent == 0 then |h| else Cut(h, keepRecent))
                   && r.value.keptMessages == [summary] + h[r.value.compactedCount..])
  {
    if 1 <= keepRecent < |h| {
      CutExactly(h, keepRecent);
    }
  }

  // ---- A cut at a stop is invisible to the protocol

  lemma SummaryIsBoundary(model: string, reply: Reply, now: int)
    ensures IsBoundary(SummaryMessage(model, reply, now))
    ensures Step({}, SummaryMessage(model, reply, now)) == Some({})
  {
    var m := SummaryMessage(model, reply, now);
    assert |m.assistant.content| == 1 && m.assistant.content[0].Text?;
    NoCallsNoIds(m);
  }

  lemma BoundaryResets(h: seq<Message>, cut: nat)
    requires 0 < cut <= |h| && WellFormed(h[..cut]) && BoundaryStop(h, cut)
    ensures RunFrom({}, h[..cut]) == Some({})
  {
    var front := h[..cut - 1];
    assert h[..cut] == front + [h[cut - 1]];
    RunSnoc(front, h[cut - 1]);
    NoCallsNoIds(h[cut - 1]);
  }

  /** Nothing is open at a boundary. */
  lemma BoundaryForgets(h: seq<Message>, cut: nat)
    requires cut <= |h| && WellFormed(h) && BoundaryStop(h, cut)
    ensures RunFrom({}, h[cut..]) == RunFrom({}, h)
  {
    assert h == h[..cut] + h[cut..];
    RunConcat({}, h[..cut], h[cut..]);
    if cut > 0 {
      BoundaryResets(h, cut);
    }
  }

  /** A message that is not a result does not depend on what was open. */
  lemma SeamForgets(h: seq<Message>, cut: nat)
    requires cut < |h| && WellFormed(h) && SeamStop(h, cut)
    ensures RunFrom({}, h[cut..]) == RunFrom({}, h)
  {
    assert h == h[..cut] + h[cut..];
    RunConcat({}, h[..cut], h[cut..]);
  }

  lemma RunSummary(model: string, reply: Reply, now: int, rest: seq<Message>)
    ensures RunFrom({}, [SummaryMessage(model, reply, now)] + rest) == RunFrom({}, rest)
  {
    SummaryIsBoundary(model, reply, now);
    assert ([SummaryMessage(model, reply, now)] + rest)[1..] == rest;
  }

  lemma CutIsInvisible(h: seq<Message>, cut: nat, model: string, reply: Reply, now: int)
    requires cut <= |h| && WellFormed(h)
    requires BoundaryStop(h, cut) || (cut < |h| && SeamStop(h, cut))
    ensures RunFrom({}, [SummaryMessage(model, reply, now)] + h[cut..]) == RunFrom({}, h)
  {
    RunSummary(model, reply, now, h[cut..]);
    if BoundaryStop(h, cut) {
      BoundaryForgets(h, cut);
    } else {
      SeamForgets(h, cut);
    }
  }

  /** Compaction keeps a history well-formed with the same outstanding calls, exactly when it
      is told to keep at least one message or no call is outstanding. */
  lemma CompactionKeepsOutstanding(h: seq<Message>, keepRecent: nat, model: string, reply: Reply, now: int)
    requires WellFormed(h) && Compacted(h, keepRecent, model, reply, now).Ok?
    ensures RunFrom({}, Compacted(h, keepRecent, model, reply, now).value.keptMessages) == RunFrom({}, h)
            <==> keepRecent >= 1 || Outstanding(h) == {}
  {
    if |h| > keepRecent {
      if keepRecent >= 1 {
        CutIsInvisible(h, Cut(h, keepRecent), model, reply, now);
      } else {
        assert h[|h|..] == [];
        RunSummary(model, reply, now, []);
      }
    }
  }

  /** Told to keep nothing, compaction drops a call that is still waiting for its result. */
  lemma KeepingNothingLosesCall(call: Message, model: string, reply: Reply, now: int)
    requires CallIds(call) != {}
    ensures WellFormed([call]) && Outstanding([call]) == CallIds(call)
    ensures Compacted([call], 0, model, reply, now).Ok?
    ensures RunFrom({}, Compacted([call], 0, model, reply, now).value.keptMessages) == Some({})
  {
    assert [call][1..] == [];
    RunSummary(model, reply, now, []);
  }

  // ---- Switching providers keeps the protocol

  lemma {:induction false} HasToolCallsMeans(blocks: seq<ContentBlock>)
    ensures ToolCalls(blocks) != [] <==> exists i :: 0 <= i < |blocks| && IsCall(blocks[i])
    ensures forall b :: b in ToolCalls(blocks) <==> b in blocks && IsCall(b)
  {
    if blocks != [] {
      HasToolCallsMeans(blocks[1..]);
      assert forall i :: 0 < i < |blocks| ==> blocks[i] == blocks[1..][i - 1];
    }
  }

  lemma TransformKeepsCalls(m: Message, toApi: Api)
    ensures HasToolCalls(TransformMessage(m, toApi)) == HasToolCalls(m)
    ensures CallIds(TransformMessage(m, toApi)) == CallIds(m)
    ensures IsBoundary(TransformMessage(m, toApi)) == IsBoundary(m)
  {
    if m.Assistant? {
      var a, b := m.assistant.content, Transformed(m.assistant.content, toApi);
      ToolCallsSurvive(a, toApi);
      HasToolCallsMeans(a);
      HasToolCallsMeans(b);
      CallIdsOf(m);
      CallIdsOf(TransformMessage(m, toApi));
    }
  }

  lemma CallIdsOf(m: Message)
    requires m.Assistant?
    ensures CallIds(m) == set b | b in ToolCalls(m.assistant.content) && b.ToolCall? :: b.id
  {
    HasToolCallsMeans(m.assistant.content);
  }

  lemma {:induction false} TransformKeepsProtocol(open: set<string>, h: seq<Message>, fromApi: Api, toApi: Api)
    ensures RunFrom(open, TransformForProvider(h, fromApi, toApi)) == RunFrom(open, h)
    decreases |h|
  {
    if h != [] {
      TransformKeepsCalls(h[0], toApi);
      assert TransformForProvider(h, fromApi, toApi)[1..] == TransformForProvider(h[1..], fromApi, toApi);
      var next := Step(open, h[0]);
      if next.Some? {
        TransformKeepsProtocol(next.value, h[1..], fromApi, toApi);
      }
    }
  }

  lemma TransformSuffix(h: seq<Message>, fromApi: Api, toApi: Api, cut: nat)
    requires cut <= |h|
    ensures TransformForProvider(h, fromApi, toApi)[cut..] == TransformForProvider(h[cut..], fromApi, toApi)
  {
  }

  // ---- Runs

  datatype Event =
    | Append(m: Message)
    | Compact(keepRecent: nat, model: string, reply: Reply, now: int)
    | Switch(fromApi: Api, toApi: Api)

  /** One event on the live history; a refused compaction leaves it alone. */
  ghost function Live(h: seq<Message>, e: Event): seq<Message> {
    match e
    case Append(m) => h + [m]
    case Compact(keepRecent, model, reply, now) =>
      var r := Compacted(h, keepRecent, model, reply, now);
      if r.Ok? then r.value.keptMessages else h
    case Switch(fromApi, toApi) => TransformForProvider(h, fromApi, toApi)
  }

  ghost function LiveRun(h: seq<Message>, events: seq<Event>): seq<Message>
    decreases |events|
  {
    if events == [] then h else LiveRun(Live(h, events[0]), events[1..])
  }

  /** One event on the history that is never compacted. */
  ghost function Full(h: seq<Message>, e: Event): seq<Message> {
    if e.Compact? then h else Live(h, e)
  }

  ghost function FullRun(h: seq<Message>, events: seq<Event>): seq<Message>
    decreases |events|
  {
    if events == [] then h else FullRun(Full(h, events[0]), events[1..])
  }

  /** The live history is the full one, or a summary followed by a suffix of it. */
  ghost predicate Abridges(live: seq<Message>, full: seq<Message>) {
    live == full || exists k: nat :: AbridgesAt(live, full, k)
  }

  ghost predicate AbridgesAt(live: seq<Message>, full: seq<Message>, k: nat) {
    0 < k <= |full| && live != [] && IsBoundary(live[0]) && live[1..] == full[k..]
  }

  lemma {:induction false} FullRunExtends(h: seq<Message>, events: seq<Event>)
    requires WellFormed(FullRun(h, events))
    ensures WellFormed(h)
    decreases |events|
  {
    if events != [] {
      FullRunExtends(Full(h, events[0]), events[1..]);
      match events[0] {
        case Append(m) => RunSnoc(h, m);
        case Compact(_, _, _, _) =>
        case Switch(fromApi, toApi) => TransformKeepsProtocol({}, h, fromApi, toApi);
      }
    }
  }

  lemma AppendKeepsAbridging(live: seq<Message>, full: seq<Message>, m: Message)
    requires Abridges(live, full)
    ensures Abridges(live + [m], full + [m])
  {
    if live != full {
      var k: nat :| AbridgesAt(live, full, k);
      assert (live + [m])[1..] == live[1..] + [m] && (full + [m])[k..] == full[k..] + [m];
      assert AbridgesAt(live + [m], full + [m], k);
    }
  }

  lemma SwitchKeepsAbridging(live: seq<Message>, full: seq<Message>, fromApi: Api, toApi: Api)
    requires Abridges(live, full)
    ensures Abridges(TransformForProvider(live, fromApi, toApi), TransformForProvider(full, fromApi, toApi))
  {
    if live != full {
      var k: nat :| AbridgesAt(live, full, k);
      TransformSuffix(live, fromApi, toApi, 1);
      TransformSuffix(full, fromApi, toApi, k);
      TransformKeepsCalls(live[0], toApi);
      assert AbridgesAt(TransformForProvider(live, fromApi, toApi), TransformForProvider(full, fromApi, toApi), k);
    }
  }

  lemma CompactKeepsAbridging(live: seq<Message>, full: seq<Message>, e: Event)
    requires Abridges(live, full) && e.Compact?
    ensures Abridges(Live(live, e), full)
  {
    var next := Live(live, e);
    if next != live {
      var cut := Cut(live, e.keepRecent);
      SummaryIsBoundary(e.model, e.reply, e.now);
      assert next == [SummaryMessage(e.model, e.reply, e.now)] + live[cut..];
      assert next[1..] == live[cut..];
      if live == full {
        assert AbridgesAt(next, full, cut);
      } else {
        var k: nat :| AbridgesAt(live, full, k);
        assert live[cut..] == live[1..][cut - 1..] == full[k..][cut - 1..] == full[k + cut - 1..];
        assert AbridgesAt(next, full, k + cut - 1);
      }
    }
  }

  /** Told to keep a message, if it compacts at all, one event leaves the protocol state of the live
      history that of the full one. */
  lemma EventIsInvisible(live: seq<Message>, full: seq<Message>, e: Event)
    requires RunFrom({}, live) == RunFrom({}, full) && Abridges(live, full) && WellFormed(full)
    requires e.Compact? ==> e.keepRecent >= 1
    ensures RunFrom({}, Live(live, e)) == RunFrom({}, Full(full, e)) && Abridges(Live(live, e), Full(full, e))
  {
    hide Abridges, RunFrom;
    match e {
      case Append(m) =>
        RunSnoc(live, m);
        RunSnoc(full, m);
        AppendKeepsAbridging(live, full, m);
      case Compact(keepRecent, model, reply, now) =>
        CompactKeepsAbridging(live, full, e);
        if Compacted(live, keepRecent, model, reply, now).Ok? {
          CompactionKeepsOutstanding(live, keepRecent, model, reply, now);
        }
      case Switch(fromApi, toApi) =>
        TransformKeepsProtocol({}, live, fromApi, toApi);
        TransformKeepsProtocol({}, full, fromApi, toApi);
        SwitchKeepsAbridging(live, full, fromApi, toApi);
    }
  }

  /** Over every run of appends, provider switches and compactions that each keep at least one
      message: if the uncompacted history obeys the protocol, the live history obeys it too, with
      the same calls outstanding, and still ends in the same recent messages. So the live history
      accepts the same next messages as the uncompacted one. */
  lemma {:induction false} CompactionIsInvisible(live: seq<Message>, full: seq<Message>, events: seq<Event>)
    requires RunFrom({}, live) == RunFrom({}, full) && Abridges(live, full)
    requires forall i :: 0 <= i < |events| && events[i].Compact? ==> events[i].keepRecent >= 1
    requires WellFormed(FullRun(full, events))
    ensures RunFrom({}, LiveRun(live, events)) == RunFrom({}, FullRun(full, events))
    ensures Abridges(LiveRun(live, events), FullRun(full, events))
    decreases |events|
  {
    hide Abridges, RunFrom, Live, Full;
    if events != [] {
      var rest := events[1..];
      FullRunExtends(full, events);
      assert forall i :: 0 <= i < |rest| ==> rest[i] == events[i + 1];
      EventIsInvisible(live, full, events[0]);
      CompactionIsInvisible(Live(live, events[0]), Full(full, events[0]), rest);
    }
  }

  // ---- Compacting again

  /** Compacting a compacted history replaces only the earlier summary. */
  lemma RecompactionFixedPoint(h: seq<Message>, keepRecent: nat, model: string, first: Reply, second: Reply, t1: int,
      t2: int)
    requires keepRecent < |h| && Compacted(h, keepRecent, model, first, t1).Ok?
    ensures var kept := Compacted(h, keepRecent, model, first, t1).value.keptMessages;
            var again := Compacted(kept, keepRecent, model, second, t2);
            && again.Ok? && again.value.compactedCount == 1
            && again.value.keptMessages == [SummaryMessage(model, second, t2)] + kept[1..]
  {
    var raw := |h| - keepRecent;
    var cut := Cut(h, keepRecent);
    var kept := [SummaryMessage(model, first, t1)] + h[cut..];
    SummaryIsBoundary(model, first, t1);
    assert kept[1..] == h[cut..];
    var raw' := |kept| - keepRecent;
    forall k | 1 < k <= raw'
      ensures !BoundaryStop(kept, k)
    {
      assert kept[k - 1] == h[cut + k - 2];
      assert !BoundaryStop(h, cut + k - 1);
    }
    assert BoundaryStop(kept, 1);
  }

  // ---- Compaction and provider switching

  lemma {:induction false} TransformKeepsBoundaryBack(h: seq<Message>, fromApi: Api, toApi: Api, i: nat)
    requires i <= |h|
    ensures BoundaryBack(TransformForProvider(h, fromApi, toApi), i) == BoundaryBack(h, i)
  {
    if i > 0 {
      TransformKeepsCalls(h[i - 1], toApi);
      TransformKeepsBoundaryBack(h, fromApi, toApi, i - 1);
    }
  }

  lemma {:induction false} TransformKeepsSeamBack(h: seq<Message>, fromApi: Api, toApi: Api, cut: nat)
    requires cut < |h|
    ensures SeamBack(TransformForProvider(h, fromApi, toApi), cut) == SeamBack(h, cut)
  {
    if cut > 0 {
      TransformKeepsCalls(h[cut - 1], toApi);
      TransformKeepsSeamBack(h, fromApi, toApi, cut - 1);
    }
  }

  /** Switching providers moves neither split point. */
  lemma TransformKeepsCut(h: seq<Message>, fromApi: Api, toApi: Api, keepRecent: nat)
    requires keepRecent <= |h|
    ensures Cut(TransformForProvider(h, fromApi, toApi), keepRecent) == Cut(h, keepRecent)
  {
    TransformKeepsBoundaryBack(h, fromApi, toApi, |h| - keepRecent);
  }

  lemma TransformKeepsSplitPoint(h: seq<Message>, fromApi: Api, toApi: Api, keepRecent: nat)
    requires keepRecent >= 1 || h == []
    ensures SplitPoint(TransformForProvider(h, fromApi, toApi), keepRecent) == SplitPoint(h, keepRecent)
  {
    if keepRecent < |h| {
      TransformKeepsSeamBack(h, fromApi, toApi, |h| - keepRecent);
    }
  }

  /** Compacting the transformed history and transforming the compacted one succeed together and
      keep the same messages, but for the API stamped on the summary. */
  lemma CompactionCommutes(h: seq<Message>, fromApi: Api, toApi: Api, keepRecent: nat, model: string, reply: Reply,
      now: int)
    ensures var a := Compacted(TransformForProvider(h, fromApi, toApi), keepRecent, model, reply, now);
            var b := Compacted(h, keepRecent, model, reply, now);
            && a.Ok? == b.Ok?
            && (a.Ok? ==>
                 && a.value.compactedCount == b.value.compactedCount
                 && |a.value.keptMessages| == |b.value.keptMessages| >= 1
                 && a.value.keptMessages[1..] == TransformForProvider(b.value.keptMessages[1..], fromApi, toApi)
                 && TransformForProvider(a.value.keptMessages, fromApi, toApi)
                    == TransformForProvider(b.value.keptMessages, fromApi, toApi))
  {
    if |h| <= keepRecent {
      TransformTwice(h, fromApi, toApi);
      if h != [] {
        TransformSuffix(h, fromApi, toApi, 1);
      }
    } else {
      CutCommutes(h, fromApi, toApi, keepRecent, SummaryMessage(model, reply, now));
    }
  }

  lemma CutCommutes(h: seq<Message>, fromApi: Api, toApi: Api, keepRecent: nat, s: Message)
    requires keepRecent < |h|
    ensures var t := TransformForProvider(h, fromApi, toApi);
            var cut := Cut(h, keepRecent);
            && Cut(t, keepRecent) == cut
            && t[cut..] == TransformForProvider(h[cut..], fromApi, toApi)
            && ([s] + t[cut..])[1..] == t[cut..] && ([s] + h[cut..])[1..] == h[cut..]
            && TransformForProvider([s] + t[cut..], fromApi, toApi)
               == TransformForProvider([s] + h[cut..], fromApi, toApi)
  {
    var t := TransformForProvider(h, fromApi, toApi);
    TransformKeepsCut(h, fromApi, toApi, keepRecent);
    var cut := Cut(h, keepRecent);
    TransformSuffix(h, fromApi, toApi, cut);
    TransformTwice(h[cut..], fromApi, toApi);
    TransformCons(s, t[cut..], fromApi, toApi);
    TransformCons(s, h[cut..], fromApi, toApi);
  }

  lemma TransformCons(m: Message, h: seq<Message>, fromApi: Api, toApi: Api)
    ensures TransformForProvider([m] + h, fromApi, toApi)
            == [TransformMessage(m, toApi)] + TransformForProvider(h, fromApi, toApi)
  {
  }

  lemma TransformTwice(h: seq<Message>, fromApi: Api, toApi: Api)
    ensures var t := TransformForProvider(h, fromApi, toApi); TransformForProvider(t, fromApi, toApi) == t
  {
    var t := TransformForProvider(h, fromApi, toApi);
    forall i | 0 <= i < |h|
      ensures TransformMessage(t[i], toApi) == t[i]
    {
      if h[i].Assistant? {
        NormalizedIdempotent(h[i].assistant.content);
      }
    }
  }
}
