/** Compaction: the older part of a history is replaced by one summary message. The text of the
    summary is whatever the model, or the fallback, produced. */
module Compaction {
  import opened Wrappers
  import opened Messages
  import opened ToolProtocol

  datatype CompactionError = NoMessagesToCompact

  datatype CompactedContext = CompactedContext(summary: string, keptMessages: seq<Message>, compactedCount: nat)

  /** The model's summary, or the fallback's when the model failed. */
  datatype Reply = Summarized(text: string) | LlmFailed(fallback: string)

  // ---- The split point

  predicate IsBoundary(m: Message) {
    match m
    case User(_) => true
    case Assistant(_) => !HasToolCalls(m)
    case ToolResult(_) => false
  }

  /** The older part ends in a boundary message, or is empty. */
  ghost predicate BoundaryStop(messages: seq<Message>, i: nat)
    requires i <= |messages|
  {
    i == 0 || IsBoundary(messages[i - 1])
  }

  /** The greatest stop at or below `i`. */
  ghost function BoundaryBack(messages: seq<Message>, i: nat): (r: nat)
    requires i <= |messages|
    ensures r <= i && BoundaryStop(messages, r)
    ensures forall k :: r < k <= i ==> !BoundaryStop(messages, k)
  {
    if BoundaryStop(messages, i) then i else BoundaryBack(messages, i - 1)
  }

  ghost function Aligned(messages: seq<Message>, rawSplit: nat): (r: nat)
    ensures r <= rawSplit
  {
    if rawSplit == 0 || rawSplit >= |messages| then rawSplit else BoundaryBack(messages, rawSplit)
  }

  method AlignSplitBoundary(messages: seq<Message>, rawSplit: nat) returns (i: nat)
    ensures i == Aligned(messages, rawSplit)
  {
    if rawSplit == 0 || rawSplit >= |messages| {
      return rawSplit;
    }
    i := rawSplit;
    while i > 0 && !IsBoundary(messages[i - 1])
      invariant i <= rawSplit
      invariant BoundaryBack(messages, rawSplit) == BoundaryBack(messages, i)
    {
      i := i - 1;
    }
  }

  // ---- Compaction

  function NewAssistant(api: Api, provider: string, model: string, content: seq<ContentBlock>, now: int): Message {
    Assistant(AssistantMessage(content, api, provider, model, Usage(0, 0, 0, 0, 0), Stop, None, None, now))
  }

  function SummaryMessage(model: string, reply: Reply, now: int): Message {
    var text := match reply
      case Summarized(text) => "[Previous conversation summarized: " + text + "]"
      case LlmFailed(fallback) => "[Previous conversation summary: " + fallback + "]";
    NewAssistant(AnthropicMessages, "compactor", model, [PlainBlock(text)], now)
  }

  /** Where a history of at least `keepRecent` messages is cut. */
  ghost function Cut(messages: seq<Message>, keepRecent: nat): (cut: nat)
    requires keepRecent <= |messages|
    ensures cut <= |messages|
  {
    Aligned(messages, |messages| - keepRecent)
  }

  /** What compaction returns. */
  ghost function Compacted(messages: seq<Message>, keepRecent: nat, model: string, reply: Reply, now: int)
    : Result<CompactedContext, CompactionError>
  {
    if messages == [] then Err(NoMessagesToCompact)
    else if |messages| <= keepRecent then Ok(CompactedContext("", messages, 0))
    else
      var cut := Cut(messages, keepRecent);
      if cut == 0 then Err(NoMessagesToCompact)
      else
        var text := if reply.Summarized? then reply.text else reply.fallback;
        Ok(CompactedContext(text, [SummaryMessage(model, reply, now)] + messages[cut..], cut))
  }

  class LlmCompactor {
    const modelId: string
    var keepRecent: nat

    constructor (modelId: string)
      ensures this.modelId == modelId && keepRecent == 4
    {
      this.modelId := modelId;
      keepRecent := 4;
    }

    method WithKeepRecent(count: nat)
      modifies this
      ensures keepRecent == count
    {
      keepRecent := count;
    }

    method Compact(messages: seq<Message>, reply: Reply, now: int)
      returns (r: Result<CompactedContext, CompactionError>)
      ensures r == Compacted(messages, keepRecent, modelId, reply, now)
    {
      hide BoundaryBack, Aligned, SummaryMessage;
      if |messages| == 0 {
        return Err(NoMessagesToCompact);
      }
      if |messages| <= keepRecent {
        return Ok(CompactedContext("", messages, 0));
      }
      var keepCount := if keepRecent <= |messages| then keepRecent else |messages|;
      var rawSplit := |messages| - keepCount;
      var split := AlignSplitBoundary(messages, rawSplit);
      var oldMessages := messages[..split];
      var recentMessages := messages[split..];
      if |oldMessages| == 0 {
        return Err(NoMessagesToCompact);
      }
      var context := CompactWithFallback(oldMessages, recentMessages, reply, now);
      r := Ok(context);
    }

    method CompactWithFallback(oldMessages: seq<Message>, recentMessages: seq<Message>, reply: Reply, now: int)
      returns (c: CompactedContext)
      ensures c.keptMessages == [SummaryMessage(modelId, reply, now)] + recentMessages
      ensures c.compactedCount == |oldMessages|
      ensures c.summary == if reply.Summarized? then reply.text else reply.fallback
    {
      match reply
      case Summarized(summary) =>
        var text := "[Previous conversation summarized: " + summary + "]";
        var kept := [NewAssistant(AnthropicMessages, "compactor", modelId, [PlainBlock(text)], now)];
        kept := kept + recentMessages;
        c := CompactedContext(summary, kept, |oldMessages|);
      case LlmFailed(fallback) =>
        c := CompactFallback(oldMessages, recentMessages, fallback, now);
    }

    method CompactFallback(oldMessages: seq<Message>, recentMessages: seq<Message>, summary: string, now: int)
      returns (c: CompactedContext)
      ensures c.keptMessages == [SummaryMessage(modelId, LlmFailed(summary), now)] + recentMessages
      ensures c.compactedCount == |oldMessages| && c.summary == summary
    {
      var text := "[Previous conversation summary: " + summary + "]";
      var kept := [NewAssistant(AnthropicMessages, "compactor", modelId, [PlainBlock(text)], now)];
      kept := kept + recentMessages;
      c := CompactedContext(summary, kept, |oldMessages|);
    }
  }
}
