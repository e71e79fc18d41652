/** Conversation messages and their transformation for another provider's API. */
module Messages {
  import opened Wrappers
  import opened Sequences
  import Json

  datatype Api =
    | OpenAiCompletions | OpenAiResponses | OpenRouter | OpenAiCodexResponses | AzureOpenAiResponses
    | AnthropicMessages | BedrockConverseStream | GoogleGenerativeAi | GoogleGeminiCli | GoogleVertex
    | OllamaChat | CursorAgent | GitLabDuo | GitLabDuoAgent | DevinAgent

  datatype StopReason = Stop | Length | ToolUse | Error | Aborted

  datatype Usage = Usage(input: nat, output: nat, cacheRead: nat, cacheWrite: nat, totalTokens: nat)

  datatype ContentBlock =
    | Text(text: string, textSignature: Option<string>)
    | Thinking(thinking: string, thinkingSignature: Option<string>, redacted: Option<bool>)
    | Image(data: string, mimeType: string)
    | ToolCall(id: string, name: string, arguments: Json.Value, thoughtSignature: Option<string>)
    | Unknown(json: Json.Value)

  datatype MessageContent = PlainText(s: string) | Blocks(blocks: seq<ContentBlock>)

  datatype UserMessage = UserMessage(content: MessageContent, timestamp: int, visible: bool)

  datatype AssistantMessage = AssistantMessage(
    content: seq<ContentBlock>, api: Api, provider: string, model: string, usage: Usage,
    stopReason: StopReason, errorMessage: Option<string>, responseId: Option<string>, timestamp: int)

  datatype ToolResultMessage = ToolResultMessage(
    toolCallId: string, toolName: string, content: seq<ContentBlock>, details: Option<Json.Value>,
    isError: bool, timestamp: int)

  datatype Message =
    | User(user: UserMessage)
    | Assistant(assistant: AssistantMessage)
    | ToolResult(result: ToolResultMessage)

  function PlainBlock(text: string): ContentBlock {
    Text(text, None)
  }

  // ---- Merging adjacent text blocks

  /** The accumulator after one more text. */
  function Accumulate(pending: string, text: string): string {
    if pending == [] then text else pending + "\n" + text
  }

  function Flush(pending: string): seq<ContentBlock> {
    if pending == [] then [] else [PlainBlock(pending)]
  }

  function MergeFrom(pending: string, blocks: seq<ContentBlock>): seq<ContentBlock>
    decreases |blocks|
  {
    if blocks == [] then Flush(pending)
    else if blocks[0].Text? then MergeFrom(Accumulate(pending, blocks[0].text), blocks[1..])
    else Flush(pending) + [blocks[0]] + MergeFrom("", blocks[1..])
  }

  function Merged(blocks: seq<ContentBlock>): seq<ContentBlock> {
    MergeFrom("", blocks)
  }

  lemma MergeEnd(pending: string, blocks: seq<ContentBlock>)
    requires blocks == []
    ensures MergeFrom(pending, blocks) == Flush(pending)
  {
  }

  /** One block further in the merge. */
  lemma MergeStep(result: seq<ContentBlock>, pending: string, blocks: seq<ContentBlock>, i: nat)
    requires i < |blocks|
    ensures blocks[i].Text? ==>
      MergeFrom(pending, blocks[i..]) == MergeFrom(Accumulate(pending, blocks[i].text), blocks[i + 1..])
    ensures !blocks[i].Text? ==>
      result + MergeFrom(pending, blocks[i..])
      == result + Flush(pending) + [blocks[i]] + MergeFrom("", blocks[i + 1..])
  {
    assert blocks[i..][1..] == blocks[i + 1..];
    var rest := MergeFrom("", blocks[i + 1..]);
    ConcatAssociative(result, Flush(pending) + [blocks[i]], rest);
    ConcatAssociative(result, Flush(pending), [blocks[i]]);
  }

  method MergeAdjacentTextBlocks(blocks: seq<ContentBlock>) returns (result: seq<ContentBlock>)
    ensures result == Merged(blocks)
  {
    hide MergeFrom;
    result := [];
    var pendingText := "";
    var i := 0;
    ConcatNothing(MergeFrom("", blocks));
    while i < |blocks|
      invariant 0 <= i <= |blocks|
      invariant Merged(blocks) == result + MergeFrom(pendingText, blocks[i..])
    {
      var block := blocks[i];
      MergeStep(result, pendingText, blocks, i);
      ghost var pending, before := pendingText, result;
      if block.Text? {
        if pendingText != [] {
          pendingText := pendingText + "\n";
        }
        ConcatNothing(block.text);
        pendingText := pendingText + block.text;
        assert pendingText == Accumulate(pending, block.text);
      } else {
        if pendingText != [] {
          result := result + [PlainBlock(pendingText)];
          pendingText := "";
        }
        ConcatNothing(before);
        result := result + [block];
        assert result == before + Flush(pending) + [block];
      }
      i := i + 1;
    }
    MergeEnd(pendingText, blocks[i..]);
    if pendingText != [] {
      result := result + [PlainBlock(pendingText)];
    }
  }

  // ---- Rewriting blocks for a target API

  function ThinkingAsText(thinking: string): string {
    "<thinking>\n" + thinking + "\n</thinking>"
  }

  /** What one block becomes for an API other than Anthropic's: nothing or one block. */
  function Rewrite(block: ContentBlock): seq<ContentBlock> {
    match block
    case Thinking(thinking, _, _) => [PlainBlock(ThinkingAsText(thinking))]
    case Unknown(json) =>
      var text := Json.Get(json, "text");
      if text.Some? && text.value.Str? then [PlainBlock(text.value.s)] else []
    case _ => [block]
  }

  function RewriteAll(blocks: seq<ContentBlock>): seq<ContentBlock> {
    if blocks == [] then [] else Rewrite(blocks[0]) + RewriteAll(blocks[1..])
  }

  lemma RewriteAllStep(blocks: seq<ContentBlock>, i: nat)
    requires i < |blocks|
    ensures RewriteAll(blocks[i..]) == Rewrite(blocks[i]) + RewriteAll(blocks[i + 1..])
  {
    assert blocks[i..][1..] == blocks[i + 1..];
  }

  /** The normal form every API but Anthropic's receives. */
  function Normalized(blocks: seq<ContentBlock>): seq<ContentBlock> {
    Merged(RewriteAll(blocks))
  }

  function Transformed(blocks: seq<ContentBlock>, toApi: Api): seq<ContentBlock> {
    if toApi.AnthropicMessages? then blocks else Normalized(blocks)
  }

  method TransformContentBlocks(blocks: seq<ContentBlock>, toApi: Api) returns (result: seq<ContentBlock>)
    ensures result == Transformed(blocks, toApi)
  {
    if toApi.AnthropicMessages? {
      return blocks;
    }
    var transformed: seq<ContentBlock> := [];
    var i := 0;
    while i < |blocks|
      invariant 0 <= i <= |blocks|
      invariant RewriteAll(blocks) == transformed + RewriteAll(blocks[i..])
    {
      var block := blocks[i];
      RewriteAllStep(blocks, i);
      ConcatAssociative(transformed, Rewrite(block), RewriteAll(blocks[i + 1..]));
      ghost var before := transformed;
      match block {
        case Thinking(thinking, _, _) =>
          transformed := transformed + [PlainBlock(ThinkingAsText(thinking))];
        case Unknown(json) =>
          var text := Json.Get(json, "text");
          if text.Some? && text.value.Str? {
            transformed := transformed + [PlainBlock(text.value.s)];
          }
        case _ =>
          transformed := transformed + [block];
      }
      assert transformed == before + Rewrite(block);
      i := i + 1;
    }
    result := MergeAdjacentTextBlocks(transformed);
    assert blocks[i..] == [];
    assert transformed + [] == transformed;
  }

  function TransformMessage(m: Message, toApi: Api): Message {
    if m.Assistant?
    then Assistant(m.assistant.(api := toApi, content := Transformed(m.assistant.content, toApi)))
    else m
  }

  /** The source API is accepted but plays no part. */
  function TransformForProvider(messages: seq<Message>, fromApi: Api, toApi: Api): (r: seq<Message>)
    ensures |r| == |messages|
    ensures forall i :: 0 <= i < |messages| ==> r[i] == TransformMessage(messages[i], toApi)
  {
    seq(|messages|, i requires 0 <= i < |messages| => TransformMessage(messages[i], toApi))
  }
}
