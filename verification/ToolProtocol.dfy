/** The tool-call protocol of a conversation: a result answers a call of the assistant message
    before it, with only other results in between, and no call is answered twice. */
module ToolProtocol {
  import opened Wrappers
  import opened Messages

  function IsCall(block: ContentBlock): bool {
    block.ToolCall?
  }

  predicate HasToolCalls(m: Message) {
    m.Assistant? && exists i :: 0 <= i < |m.assistant.content| && IsCall(m.assistant.content[i])
  }

  function CallIds(m: Message): set<string> {
    if m.Assistant?
    then set i | 0 <= i < |m.assistant.content| && IsCall(m.assistant.content[i]) :: m.assistant.content[i].id
    else {}
  }

  /** The calls that can still be answered, after one more message. */
  function Step(open: set<string>, m: Message): Option<set<string>> {
    match m
    case User(_) => Some({})
    case Assistant(_) => Some(CallIds(m))
    case ToolResult(r) => if r.toolCallId in open then Some(open - {r.toolCallId}) else None
  }

  function RunFrom(open: set<string>, h: seq<Message>): Option<set<string>>
    decreases |h|
  {
    if h == [] then Some(open)
    else
      match Step(open, h[0])
      case None => None
      case Some(next) => RunFrom(next, h[1..])
  }

  predicate WellFormed(h: seq<Message>) {
    RunFrom({}, h).Some?
  }

  function Outstanding(h: seq<Message>): set<string>
    requires WellFormed(h)
  {
    RunFrom({}, h).value
  }

  lemma {:induction false} RunConcat(open: set<string>, a: seq<Message>, b: seq<Message>)
    ensures RunFrom(open, a + b)
            == (match RunFrom(open, a) case None => None case Some(next) => RunFrom(next, b))
    decreases |a|
  {
    if a == [] {
      assert a + b == b;
    } else {
      assert (a + b)[1..] == a[1..] + b;
      if Step(open, a[0]).Some? {
        RunConcat(Step(open, a[0]).value, a[1..], b);
      }
    }
  }

  lemma RunSnoc(h: seq<Message>, m: Message)
    ensures RunFrom({}, h + [m]) == (if WellFormed(h) then Step(Outstanding(h), m) else None)
  {
    RunConcat({}, h, [m]);
    assert [m][1..] == [];
  }

  // ---- The same protocol said of positions

  ghost predicate IsResultFor(m: Message, id: string) {
    m.ToolResult? && m.result.toolCallId == id
  }

  /** Message `i` issues call `id`, and up to `j` there are only results, none of them for `id`. */
  ghost predicate Awaits(h: seq<Message>, i: int, j: int, id: string) {
    && 0 <= i < j <= |h|
    && h[i].Assistant? && id in CallIds(h[i])
    && forall k :: i < k < j ==> h[k].ToolResult? && !IsResultFor(h[k], id)
  }

  ghost predicate Awaited(h: seq<Message>, j: int, id: string) {
    exists i :: Awaits(h, i, j, id)
  }

  ghost predicate EveryResultAnswers(h: seq<Message>) {
    forall j :: 0 <= j < |h| && h[j].ToolResult? ==> Awaited(h, j, h[j].result.toolCallId)
  }

  lemma AwaitedPrefix(h: seq<Message>, m: Message, j: int, id: string)
    requires j <= |h|
    ensures Awaited(h + [m], j, id) <==> Awaited(h, j, id)
  {
    var g := h + [m];
    assert forall k :: 0 <= k < |h| ==> g[k] == h[k];
    assert forall i :: Awaits(h, i, j, id) <==> Awaits(g, i, j, id);
  }

  lemma AwaitedSnoc(h: seq<Message>, m: Message, id: string)
    ensures Awaited(h + [m], |h| + 1, id)
            <==> if m.ToolResult? then !IsResultFor(m, id) && Awaited(h, |h|, id)
                 else m.Assistant? && id in CallIds(m)
  {
    var g, n := h + [m], |h| + 1;
    assert g[|h|] == m && forall k :: 0 <= k < |h| ==> g[k] == h[k];
    if Awaited(g, n, id) {
      var i :| Awaits(g, i, n, id);
      if i < |h| {
        assert g[|h|].ToolResult?;
        assert Awaits(h, i, |h|, id);
      }
    }
    if m.ToolResult? {
      if !IsResultFor(m, id) && Awaited(h, |h|, id) {
        var i :| Awaits(h, i, |h|, id);
        assert Awaits(g, i, n, id);
      }
    } else if m.Assistant? && id in CallIds(m) {
      assert Awaits(g, |h|, n, id);
    }
  }

  lemma AnswersSnoc(h: seq<Message>, m: Message)
    ensures EveryResultAnswers(h + [m])
            <==> EveryResultAnswers(h) && (m.ToolResult? ==> Awaited(h, |h|, m.result.toolCallId))
  {
    var g := h + [m];
    forall j: int, id | j <= |h|
      ensures Awaited(g, j, id) <==> Awaited(h, j, id)
    {
      AwaitedPrefix(h, m, j, id);
    }
    assert g[|h|] == m && forall j :: 0 <= j < |h| ==> g[j] == h[j];
  }

  /** The automaton accepts exactly the histories in which every result answers a call awaiting
      it, and its state is the set of calls still awaiting a result. */
  lemma {:induction false} ProtocolMeaning(h: seq<Message>)
    ensures WellFormed(h) <==> EveryResultAnswers(h)
    ensures WellFormed(h) ==> forall id :: id in Outstanding(h) <==> Awaited(h, |h|, id)
    decreases |h|
  {
    if h == [] {
      assert forall id :: !Awaited(h, 0, id);
    } else {
      var front, m := h[..|h| - 1], h[|h| - 1];
      assert h == front + [m];
      ProtocolMeaning(front);
      RunSnoc(front, m);
      AnswersSnoc(front, m);
      forall id
        ensures Awaited(h, |h|, id)
                <==> if m.ToolResult? then !IsResultFor(m, id) && Awaited(front, |front|, id)
                     else m.Assistant? && id in CallIds(m)
      {
        AwaitedSnoc(front, m, id);
      }
    }
  }
}
