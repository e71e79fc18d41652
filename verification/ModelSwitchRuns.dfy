/** What a switch of an idle agent and a whole run with deferred switches leave behind, and which
    context window an agent ends up with. */
module ModelSwitchRuns {
  import opened Wrappers
  import opened Messages
  import opened ModelSwitch
  import opened ModelSwitchLaws

  // ---- What a request asks for

  ghost predicate Asks(request: Request, id: string) {
    match request
    case ById(modelId) => id == modelId
    case ByModel(model) => id == model.provider + "/" + model.id
  }

  ghost predicate Finds(res: Resolver, request: Request, model: Model, provider: Provider) {
    && (match request
        case ById(modelId) => res.resolveModel(modelId) == Some(model)
        case ByModel(m) => m == model)
    && res.resolveProvider(model.provider) == Some(provider)
  }

  lemma LookupFinds(res: Resolver, request: Request, model: Model, provider: Provider)
    ensures Lookup(res, request) == Some((model, provider)) <==> Finds(res, request, model, provider)
  {
  }

  /** A request that finds no model or no provider changes nothing. */
  lemma UnknownChangesNothing(res: Resolver, s: State, request: Request)
    requires forall model, provider :: !Finds(res, request, model, provider)
    ensures After(res, s, Switch(request)) == s
  {
    if Lookup(res, request).Some? {
      var (model, provider) := Lookup(res, request).value;
      LookupFinds(res, request, model, provider);
    }
  }

  /** The API the history is taken to be in: that of the current model, Anthropic's if unknown. */
  ghost predicate CurrentApi(res: Resolver, s: State, api: Api) {
    match res.resolveModel(s.modelId)
    case None => api == AnthropicMessages
    case Some(model) => api == model.api
  }

  /** An idle agent switches at once: id and provider are the new ones, and the history is rewritten
      for the new API exactly if that differs from the current one. */
  lemma IdleSwitch(res: Resolver, s: State, request: Request, id: string, model: Model, provider: Provider, oldApi: Api)
    requires s.phase.Idle? && Asks(request, id) && Finds(res, request, model, provider) && CurrentApi(res, s, oldApi)
    ensures var r := After(res, s, Switch(request));
            && r.phase.Idle? && r.modelId == id && r.provider == provider && r.pending == s.pending
            && r.messages == (if oldApi == model.api then s.messages
                              else TransformForProvider(s.messages, oldApi, model.api))
            && r.messages == Immediate(res, s, [request], s.messages)
  {
    LookupFinds(res, request, model, provider);
  }

  // ---- A whole run

  ghost function Switches(requests: seq<Request>): (steps: seq<Step>)
    ensures |steps| == |requests| && forall i :: 0 <= i < |requests| ==> steps[i] == Switch(requests[i])
  {
    seq(|requests|, i requires 0 <= i < |requests| => Switch(requests[i]))
  }

  lemma {:induction false} RunConcat(res: Resolver, s: State, a: seq<Step>, b: seq<Step>)
    ensures Run(res, s, a + b) == Run(res, Run(res, s, a), b)
    decreases |a|
  {
    if a == [] {
      assert a + b == b;
    } else {
      assert (a + b)[1..] == a[1..] + b;
      RunConcat(res, After(res, s, a[0]), a[1..], b);
    }
  }

  lemma RunOne(res: Resolver, s: State, step: Step)
    ensures Run(res, s, [step]) == After(res, s, step)
  {
    assert [step][1..] == [];
  }

  lemma {:induction false} SwitchesRun(res: Resolver, s: State, requests: seq<Request>)
    ensures Run(res, s, Switches(requests)) == SwitchAll(res, s, requests)
  {
    hide After, AfterSwitch;
    if requests != [] {
      var front, last := requests[..|requests| - 1], requests[|requests| - 1];
      assert Switches(requests) == Switches(front) + [Switch(last)];
      SwitchesRun(res, s, front);
      RunConcat(res, s, Switches(front), [Switch(last)]);
      RunOne(res, SwitchAll(res, s, front), Switch(last));
      SwitchIsAfter(res, SwitchAll(res, s, front), last);
    }
  }

  lemma SwitchIsAfter(res: Resolver, s: State, request: Request)
    ensures After(res, s, Switch(request)) == AfterSwitch(res, s, request)
  {
  }

  /** A run of an idle agent, with the switches made during it: the history is the loop's, or the
      agent's own with the prompt if the loop failed, rewritten if the last switch asks for it; the
      agent is idle again, serves the model asked for last and has nothing pending. */
  lemma WholeRun(res: Resolver, s: State, prompt: Message, requests: seq<Request>, result: Option<seq<Message>>)
    requires s.phase.Idle? && s.pending.None?
    requires forall i :: 0 <= i < |requests| ==> Lookup(res, requests[i]).Some?
    ensures var end := Run(res, s, [Begin(prompt)] + Switches(requests) + [Finish(result)] + [Release]);
            var history := if result.Some? then result.value else s.messages + [prompt];
            if requests == [] then end == s.(messages := history)
            else
              var last := requests[|requests| - 1];
              var (model, provider) := Lookup(res, last).value;
              var before := ApiOf(res, IdBeforeLast(s, requests));
              && end.phase.Idle? && end.pending.None?
              && end.modelId == RequestedId(last) && end.provider == provider
              && end.messages == if before == model.api then history
                                 else TransformForProvider(history, before, model.api)
  {
    hide Run, SwitchAll;
    var begun := s.(phase := Running, messages := s.messages + [prompt]);
    var switched := SwitchAll(res, begun, requests);
    RunConcat(res, s, [Begin(prompt)] + Switches(requests) + [Finish(result)], [Release]);
    RunConcat(res, s, [Begin(prompt)] + Switches(requests), [Finish(result)]);
    RunConcat(res, s, [Begin(prompt)], Switches(requests));
    RunOne(res, s, Begin(prompt));
    SwitchesRun(res, begun, requests);
    RunOne(res, switched, Finish(result));
    RunOne(res, After(res, switched, Finish(result)), Release);
    if requests == [] {
      NoSwitches(res, begun);
    } else {
      DeferredSwitches(res, begun, requests);
    }
  }

  lemma NoSwitches(res: Resolver, s: State)
    ensures SwitchAll(res, s, []) == s
  {
  }

  /** A second run is refused until the guard of the first is dropped. */
  lemma BusyRefuses(res: Resolver, s: State, prompt: Message)
    ensures After(res, s, Begin(prompt)) == s <==> !s.phase.Idle?
  {
  }

  // ---- The context window

  /** The last window asked for that is not zero, `window` if there is none. */
  ghost function WindowAsked(res: Resolver, window: nat, steps: seq<Step>): nat {
    if steps == [] then window
    else
      var before := WindowAsked(res, window, steps[..|steps| - 1]);
      match steps[|steps| - 1]
      case Switch(request) =>
        if Lookup(res, request).Some? && Lookup(res, request).value.0.contextWindow > 0
        then Lookup(res, request).value.0.contextWindow
        else before
      case _ => before
  }

  /** Over every trace, idle or running, at the end of a run or not. */
  lemma {:induction false} WindowFollowsModel(res: Resolver, s: State, steps: seq<Step>)
    ensures Run(res, s, steps).contextWindow == WindowAsked(res, s.contextWindow, steps)
  {
    if steps != [] {
      var front, last := steps[..|steps| - 1], steps[|steps| - 1];
      assert steps == front + [last];
      WindowFollowsModel(res, s, front);
      RunConcat(res, s, front, [last]);
      RunOne(res, Run(res, s, front), last);
    }
  }
}
