/** Laws of model switching: which provider an agent ends up with, and when a deferred switch
    leaves the history in the form an immediate one would have. */
module ModelSwitchLaws {
  import opened Wrappers
  import opened Messages
  import opened ModelSwitch

  // ---- The provider follows the model

  /** The provider the next run will use. */
  function Effective(s: State): Provider {
    if s.pending.Some? then s.pending.value.provider else s.provider
  }

  /** The last model asked for: its id and the provider that serves it. */
  datatype Selection = Selection(modelId: string, provider: Provider)

  ghost function Selected(res: Resolver, last: Selection, steps: seq<Step>): Selection
    decreases |steps|
  {
    if steps == [] then last
    else Selected(res, if steps[0].Switch? then Select(res, last, steps[0].request) else last, steps[1..])
  }

  ghost function Select(res: Resolver, last: Selection, request: Request): Selection {
    match Lookup(res, request)
    case None => last
    case Some((_, provider)) => Selection(RequestedId(request), provider)
  }

  ghost predicate Follows(s: State, selection: Selection) {
    s.modelId == selection.modelId && Effective(s) == selection.provider
  }

  /** No switch succeeds between the moment a run has applied the deferred switch and the moment
      its guard is dropped. */
  ghost predicate NoSwitchWhileSettled(res: Resolver, s: State, steps: seq<Step>)
    decreases |steps|
  {
    steps != [] ==>
      && (steps[0].Switch? && s.phase.Settled? ==> Lookup(res, steps[0].request).None?)
      && NoSwitchWhileSettled(res, After(res, s, steps[0]), steps[1..])
  }

  ghost predicate Clean(s: State) {
    s.phase.Running? || s.pending.None?
  }

  /** Whatever the switches, runs and errors: the model id and the provider the next run will use
      are those of the last model asked for, and nothing is pending when the agent is idle. */
  lemma {:induction false} ProviderFollowsModel(res: Resolver, s: State, steps: seq<Step>, last: Selection)
    requires Clean(s) && Follows(s, last) && NoSwitchWhileSettled(res, s, steps)
    ensures Clean(Run(res, s, steps)) && Follows(Run(res, s, steps), Selected(res, last, steps))
    ensures Run(res, s, steps).phase.Idle? ==> Run(res, s, steps).pending.None?
    decreases |steps|
  {
    if steps != [] {
      var next := if steps[0].Switch? then Select(res, last, steps[0].request) else last;
      ProviderFollowsModel(res, After(res, s, steps[0]), steps[1..], next);
    }
  }

  /** The guard is dropped with nothing pending exactly when no switch succeeded in between. */
  lemma {:induction false} ReleaseIsCleanExactly(res: Resolver, s: State, requests: seq<Request>)
    requires s.phase.Settled? && s.pending.None?
    ensures After(res, SwitchAll(res, s, requests), Release).pending.None?
            <==> forall i :: 0 <= i < |requests| ==> Lookup(res, requests[i]).None?
    ensures SwitchAll(res, s, requests).phase == s.phase
    decreases |requests|
  {
    if requests != [] {
      var front, last := requests[..|requests| - 1], requests[|requests| - 1];
      ReleaseIsCleanExactly(res, s, front);
      assert forall i :: 0 <= i < |front| ==> front[i] == requests[i];
    }
  }

  /** Several switches one after the other. */
  ghost function SwitchAll(res: Resolver, s: State, requests: seq<Request>): State
    decreases |requests|
  {
    if requests == [] then s
    else AfterSwitch(res, SwitchAll(res, s, requests[..|requests| - 1]), requests[|requests| - 1])
  }

  /** A step makes the provider stop following the model exactly when it is a switch of an idle
      agent that still holds a pending switch to another provider. */
  lemma StepBreaksFollowingExactly(res: Resolver, s: State, step: Step, last: Selection)
    requires Follows(s, last)
    ensures var next := if step.Switch? then Select(res, last, step.request) else last;
            Follows(After(res, s, step), next)
            <==> !(&& step.Switch? && s.phase.Idle? && s.pending.Some?
                   && Lookup(res, step.request).Some? && Lookup(res, step.request).value.1 != s.pending.value.provider)
  {
  }

  /** A switch in that gap is left pending. A later switch while idle takes effect at once, but
      the end of the next run then puts the earlier provider back under the later model id. */
  lemma StaleSwitchOverridesLater(res: Resolver, s: State, first: Request, second: Request, prompt: Message)
    requires s.phase.Settled? && s.pending.None?
    requires Lookup(res, first).Some? && Lookup(res, second).Some?
    requires Lookup(res, first).value.1 != Lookup(res, second).value.1
    ensures var released := After(res, After(res, s, Switch(first)), Release);
            var chosen := After(res, released, Switch(second));
            var end := After(res, After(res, After(res, chosen, Begin(prompt)), Finish(None)), Release);
            && released.phase.Idle? && released.pending.Some?
            && chosen.provider == Lookup(res, second).value.1
            && end.phase.Idle? && end.modelId == RequestedId(second) && end.provider == Lookup(res, first).value.1
  {
  }

  // ---- Switches deferred during a run

  /** The id current before the last of these switches. */
  ghost function IdBeforeLast(s: State, requests: seq<Request>): string
    requires requests != []
  {
    if |requests| == 1 then s.modelId else RequestedId(requests[|requests| - 2])
  }

  /** Deferred switches leave the running provider and the history alone, and only the last one is
      remembered. */
  lemma {:induction false} DeferredSwitches(res: Resolver, s: State, requests: seq<Request>)
    requires s.phase.Running? && requests != []
    requires forall i :: 0 <= i < |requests| ==> Lookup(res, requests[i]).Some?
    ensures var r := SwitchAll(res, s, requests);
            var last := requests[|requests| - 1];
            var (model, provider) := Lookup(res, last).value;
            var oldApi := ApiOf(res, IdBeforeLast(s, requests));
            && r.phase == s.phase && r.provider == s.provider && r.messages == s.messages
            && r.modelId == RequestedId(last)
            && r.pending == Some(Pending(RequestedId(last), provider, oldApi != model.api, oldApi, model.api))
    decreases |requests|
  {
    var front := requests[..|requests| - 1];
    assert forall i :: 0 <= i < |front| ==> front[i] == requests[i];
    if front == [] {
      assert SwitchAll(res, s, front) == s;
    } else {
      DeferredSwitches(res, s, front);
    }
  }

  /** The history after a run with deferred switches. */
  ghost function AfterRun(res: Resolver, s: State, requests: seq<Request>, loop: seq<Message>): seq<Message> {
    After(res, SwitchAll(res, s, requests), Finish(Some(loop))).messages
  }

  /** The history an immediate switch to the last model would have left. */
  ghost function Immediate(res: Resolver, s: State, requests: seq<Request>, loop: seq<Message>): seq<Message>
    requires requests != [] && Lookup(res, requests[|requests| - 1]).Some?
  {
    var model := Lookup(res, requests[|requests| - 1]).value.0;
    var oldApi := ApiOf(res, s.modelId);
    TransformIf(oldApi != model.api, loop, oldApi, model.api)
  }

  /** After a run the history is transformed exactly when the last model asked for differs in API
      from the one asked for just before it. */
  lemma AfterRunMeaning(res: Resolver, s: State, requests: seq<Request>, loop: seq<Message>)
    requires s.phase.Running? && requests != []
    requires forall i :: 0 <= i < |requests| ==> Lookup(res, requests[i]).Some?
    ensures var model := Lookup(res, requests[|requests| - 1]).value.0;
            var oldApi := ApiOf(res, IdBeforeLast(s, requests));
            AfterRun(res, s, requests, loop) == TransformIf(oldApi != model.api, loop, oldApi, model.api)
  {
    DeferredSwitches(res, s, requests);
  }

  /** An assistant message of the other API, which a transformation always changes. */
  ghost function Witness(toApi: Api): Message {
    var other := if toApi.AnthropicMessages? then OpenAiResponses else AnthropicMessages;
    Assistant(AssistantMessage([], other, "", "", Usage(0, 0, 0, 0, 0), Stop, None, None, 0))
  }

  lemma TransformChangesWitness(fromApi: Api, otherFrom: Api, toApi: Api)
    ensures TransformForProvider([Witness(toApi)], fromApi, toApi) != [Witness(toApi)]
    ensures TransformForProvider([Witness(toApi)], fromApi, toApi)
            == TransformForProvider([Witness(toApi)], otherFrom, toApi)
  {
    assert TransformForProvider([Witness(toApi)], fromApi, toApi)[0] == TransformMessage(Witness(toApi), toApi);
  }

  /** A run leaves the history as an immediate switch to its final model would, whatever the history,
      exactly when the last two models asked for differ in API just if the first and the last do. */
  lemma DeferredMatchesImmediateExactly(res: Resolver, s: State, requests: seq<Request>)
    requires s.phase.Running? && requests != []
    requires forall i :: 0 <= i < |requests| ==> Lookup(res, requests[i]).Some?
    ensures var api := Lookup(res, requests[|requests| - 1]).value.0.api;
            (forall loop :: AfterRun(res, s, requests, loop) == Immediate(res, s, requests, loop))
            <==> ((ApiOf(res, IdBeforeLast(s, requests)) != api) <==> (ApiOf(res, s.modelId) != api))
  {
    var api := Lookup(res, requests[|requests| - 1]).value.0.api;
    var before, start := ApiOf(res, IdBeforeLast(s, requests)), ApiOf(res, s.modelId);
    forall loop
      ensures AfterRun(res, s, requests, loop) == TransformIf(before != api, loop, before, api)
    {
      AfterRunMeaning(res, s, requests, loop);
    }
    if (before != api) <==> (start != api) {
      forall loop
        ensures AfterRun(res, s, requests, loop) == Immediate(res, s, requests, loop)
      {
        SourceApiUnused(loop, before, start, api);
      }
    } else {
      TransformChangesWitness(before, start, api);
      var loop := [Witness(api)];
      assert AfterRun(res, s, requests, loop) != Immediate(res, s, requests, loop);
    }
  }

  lemma SourceApiUnused(messages: seq<Message>, fromApi: Api, otherFrom: Api, toApi: Api)
    ensures TransformForProvider(messages, fromApi, toApi) == TransformForProvider(messages, otherFrom, toApi)
  {
  }

  /** A run that sees one switch always matches. */
  lemma OneSwitchMatches(res: Resolver, s: State, request: Request, loop: seq<Message>)
    requires s.phase.Running? && Lookup(res, request).Some?
    ensures AfterRun(res, s, [request], loop) == Immediate(res, s, [request], loop)
  {
    DeferredMatchesImmediateExactly(res, s, [request]);
  }

  /** Two switches within one run, the second to another model of the first one's API, leave the
      history of the old API untransformed. */
  lemma SecondSwitchHidesFirst(res: Resolver, s: State, first: Request, second: Request)
    requires s.phase.Running? && Lookup(res, first).Some? && Lookup(res, second).Some?
    requires var api := Lookup(res, second).value.0.api;
             ApiOf(res, RequestedId(first)) == api && ApiOf(res, s.modelId) != api
    ensures var api := Lookup(res, second).value.0.api;
            var loop := [Witness(api)];
            AfterRun(res, s, [first, second], loop) == loop && Immediate(res, s, [first, second], loop) != loop
  {
    var api := Lookup(res, second).value.0.api;
    AfterRunMeaning(res, s, [first, second], [Witness(api)]);
    TransformChangesWitness(ApiOf(res, s.modelId), api, api);
  }
}
