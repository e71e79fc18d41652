/** Switching the model of an agent, at once when it is idle and deferred while it runs. Each call
    is one step. A run ends in two: it settles its state and applies the deferred switch, and
    then its guard is dropped. */
module ModelSwitch {
  import opened Wrappers
  import opened Messages

  datatype Model = Model(provider: string, id: string, api: Api, contextWindow: nat)

  /** A provider handle, told apart by the name it was resolved from. */
  datatype Provider = Provider(name: string)

  datatype Resolver = Resolver(resolveModel: string -> Option<Model>, resolveProvider: string -> Option<Provider>)

  datatype Pending = Pending(modelId: string, provider: Provider, needsTransform: bool, oldApi: Api, newApi: Api)

  datatype Phase = Idle | Running | Settled

  datatype State = State(
    modelId: string, provider: Provider, contextWindow: nat, messages: seq<Message>,
    pending: Option<Pending>, phase: Phase)

  /** By id, to be looked up, or by a model the caller has already looked up. */
  datatype Request = ById(modelId: string) | ByModel(model: Model)

  function RequestedId(request: Request): string {
    match request
    case ById(modelId) => modelId
    case ByModel(model) => model.provider + "/" + model.id
  }

  function RequestedModel(res: Resolver, request: Request): Option<Model> {
    match request
    case ById(modelId) => res.resolveModel(modelId)
    case ByModel(model) => Some(model)
  }

  /** The model and its provider, if both are known. */
  function Lookup(res: Resolver, request: Request): Option<(Model, Provider)> {
    match RequestedModel(res, request)
    case None => None
    case Some(model) =>
      match res.resolveProvider(model.provider)
      case None => None
      case Some(provider) => Some((model, provider))
  }

  /** The API of the model with this id; Anthropic's when the id is unknown. */
  function ApiOf(res: Resolver, modelId: string): Api {
    match res.resolveModel(modelId)
    case None => AnthropicMessages
    case Some(model) => model.api
  }

  function Window(contextWindow: nat, model: Model): nat {
    if model.contextWindow == 0 then contextWindow else model.contextWindow
  }

  function TransformIf(needed: bool, messages: seq<Message>, fromApi: Api, toApi: Api): seq<Message> {
    if needed then TransformForProvider(messages, fromApi, toApi) else messages
  }

  /** The state after a switch whose model and provider are known. */
  function Switched(res: Resolver, s: State, id: string, model: Model, provider: Provider): State {
    var oldApi := ApiOf(res, s.modelId);
    var needed := oldApi != model.api;
    var window := Window(s.contextWindow, model);
    if !s.phase.Idle?
    then s.(pending := Some(Pending(id, provider, needed, oldApi, model.api)), modelId := id, contextWindow := window)
    else
      s.(messages := TransformIf(needed, s.messages, oldApi, model.api), modelId := id,
         provider := provider, contextWindow := window)
  }

  function AfterSwitch(res: Resolver, s: State, request: Request): State {
    match Lookup(res, request)
    case None => s
    case Some((model, provider)) => Switched(res, s, RequestedId(request), model, provider)
  }

  function AfterApply(s: State): State {
    match s.pending
    case None => s
    case Some(p) =>
      s.(messages := TransformIf(p.needsTransform, s.messages, p.oldApi, p.newApi),
         provider := p.provider, pending := None)
  }

  class Agent {
    const resolver: Resolver
    var modelId: string
    var provider: Provider
    var contextWindow: nat
    var messages: seq<Message>
    var pendingModelSwitch: Option<Pending>
    var phase: Phase

    function View(): State
      reads this
    {
      State(modelId, provider, contextWindow, messages, pendingModelSwitch, phase)
    }

    constructor (resolver: Resolver, modelId: string, provider: Provider, contextWindow: nat)
      ensures this.resolver == resolver
      ensures var resolved := resolver.resolveModel(modelId);
              var window := if resolved.Some? then Window(contextWindow, resolved.value) else contextWindow;
              View() == State(modelId, provider, window, [], None, Idle)
    {
      this.resolver := resolver;
      this.modelId, this.provider := modelId, provider;
      var resolved := resolver.resolveModel(modelId);
      if resolved.Some? && resolved.value.contextWindow > 0 {
        this.contextWindow := resolved.value.contextWindow;
      } else {
        this.contextWindow := contextWindow;
      }
      messages, pendingModelSwitch, phase := [], None, Idle;
    }

    method SwitchModel(id: string) returns (ok: bool)
      modifies this
      ensures ok == Lookup(resolver, ById(id)).Some?
      ensures View() == AfterSwitch(resolver, old(View()), ById(id))
    {
      var newModel := resolver.resolveModel(id);
      if newModel.None? {
        return false;
      }
      var newProvider := resolver.resolveProvider(newModel.value.provider);
      if newProvider.None? {
        return false;
      }
      SwitchResolved(id, newModel.value, newProvider.value);
      ok := true;
    }

    method SwitchToModel(model: Model) returns (ok: bool)
      modifies this
      ensures ok == Lookup(resolver, ByModel(model)).Some?
      ensures View() == AfterSwitch(resolver, old(View()), ByModel(model))
    {
      var id := model.provider + "/" + model.id;
      var newProvider := resolver.resolveProvider(model.provider);
      if newProvider.None? {
        return false;
      }
      SwitchResolved(id, model, newProvider.value);
      ok := true;
    }

    /** The part both ways of switching share. */
    method SwitchResolved(id: string, newModel: Model, newProvider: Provider)
      modifies this
      ensures View() == Switched(resolver, old(View()), id, newModel, newProvider)
    {
      var current := resolver.resolveModel(modelId);
      var oldApi := if current.Some? then current.value.api else AnthropicMessages;
      var needsTransform := oldApi != newModel.api;
      if phase != Idle {
        pendingModelSwitch := Some(Pending(id, newProvider, needsTransform, oldApi, newModel.api));
        modelId := id;
        ApplyContextWindow(newModel.contextWindow);
        return;
      }
      if needsTransform {
        messages := TransformForProvider(messages, oldApi, newModel.api);
      }
      modelId := id;
      provider := newProvider;
      ApplyContextWindow(newModel.contextWindow);
    }

    method ApplyContextWindow(window: nat)
      modifies this`contextWindow
      ensures contextWindow == if window == 0 then old(contextWindow) else window
    {
      if window == 0 {
        return;
      }
      contextWindow := window;
    }

    method ApplyPendingModelSwitch()
      modifies this
      ensures View() == AfterApply(old(View()))
    {
      var pending := pendingModelSwitch;
      pendingModelSwitch := None;
      if pending.Some? {
        if pending.value.needsTransform {
          messages := TransformForProvider(messages, pending.value.oldApi, pending.value.newApi);
        }
        provider := pending.value.provider;
      }
    }

    /** Start a run, unless one is under way. */
    method BeginRun(prompt: Message) returns (ok: bool)
      modifies this
      ensures ok == old(phase).Idle?
      ensures View() == After(resolver, old(View()), Begin(prompt))
    {
      if phase != Idle {
        return false;
      }
      phase := Running;
      messages := messages + [prompt];
      ok := true;
    }

    /** The loop is over: take over its messages unless it failed, then apply a deferred switch. */
    method FinishRun(result: Option<seq<Message>>)
      requires phase == Running
      modifies this
      ensures View() == After(resolver, old(View()), Finish(result))
    {
      if result.Some? {
        messages := result.value;
      }
      ApplyPendingModelSwitch();
      phase := Settled;
    }

    /** The guard is dropped. */
    method ReleaseRun()
      requires phase == Settled
      modifies this
      ensures View() == After(resolver, old(View()), Release)
    {
      phase := Idle;
    }
  }

  // ---- Traces

  datatype Step = Switch(request: Request) | Begin(prompt: Message) | Finish(result: Option<seq<Message>>) | Release

  /** The state after a step; a step that does not apply changes nothing. */
  function After(res: Resolver, s: State, step: Step): State {
    match step
    case Switch(request) => AfterSwitch(res, s, request)
    case Begin(prompt) => if s.phase.Idle? then s.(phase := Running, messages := s.messages + [prompt]) else s
    case Finish(result) =>
      if s.phase.Running?
      then AfterApply(if result.Some? then s.(messages := result.value) else s).(phase := Settled)
      else s
    case Release => if s.phase.Settled? then s.(phase := Idle) else s
  }

  function Run(res: Resolver, s: State, steps: seq<Step>): State
    decreases |steps|
  {
    if steps == [] then s else Run(res, After(res, s, steps[0]), steps[1..])
  }
}
