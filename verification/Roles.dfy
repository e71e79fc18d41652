/** Role registry: role names mapped to comma-separated model patterns, where `pi/<role>[:level]`
    stands for another role. */
module Roles {
  import opened Wrappers
  import opened Sequences
  import opened Strings
  import opened AliasGraph

  type Registry = map<string, string>

  const ROLE_ALIAS_PREFIX: string := "pi/"
  const DEFAULT_ROLE: string := "default"

  predicate IsThinkingLevel(s: string) {
    s == "off" || s == "minimal" || s == "low" || s == "medium" || s == "high" || s == "xhigh"
  }

  datatype ModelRole =
    Default | Smol | Slow | Vision | Plan | Designer | Commit | Title | Task | Advisor
  {
    function AsStr(): string {
      match this
      case Default => "default"
      case Smol => "smol"
      case Slow => "slow"
      case Vision => "vision"
      case Plan => "plan"
      case Designer => "designer"
      case Commit => "commit"
      case Title => "title"
      case Task => "task"
      case Advisor => "advisor"
    }

    static function FromId(s: string): (r: Option<ModelRole>)
      ensures forall role: ModelRole :: r == Some(role) <==> role.AsStr() == s
    {
      if s == "default" then Some(Default)
      else if s == "smol" then Some(Smol)
      else if s == "slow" then Some(Slow)
      else if s == "vision" then Some(Vision)
      else if s == "plan" then Some(Plan)
      else if s == "designer" then Some(Designer)
      else if s == "commit" then Some(Commit)
      else if s == "title" then Some(Title)
      else if s == "task" then Some(Task)
      else if s == "advisor" then Some(Advisor)
      else None
    }
  }

  /** The ids an alias can name. */
  function BuiltinIds(): (ids: set<string>)
  {
    set role: ModelRole | true :: role.AsStr()
  }

  lemma BuiltinId(s: string)
    ensures s in BuiltinIds() <==> ModelRole.FromId(s).Some?
  {
    if ModelRole.FromId(s).Some? {
      assert ModelRole.FromId(s).value.AsStr() == s;
    }
  }

  // ---- Pattern syntax

  /** The role named by `pi/<built-in role>`; any other text is not an alias. */
  function ParseRoleAlias(value: string): Option<string> {
    var normalized := Trim(value);
    if ROLE_ALIAS_PREFIX <= normalized && ModelRole.FromId(normalized[|ROLE_ALIAS_PREFIX|..]).Some?
    then Some(normalized[|ROLE_ALIAS_PREFIX|..])
    else None
  }

  /** Position of the last `:`, or the length when there is none. */
  function LastColon(s: string): (i: nat)
    ensures i <= |s|
    ensures i < |s| ==> s[i] == ':' && forall k :: i < k < |s| ==> s[k] != ':'
    ensures i == |s| ==> ':' !in s
  {
    if s == [] then 0
    else if s[|s| - 1] == ':' then |s| - 1
    else
      var front := s[..|s| - 1];
      assert s == front + [s[|s| - 1]];
      var i := LastColon(front);
      if i == |front| then |s| else i
  }

  function SplitThinkingSuffix(pattern: string): (string, Option<string>) {
    var i := LastColon(pattern);
    if i < |pattern| && IsThinkingLevel(pattern[i + 1..])
    then (pattern[..i], Some(pattern[i + 1..]))
    else (pattern, None)
  }

  function KeepNonEmptyTrimmed(parts: seq<string>): seq<string> {
    if parts == [] then []
    else (if Trim(parts[0]) == [] then [] else [Trim(parts[0])]) + KeepNonEmptyTrimmed(parts[1..])
  }

  function NormalizePatternList(value: string): seq<string> {
    KeepNonEmptyTrimmed(Split(value, ','))
  }

  predicate InheritsDefault(role: string) {
    role in {"smol", "slow", "designer"}
  }

  /** What one pattern stands for. */
  function Classify(pattern: string): (e: Entry)
    ensures e.Alias? ==> e.role in BuiltinIds()
  {
    var normalized := Trim(pattern);
    if normalized == [] then Blank
    else
      var (base, level) := SplitThinkingSuffix(normalized);
      match ParseRoleAlias(base)
      case None => Concrete(normalized)
      case Some(role) => BuiltinId(role); Alias(role, level)
  }

  /** The patterns a role starts from: its own value, or for the inheriting roles the value of
      `default` (without `default` becoming visited). */
  function Raw(reg: Registry, role: string): seq<string> {
    if role in reg then NormalizePatternList(reg[role])
    else if InheritsDefault(role) && DEFAULT_ROLE in reg then NormalizePatternList(reg[DEFAULT_ROLE])
    else []
  }

  function Entries(raw: seq<string>): (r: seq<Entry>)
    ensures |r| == |raw|
    ensures forall i :: 0 <= i < |raw| ==> r[i] == Classify(raw[i])
  {
    seq(|raw|, i requires 0 <= i < |raw| => Classify(raw[i]))
  }

  ghost function GraphOf(reg: Registry): (g: Graph)
    ensures Closed(g)
    ensures g.ids == BuiltinIds()
  {
    Graph(BuiltinIds(), EntriesOf(reg))
  }

  ghost function EntriesOf(reg: Registry): (f: string -> seq<Entry>)
    ensures forall role :: f(role) == Entries(Raw(reg, role))
  {
    role => Entries(Raw(reg, role))
  }

  lemma GraphEntries(reg: Registry, role: string)
    ensures GraphOf(reg).entries(role) == Entries(Raw(reg, role))
  {
  }

  /** What `resolve` returns: the texts the walk meets, in order. */
  ghost function Resolved(reg: Registry, role: string): seq<string> {
    Expand(GraphOf(reg), role, {}).texts
  }

  class RoleRegistry {
    var roles: map<string, string>

    constructor ()
      ensures roles == map[]
    {
      roles := map[];
    }

    method Set(role: string, model: string)
      modifies this
      ensures roles == old(roles)[role := model]
    {
      roles := roles[role := model];
    }

    method Resolve(role: string) returns (resolved: seq<string>)
      ensures resolved == Resolved(roles, role)
    {
      var visited: set<string> := {};
      resolved, visited := ResolveRole(role, visited);
    }

    /** `visited` is the shared set on entry, `visited'` what the call leaves in it. */
    method ResolveRole(role: string, visited: set<string>) returns (resolved: seq<string>, visited': set<string>)
      ensures Expansion(resolved, visited') == Expand(GraphOf(roles), role, visited)
      decreases Rank(GraphOf(roles), visited), if role in BuiltinIds() then 0 else 2, 0
    {
      hide BuiltinIds, Classify, Raw, Rank, Closed, GraphOf, Walk;
      ghost var g := GraphOf(roles);
      GraphEntries(roles, role);
      if role in visited {
        return [], visited;
      }
      visited' := visited + {role};
      RankMonotone(g, visited, visited');

      var raw := Raw(roles, role);
      resolved := [];
      var i := 0;
      while i < |raw|
        invariant 0 <= i <= |raw|
        invariant visited + {role} <= visited'
        invariant Expand(g, role, visited).texts == resolved + ExpandFrom(g, role, i, visited').texts
        invariant Expand(g, role, visited).visited == ExpandFrom(g, role, i, visited').visited
      {
        RankMonotone(g, visited + {role}, visited');
        var expanded;
        expanded, visited' := ExpandPattern(raw[i], visited');
        i := i + 1;
        ConcatAssociative(resolved, expanded, ExpandFrom(g, role, i, visited').texts);
        resolved := resolved + expanded;
      }
      // Every role's built-in default chain is empty, so an empty result stays empty.
    }

    method ExpandPattern(pattern: string, visited: set<string>) returns (expanded: seq<string>, visited': set<string>)
      ensures Expansion(expanded, visited') == ExpandEntry(GraphOf(roles), Classify(pattern), visited)
      decreases Rank(GraphOf(roles), visited), 1, 0
    {
      hide Rank, Closed, GraphOf, Trim, SplitThinkingSuffix;
      var normalized := Trim(pattern);
      if normalized == [] {
        return [], visited;
      }
      var (base, thinkingLevel) := SplitThinkingSuffix(normalized);
      match ParseRoleAlias(base)
      case None =>
        expanded, visited' := [normalized], visited;
      case Some(alias) =>
        BuiltinId(alias);
        expanded, visited' := ResolveRole(alias, visited);
        assert expanded == WithLevels(expanded, None);
        if thinkingLevel.Some? {
          expanded := WithLevels(expanded, thinkingLevel);
        }
    }
  }
}
