/** Main results about role resolution: what `resolve` returns, and that flattening a role to
    its resolved list changes nothing. */
module RolesFlatten {
  import opened Wrappers
  import opened Sequences
  import opened Strings
  import opened AliasGraph
  import opened AliasWalk
  import opened Roles

  // ---- What resolve returns

  ghost function ResolvedAddresses(reg: Registry, role: string): seq<Address> {
    Walk(GraphOf(reg), role, {}).hits
  }

  /** `resolve` lists, in lexicographic order of position, one text for each concrete pattern of
      each role reachable through aliases: the text found along the least alias path that
      visits no role twice. */
  lemma ResolveMeaning(reg: Registry, role: string)
    ensures Sorted(ResolvedAddresses(reg, role))
    ensures forall a :: a in ResolvedAddresses(reg, role) <==> LeastSimple(GraphOf(reg), role, a)
    ensures forall a :: a in ResolvedAddresses(reg, role) ==> Valid(GraphOf(reg), role, a)
    ensures Resolved(reg, role) == Texts(GraphOf(reg), role, ResolvedAddresses(reg, role))
  {
    var g := GraphOf(reg);
    ExpandIsWalk(g, role, {});
    forall a
      ensures a in ResolvedAddresses(reg, role) <==> LeastSimple(g, role, a)
    {
      WalkIsLeastSimple(g, role, a);
    }
    WalkIsLeastSimple(g, role, []);
  }

  /** The result is as long as the reachable roles have concrete patterns. */
  lemma ResolveCount(reg: Registry, role: string, reachable: set<string>)
    requires forall r :: r in reachable <==> Reachable(GraphOf(reg), role, r)
    ensures |Resolved(reg, role)| == |ConcreteSites(GraphOf(reg), reachable)|
  {
    var g := GraphOf(reg);
    ExpandIsWalk(g, role, {});
    WalkCount(g, role);
    forall r
      ensures r in reachable <==> r in Walk(g, role, {}).visited
    {
      VisitedIsReachable(g, role, r);
    }
    assert reachable == Walk(g, role, {}).visited;
  }

  /** The levels of the aliases along an address, innermost first. */
  ghost function LevelsAlong(g: Graph, role: string, a: Address): string
    requires Valid(g, role, a)
    decreases |a|
  {
    if |a| == 1 then []
    else
      var e := EntryAt(g, role, a[0]);
      LevelsAlong(g, e.role, a[1..]) + (if e.level.Some? then ":" + e.level.value else [])
  }

  lemma {:induction false} TextIsPatternPlusLevels(g: Graph, role: string, a: Address)
    requires Valid(g, role, a)
    ensures var s := SiteOf(g, role, a);
            && EntryAt(g, s.role, s.index).Concrete?
            && Text(g, role, a) == EntryAt(g, s.role, s.index).text + LevelsAlong(g, role, a)
    decreases |a|
  {
    if |a| > 1 {
      var e := EntryAt(g, role, a[0]);
      TextIsPatternPlusLevels(g, e.role, a[1..]);
      assert a[1..][|a| - 2] == a[|a| - 1];
      if e.level.Some? {
        var s := SiteOf(g, role, a);
        ConcatAssociative(EntryAt(g, s.role, s.index).text, LevelsAlong(g, e.role, a[1..]), ":" + e.level.value);
        ConcatAssociative(Text(g, e.role, a[1..]), ":", e.level.value);
      }
    }
  }

  // ---- No resolved pattern is an alias

  /** A pattern that survives splitting, trimming and classification unchanged. */
  ghost predicate Stable(p: string) {
    p != [] && Trimmed(p) && ',' !in p && Classify(p) == Concrete(p)
  }

  lemma TrimTrimmed(s: string)
    requires Trimmed(s)
    ensures Trim(s) == s
  {
  }

  lemma LevelClean(level: string)
    requires IsThinkingLevel(level)
    ensures level != []
    ensures forall c :: c in level ==> 'a' <= c <= 'z'
  {
  }

  lemma RoleClean(role: ModelRole)
    ensures ':' !in role.AsStr()
  {
  }

  lemma LastColonAt(s: string, i: nat)
    requires i < |s| && s[i] == ':' && forall k :: i < k < |s| ==> s[k] != ':'
    ensures LastColon(s) == i
  {
  }

  lemma AliasHasNoColon(p: string)
    requires Trimmed(p) && ParseRoleAlias(p).Some?
    ensures Classify(p).Alias?
  {
    TrimTrimmed(p);
    var id := p[|ROLE_ALIAS_PREFIX|..];
    RoleClean(ModelRole.FromId(id).value);
    assert p == ROLE_ALIAS_PREFIX + id;
    assert ':' !in p;
    assert LastColon(p) == |p|;
  }

  lemma SplitAppended(p: string, level: string)
    requires IsThinkingLevel(level)
    ensures SplitThinkingSuffix(p + ":" + level) == (p, Some(level))
  {
    var q := p + ":" + level;
    LevelClean(level);
    assert forall k :: |p| < k < |q| ==> q[k] == level[k - |p| - 1];
    LastColonAt(q, |p|);
    assert q[|p| + 1..] == level && q[..|p|] == p;
  }

  /** Appending a thinking level never turns a concrete pattern into an alias. */
  lemma StableWithLevel(p: string, level: Option<string>)
    requires Stable(p) && (level.Some? ==> IsThinkingLevel(level.value))
    ensures Stable(WithLevel(p, level))
  {
    if level.Some? {
      LevelClean(level.value);
      TrimmedWithLevel(p, level.value);
      TrimTrimmed(p + ":" + level.value);
      SplitAppended(p, level.value);
      if ParseRoleAlias(p).Some? {
        AliasHasNoColon(p);
      }
    }
  }

  lemma AliasParses(role: ModelRole)
    ensures var p := ROLE_ALIAS_PREFIX + role.AsStr();
            Trimmed(p) && ':' !in p && ParseRoleAlias(p) == Some(role.AsStr())
  {
    var p := ROLE_ALIAS_PREFIX + role.AsStr();
    RoleClean(role);
    AliasTrimmed(role);
    TrimTrimmed(p);
    assert p[|ROLE_ALIAS_PREFIX|..] == role.AsStr();
  }

  lemma AliasTrimmed(role: ModelRole)
    ensures Trimmed(ROLE_ALIAS_PREFIX + role.AsStr())
  {
  }

  /** Every built-in role is reached by its alias, with or without a thinking level. */
  lemma AliasIsRecognized(role: ModelRole, level: Option<string>)
    requires level.Some? ==> IsThinkingLevel(level.value)
    ensures Classify(WithLevel(ROLE_ALIAS_PREFIX + role.AsStr(), level)) == Alias(role.AsStr(), level)
  {
    hide ModelRole.AsStr, IsThinkingLevel, ParseRoleAlias;
    var p := ROLE_ALIAS_PREFIX + role.AsStr();
    AliasParses(role);
    if level.Some? {
      TrimmedWithLevel(p, level.value);
      TrimTrimmed(p + ":" + level.value);
      SplitAppended(p, level.value);
    } else {
      TrimTrimmed(p);
      assert LastColon(p) == |p|;
    }
  }

  lemma TrimmedWithLevel(p: string, level: string)
    requires p != [] && Trimmed(p) && IsThinkingLevel(level)
    ensures Trimmed(p + ":" + level)
  {
    var q := p + ":" + level;
    LevelClean(level);
    assert q[0] == p[0] && q[|q| - 1] == level[|level| - 1];
  }

  /** And nothing else is: an alias is the prefix, a built-in role and perhaps a thinking level,
      up to whitespace around the whole and before the level. */
  lemma OnlyAliasesAreRecognized(pattern: string) returns (base: string)
    requires Classify(pattern).Alias?
    ensures var e := Classify(pattern);
            && ModelRole.FromId(e.role).Some? && (e.level.Some? ==> IsThinkingLevel(e.level.value))
            && Trim(base) == ROLE_ALIAS_PREFIX + e.role && Trim(pattern) == WithLevel(base, e.level)
  {
    var normalized := Trim(pattern);
    base := SplitThinkingSuffix(normalized).0;
    var i := LastColon(normalized);
    if i < |normalized| {
      assert normalized == normalized[..i] + ":" + normalized[i + 1..];
    }
    assert Trim(base) == ROLE_ALIAS_PREFIX + Trim(base)[|ROLE_ALIAS_PREFIX|..];
  }

  lemma StableConcrete(pattern: string)
    requires ',' !in pattern && Classify(pattern).Concrete?
    ensures Stable(Classify(pattern).text)
  {
    TrimMeaning(pattern);
    TrimTrimmed(Trim(pattern));
  }

  lemma {:induction false} KeptAreClean(parts: seq<string>)
    requires forall p :: p in parts ==> ',' !in p
    ensures forall p :: p in KeepNonEmptyTrimmed(parts) ==> ',' !in p
  {
    if parts != [] {
      TrimMeaning(parts[0]);
      KeptAreClean(parts[1..]);
    }
  }

  lemma RawIsClean(reg: Registry, role: string)
    ensures forall p :: p in Raw(reg, role) ==> ',' !in p
  {
    if role in reg {
      KeptAreClean(Split(reg[role], ','));
    } else if DEFAULT_ROLE in reg {
      KeptAreClean(Split(reg[DEFAULT_ROLE], ','));
    }
  }

  lemma {:induction false} TextIsStable(reg: Registry, role: string, a: Address)
    requires Valid(GraphOf(reg), role, a)
    ensures Stable(Text(GraphOf(reg), role, a))
    decreases |a|
  {
    var g := GraphOf(reg);
    GraphEntries(reg, role);
    RawIsClean(reg, role);
    var pattern := Raw(reg, role)[a[0]];
    var e := Classify(pattern);
    assert EntryAt(g, role, a[0]) == e;
    if |a| == 1 {
      StableConcrete(pattern);
    } else {
      TextIsStable(reg, e.role, a[1..]);
      AliasLevel(pattern);
      StableWithLevel(Text(g, e.role, a[1..]), e.level);
    }
  }

  lemma AliasLevel(pattern: string)
    requires Classify(pattern).Alias?
    ensures Classify(pattern).level.Some? ==> IsThinkingLevel(Classify(pattern).level.value)
  {
  }

  lemma ResolvedAreConcrete(reg: Registry, role: string)
    ensures forall p :: p in Resolved(reg, role) ==> Stable(p)
  {
    ResolveMeaning(reg, role);
    forall a | a in ResolvedAddresses(reg, role)
      ensures Stable(Text(GraphOf(reg), role, a))
    {
      TextIsStable(reg, role, a);
    }
  }

  // ---- Flattening is a fixed point

  lemma {:induction false} KeepsStable(parts: seq<string>)
    requires forall p :: p in parts ==> Stable(p)
    ensures KeepNonEmptyTrimmed(parts) == parts
  {
    if parts != [] {
      assert parts[0] in parts;
      TrimTrimmed(parts[0]);
      KeepsStable(parts[1..]);
    }
  }

  lemma NormalizeJoined(parts: seq<string>)
    requires forall p :: p in parts ==> Stable(p)
    ensures NormalizePatternList(Join(parts, ',')) == parts
  {
    if parts == [] {
      assert Split([], ',') == [[]];
      assert KeepNonEmptyTrimmed([[]]) == [];
    } else {
      SplitJoin(parts, ',');
      KeepsStable(parts);
    }
  }

  /** A role whose patterns are all concrete resolves to them as they stand. */
  lemma {:induction false} ExpandConcrete(g: Graph, role: string, out: seq<string>, i: nat, visited: set<string>)
    requires Closed(g) && |g.entries(role)| == |out| && i <= |out|
    requires forall k :: 0 <= k < |out| ==> g.entries(role)[k] == Concrete(out[k])
    ensures ExpandFrom(g, role, i, visited).texts == out[i..]
    decreases |out| - i
  {
    if i < |out| {
      ExpandConcrete(g, role, out, i + 1, visited);
    }
  }

  lemma ResolveStable(reg: Registry, role: string, out: seq<string>)
    requires Raw(reg, role) == out
    requires forall p :: p in out ==> Stable(p)
    ensures Resolved(reg, role) == out
  {
    hide Raw, Classify, Stable;
    GraphEntries(reg, role);
    forall k | 0 <= k < |out|
      ensures Classify(out[k]) == Concrete(out[k])
    {
      assert out[k] in out;
      StableIsConcrete(out[k]);
    }
    ExpandConcrete(GraphOf(reg), role, out, 0, {role});
    assert {} + {role} == {role};
    assert out[0..] == out;
  }

  lemma StableIsConcrete(p: string)
    requires Stable(p)
    ensures Classify(p) == Concrete(p)
  {
  }

  /** Setting a role to its own resolved list, joined by commas, leaves what it resolves to
      unchanged. */
  lemma FlattenFixedPoint(reg: Registry, role: string)
    ensures Resolved(reg[role := Join(Resolved(reg, role), ',')], role) == Resolved(reg, role)
  {
    var out := Resolved(reg, role);
    ResolvedAreConcrete(reg, role);
    NormalizeJoined(out);
    ResolveStable(reg[role := Join(out, ',')], role, out);
  }
}
