/** What role patterns mean: which texts are aliases, which pieces of a value count, and what an
    unset role stands for. The role ids, the levels and the prefix are written out here. */
module RolePatterns {
  import opened Wrappers
  import opened Strings
  import opened AliasGraph
  import opened Roles
  import opened RolesFlatten

  ghost const ROLE_IDS: set<string> :=
    {"default", "smol", "slow", "vision", "plan", "designer", "commit", "title", "task", "advisor"}

  ghost const LEVELS: set<string> := {"off", "minimal", "low", "medium", "high", "xhigh"}

  // ---- One pattern

  lemma RoleIds(id: string)
    ensures ModelRole.FromId(id).Some? <==> id in ROLE_IDS
  {
  }

  lemma Levels(level: string)
    ensures IsThinkingLevel(level) <==> level in LEVELS
  {
  }

  lemma {:induction false} TrimBlank(s: string)
    ensures Trim(s) == [] <==> AllWhitespace(s)
  {
    TrimMeaning(s);
    if Trim(s) == [] {
      var before, after :| AllWhitespace(before) && AllWhitespace(after) && s == before + Trim(s) + after;
      assert s == before + after;
    } else {
      var before, after :| AllWhitespace(before) && AllWhitespace(after) && s == before + Trim(s) + after;
      assert s[|before|] == Trim(s)[0];
    }
  }

  lemma AliasOf(base: string, id: string)
    ensures ParseRoleAlias(base) == Some(id) <==> id in ROLE_IDS && Trim(base) == "pi/" + id
  {
    var t := Trim(base);
    if ROLE_ALIAS_PREFIX <= t {
      assert t == ROLE_ALIAS_PREFIX + t[|ROLE_ALIAS_PREFIX|..];
    }
    RoleIds(id);
    if t == "pi/" + id {
      assert t[|ROLE_ALIAS_PREFIX|..] == id;
    }
  }

  /** A pattern is an alias without a level exactly if it is `pi/` and a role id, up to whitespace
      around it. */
  lemma PlainAliasExactly(pattern: string, id: string)
    ensures Classify(pattern) == Alias(id, None) <==> id in ROLE_IDS && Trim(pattern) == "pi/" + id
  {
    hide ParseRoleAlias, LastColon;
    var t := Trim(pattern);
    TrimMeaning(pattern);
    TrimTrimmed(t);
    AliasOf(t, id);
    if id in ROLE_IDS && t == "pi/" + id {
      RoleIds(id);
      AliasIsRecognized(ModelRole.FromId(id).value, None);
      ClassifyTrimmed(pattern);
    }
  }

  lemma ClassifyTrimmed(pattern: string)
    ensures Classify(Trim(pattern)) == Classify(pattern)
  {
    hide ParseRoleAlias, SplitThinkingSuffix;
    TrimMeaning(pattern);
    TrimTrimmed(Trim(pattern));
  }

  /** It is an alias with a level exactly if a colon and a known level end it, and `pi/` and a role
      id stand before them, up to whitespace around either. */
  lemma LevelAliasExactly(pattern: string, id: string, level: string)
    ensures Classify(pattern) == Alias(id, Some(level))
            <==> id in ROLE_IDS && level in LEVELS
                 && exists base :: Trim(pattern) == base + ":" + level && Trim(base) == "pi/" + id
  {
    hide ParseRoleAlias, LastColon, IsThinkingLevel;
    var t := Trim(pattern);
    Levels(level);
    if Classify(pattern) == Alias(id, Some(level)) {
      var base := OnlyAliasesAreRecognized(pattern);
      RoleIds(id);
      assert Trim(base) == "pi/" + id;
    }
    if id in ROLE_IDS && level in LEVELS {
      forall base | t == base + ":" + level && Trim(base) == "pi/" + id
        ensures Classify(pattern) == Alias(id, Some(level))
      {
        SplitAppended(base, level);
        AliasOf(base, id);
      }
    }
  }

  /** Only whitespace is no pattern; everything else that is not an alias is itself, trimmed. */
  lemma OtherPatterns(pattern: string)
    ensures Classify(pattern).Blank? <==> AllWhitespace(pattern)
    ensures Classify(pattern).Concrete? ==> Classify(pattern).text == Trim(pattern)
  {
    TrimBlank(pattern);
  }

  // ---- The pieces of a value

  ghost function NonBlank(pieces: seq<string>): seq<string> {
    if pieces == [] then []
    else (if AllWhitespace(pieces[0]) then [] else [pieces[0]]) + NonBlank(pieces[1..])
  }

  lemma {:induction false} KeptAreNonBlank(pieces: seq<string>)
    ensures var nb := NonBlank(pieces);
            var kept := KeepNonEmptyTrimmed(pieces);
            |kept| == |nb| && forall i :: 0 <= i < |nb| ==> kept[i] == Trim(nb[i])
  {
    if pieces != [] {
      TrimBlank(pieces[0]);
      KeptAreNonBlank(pieces[1..]);
    }
  }

  lemma NormalizedPieces(pieces: seq<string>)
    requires forall p :: p in pieces ==> ',' !in p
    ensures NormalizePatternList(Join(pieces, ',')) == KeepNonEmptyTrimmed(pieces)
  {
    if pieces == [] {
      NormalizeJoined([]);
    } else {
      SplitJoin(pieces, ',');
    }
  }

  /** A role set to comma-separated pieces stands for the non-blank ones, in order. */
  lemma PiecesInOrder(reg: Registry, role: string, pieces: seq<string>)
    requires forall p :: p in pieces ==> ',' !in p
    ensures var entries := GraphOf(reg[role := Join(pieces, ',')]).entries(role);
            var nb := NonBlank(pieces);
            |entries| == |nb| && forall i :: 0 <= i < |nb| ==> entries[i] == Classify(nb[i])
  {
    hide Classify, Trim;
    var changed := reg[role := Join(pieces, ',')];
    GraphEntries(changed, role);
    NormalizedPieces(pieces);
    KeptAreNonBlank(pieces);
    var nb := NonBlank(pieces);
    forall i | 0 <= i < |nb|
      ensures GraphOf(changed).entries(role)[i] == Classify(nb[i])
    {
      ClassifyTrimmed(nb[i]);
    }
  }

  // ---- Unset roles

  ghost predicate SameGraph(g: Graph, h: Graph) {
    g.ids == h.ids && forall role :: g.entries(role) == h.entries(role)
  }

  lemma {:induction false} SameExpansion(g: Graph, h: Graph, role: string, visited: set<string>)
    requires Closed(g) && Closed(h) && SameGraph(g, h)
    ensures Expand(g, role, visited) == Expand(h, role, visited)
    decreases Rank(g, visited), if role in g.ids then 0 else 2, 0
  {
    if role !in visited {
      RankMonotone(g, visited, visited + {role});
      SameExpansionFrom(g, h, role, 0, visited + {role});
    }
  }

  lemma {:induction false} SameExpansionFrom(g: Graph, h: Graph, role: string, i: nat, visited: set<string>)
    requires Closed(g) && Closed(h) && SameGraph(g, h)
    ensures ExpandFrom(g, role, i, visited) == ExpandFrom(h, role, i, visited)
    decreases Rank(g, visited), 1, |g.entries(role)| - i
  {
    if i < |g.entries(role)| {
      var e := g.entries(role)[i];
      if e.Alias? {
        SameExpansion(g, h, e.role, visited);
      }
      var here := ExpandEntry(g, e, visited);
      RankMonotone(g, visited, here.visited);
      SameExpansionFrom(g, h, role, i + 1, here.visited);
    }
  }

  lemma InheritedValue(reg: Registry, role: string, r: string)
    requires role in {"smol", "slow", "designer"} && role !in reg && "default" in reg
    ensures Raw(reg, r) == Raw(reg[role := reg["default"]], r)
  {
    hide NormalizePatternList;
  }

  /** An unset `smol`, `slow` or `designer` resolves as if it were set to what `default` is set to;
      nothing else resolves differently for it. */
  lemma UnsetInheritsDefault(reg: Registry, role: string, start: string)
    requires role in {"smol", "slow", "designer"} && role !in reg && "default" in reg
    ensures Resolved(reg, start) == Resolved(reg[role := reg["default"]], start)
  {
    hide Raw, Classify, Expand;
    var explicit := reg[role := reg["default"]];
    var g, h := GraphOf(reg), GraphOf(explicit);
    forall r
      ensures g.entries(r) == h.entries(r)
    {
      GraphEntries(reg, r);
      GraphEntries(explicit, r);
      InheritedValue(reg, role, r);
    }
    SameExpansion(g, h, start, {});
  }

  /** Any other unset role resolves to nothing. */
  lemma UnsetResolvesToNothing(reg: Registry, role: string)
    requires role !in reg && (role in {"smol", "slow", "designer"} ==> "default" !in reg)
    ensures Resolved(reg, role) == []
  {
    hide NormalizePatternList;
    var g := GraphOf(reg);
    GraphEntries(reg, role);
    assert |g.entries(role)| == 0;
    assert Expand(g, role, {}) == ExpandFrom(g, role, 0, {} + {role});
  }
}
