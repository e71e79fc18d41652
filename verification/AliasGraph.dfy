/** Depth-first expansion of a graph whose nodes hold lists of entries: concrete texts, or
    aliases for other nodes. One visited set is shared by the whole walk.

    The walk is specified by the addresses it emits. An address is the list of positions taken
    through successive entry lists; its last position names a concrete text. */
module AliasGraph {
  import opened Wrappers

  datatype Entry = Blank | Concrete(text: string) | Alias(role: string, level: Option<string>)

  /** `ids` are the only roles an alias can name. */
  datatype Graph = Graph(ids: set<string>, entries: string -> seq<Entry>)

  ghost predicate Closed(g: Graph) {
    forall role, i :: 0 <= i < |g.entries(role)| && g.entries(role)[i].Alias? ==> g.entries(role)[i].role in g.ids
  }

  function EntryAt(g: Graph, role: string, i: nat): (e: Entry)
    ensures !e.Blank? ==> i < |g.entries(role)|
    ensures i < |g.entries(role)| ==> e == g.entries(role)[i]
  {
    if i < |g.entries(role)| then g.entries(role)[i] else Blank
  }

  function WithLevel(text: string, level: Option<string>): string {
    if level.Some? then text + ":" + level.value else text
  }

  // ---- The walk

  type Address = seq<nat>

  ghost function Rank(g: Graph, visited: set<string>): nat {
    |g.ids - visited|
  }

  lemma RankMonotone(g: Graph, small: set<string>, large: set<string>)
    requires small <= large
    ensures Rank(g, large) <= Rank(g, small)
    ensures (exists r :: r in g.ids && r in large && r !in small) ==> Rank(g, large) < Rank(g, small)
  {
    var a, b := g.ids - large, g.ids - small;
    assert b == a + (b - a) && a !! (b - a);
    assert |b| == |a| + |b - a|;
    if r :| r in g.ids && r in large && r !in small {
      assert r in b - a;
    }
  }

  ghost function Prefixed(i: nat, hits: seq<Address>): (r: seq<Address>)
    ensures |r| == |hits|
    ensures forall k :: 0 <= k < |hits| ==> r[k] == [i] + hits[k]
  {
    seq(|hits|, k requires 0 <= k < |hits| => [i] + hits[k])
  }

  datatype Walked = Walked(hits: seq<Address>, visited: set<string>)

  /** Visit `role` unless it was visited before. */
  ghost function Walk(g: Graph, role: string, visited: set<string>): (w: Walked)
    requires Closed(g)
    ensures visited <= w.visited && role in w.visited
    decreases Rank(g, visited), if role in g.ids then 0 else 2, 0
  {
    if role in visited then Walked([], visited)
    else
      RankMonotone(g, visited, visited + {role});
      WalkFrom(g, role, 0, visited + {role})
  }

  /** Expand the entries of `role` from position `i` on. */
  ghost function WalkFrom(g: Graph, role: string, i: nat, visited: set<string>): (w: Walked)
    requires Closed(g)
    ensures visited <= w.visited
    decreases Rank(g, visited), 1, |g.entries(role)| - i
  {
    if i >= |g.entries(role)| then Walked([], visited)
    else
      var here := WalkEntry(g, role, i, visited);
      RankMonotone(g, visited, here.visited);
      var rest := WalkFrom(g, role, i + 1, here.visited);
      Walked(here.hits + rest.hits, rest.visited)
  }

  ghost function WalkEntry(g: Graph, role: string, i: nat, visited: set<string>): (w: Walked)
    requires Closed(g) && i < |g.entries(role)|
    ensures visited <= w.visited
    decreases Rank(g, visited), 1, 0
  {
    match EntryAt(g, role, i)
    case Blank => Walked([], visited)
    case Concrete(_) => Walked([[i]], visited)
    case Alias(next, _) =>
      var sub := Walk(g, next, visited);
      Walked(Prefixed(i, sub.hits), sub.visited)
  }

  // ---- Addresses

  ghost predicate Valid(g: Graph, role: string, a: Address)
    decreases |a|
  {
    && a != []
    && var e := EntryAt(g, role, a[0]);
       if |a| == 1 then e.Concrete? else e.Alias? && Valid(g, e.role, a[1..])
  }

  /** The concrete text at an address, with the levels of the aliases passed on the way
      appended innermost first. */
  ghost function Text(g: Graph, role: string, a: Address): string
    requires Valid(g, role, a)
    decreases |a|
  {
    var e := EntryAt(g, role, a[0]);
    if |a| == 1 then e.text else WithLevel(Text(g, e.role, a[1..]), e.level)
  }

  /** The roles an address passes through, starting with the role itself. */
  ghost function Visits(g: Graph, role: string, a: Address): (s: seq<string>)
    requires Valid(g, role, a)
    ensures |s| == |a| && s[0] == role
    decreases |a|
  {
    if |a| == 1 then [role] else [role] + Visits(g, EntryAt(g, role, a[0]).role, a[1..])
  }

  /** Which entry an address names: the role that holds it and its position there. */
  datatype Site = Site(role: string, index: nat)

  ghost function SiteOf(g: Graph, role: string, a: Address): Site
    requires Valid(g, role, a)
  {
    Site(Visits(g, role, a)[|a| - 1], a[|a| - 1])
  }

  lemma StepInto(g: Graph, role: string, i: nat, a: Address)
    requires EntryAt(g, role, i).Alias? && Valid(g, EntryAt(g, role, i).role, a)
    ensures Valid(g, role, [i] + a)
    ensures Visits(g, role, [i] + a) == [role] + Visits(g, EntryAt(g, role, i).role, a)
    ensures SiteOf(g, role, [i] + a) == SiteOf(g, EntryAt(g, role, i).role, a)
    ensures Text(g, role, [i] + a) == WithLevel(Text(g, EntryAt(g, role, i).role, a), EntryAt(g, role, i).level)
  {
    assert ([i] + a)[1..] == a;
  }

  lemma {:induction false} WalkValid(g: Graph, role: string, visited: set<string>)
    requires Closed(g)
    ensures forall a :: a in Walk(g, role, visited).hits ==> Valid(g, role, a)
    decreases Rank(g, visited), if role in g.ids then 0 else 2, 0
  {
    if role !in visited {
      RankMonotone(g, visited, visited + {role});
      WalkFromValid(g, role, 0, visited + {role});
    }
  }

  lemma {:induction false} WalkEntryValid(g: Graph, role: string, i: nat, visited: set<string>)
    requires Closed(g) && i < |g.entries(role)|
    ensures forall a :: a in WalkEntry(g, role, i, visited).hits ==> Valid(g, role, a) && a[0] == i
    decreases Rank(g, visited), 1, 0
  {
    var e := EntryAt(g, role, i);
    if e.Alias? {
      WalkValid(g, e.role, visited);
      var sub := Walk(g, e.role, visited).hits;
      forall k | 0 <= k < |sub|
        ensures Valid(g, role, [i] + sub[k])
      {
        assert sub[k] in sub;
        StepInto(g, role, i, sub[k]);
      }
    }
  }

  lemma {:induction false} WalkFromValid(g: Graph, role: string, i: nat, visited: set<string>)
    requires Closed(g)
    ensures forall a :: a in WalkFrom(g, role, i, visited).hits ==> Valid(g, role, a) && i <= a[0]
    decreases Rank(g, visited), 1, |g.entries(role)| - i
  {
    if i < |g.entries(role)| {
      var here := WalkEntry(g, role, i, visited);
      WalkEntryValid(g, role, i, visited);
      RankMonotone(g, visited, here.visited);
      WalkFromValid(g, role, i + 1, here.visited);
    }
  }

  ghost function Texts(g: Graph, role: string, hits: seq<Address>): (r: seq<string>)
    requires forall a :: a in hits ==> Valid(g, role, a)
    ensures |r| == |hits|
    ensures forall k :: 0 <= k < |hits| ==> r[k] == Text(g, role, hits[k])
  {
    seq(|hits|, k requires 0 <= k < |hits| => Text(g, role, hits[k]))
  }

  /** Every text, with the level of the alias it came through. */
  function WithLevels(texts: seq<string>, level: Option<string>): (r: seq<string>)
    ensures |r| == |texts|
    ensures forall k :: 0 <= k < |texts| ==> r[k] == WithLevel(texts[k], level)
  {
    seq(|texts|, k requires 0 <= k < |texts| => WithLevel(texts[k], level))
  }

  // ---- The same recursion on texts, as a caller sees it

  datatype Expansion = Expansion(texts: seq<string>, visited: set<string>)

  ghost function Expand(g: Graph, role: string, visited: set<string>): (r: Expansion)
    requires Closed(g)
    ensures visited <= r.visited
    decreases Rank(g, visited), if role in g.ids then 0 else 2, 0
  {
    if role in visited then Expansion([], visited)
    else
      RankMonotone(g, visited, visited + {role});
      ExpandFrom(g, role, 0, visited + {role})
  }

  ghost function ExpandFrom(g: Graph, role: string, i: nat, visited: set<string>): (r: Expansion)
    requires Closed(g)
    ensures visited <= r.visited
    decreases Rank(g, visited), 1, |g.entries(role)| - i
  {
    if i >= |g.entries(role)| then Expansion([], visited)
    else
      var here := ExpandEntry(g, g.entries(role)[i], visited);
      RankMonotone(g, visited, here.visited);
      var rest := ExpandFrom(g, role, i + 1, here.visited);
      Expansion(here.texts + rest.texts, rest.visited)
  }

  ghost function ExpandEntry(g: Graph, e: Entry, visited: set<string>): (r: Expansion)
    requires Closed(g) && (e.Alias? ==> e.role in g.ids)
    ensures visited <= r.visited
    decreases Rank(g, visited), 1, 0
  {
    match e
    case Blank => Expansion([], visited)
    case Concrete(text) => Expansion([text], visited)
    case Alias(role, level) =>
      var inner := Expand(g, role, visited);
      Expansion(WithLevels(inner.texts, level), inner.visited)
  }

  /** Expansion reads off the texts of the addresses the walk emits. */
  lemma {:induction false} ExpandIsWalk(g: Graph, role: string, visited: set<string>)
    requires Closed(g)
    ensures var w := Walk(g, role, visited);
            && (forall a :: a in w.hits ==> Valid(g, role, a))
            && Expand(g, role, visited) == Expansion(Texts(g, role, w.hits), w.visited)
    decreases Rank(g, visited), if role in g.ids then 0 else 2, 0
  {
    if role !in visited {
      RankMonotone(g, visited, visited + {role});
      ExpandFromIsWalk(g, role, 0, visited + {role});
    }
  }

  lemma {:induction false} ExpandFromIsWalk(g: Graph, role: string, i: nat, visited: set<string>)
    requires Closed(g)
    ensures var w := WalkFrom(g, role, i, visited);
            && (forall a :: a in w.hits ==> Valid(g, role, a))
            && ExpandFrom(g, role, i, visited) == Expansion(Texts(g, role, w.hits), w.visited)
    decreases Rank(g, visited), 1, |g.entries(role)| - i
  {
    if i < |g.entries(role)| {
      var here := WalkEntry(g, role, i, visited);
      ExpandEntryIsWalk(g, role, i, visited);
      RankMonotone(g, visited, here.visited);
      ExpandFromIsWalk(g, role, i + 1, here.visited);
    }
  }

  lemma {:induction false} ExpandEntryIsWalk(g: Graph, role: string, i: nat, visited: set<string>)
    requires Closed(g) && i < |g.entries(role)|
    ensures var w := WalkEntry(g, role, i, visited);
            && (forall a :: a in w.hits ==> Valid(g, role, a))
            && ExpandEntry(g, g.entries(role)[i], visited) == Expansion(Texts(g, role, w.hits), w.visited)
    decreases Rank(g, visited), 1, 0
  {
    var e := EntryAt(g, role, i);
    WalkEntryValid(g, role, i, visited);
    if e.Concrete? {
      assert Texts(g, role, [[i]]) == [Text(g, role, [i])] == [e.text];
    } else if e.Alias? {
      ExpandIsWalk(g, e.role, visited);
      var sub := Walk(g, e.role, visited).hits;
      forall k | 0 <= k < |sub|
        ensures Text(g, role, [i] + sub[k]) == WithLevel(Text(g, e.role, sub[k]), e.level)
      {
        assert sub[k] in sub;
        StepInto(g, role, i, sub[k]);
      }
      assert Texts(g, role, Prefixed(i, sub)) == WithLevels(Texts(g, e.role, sub), e.level);
    }
  }
}
