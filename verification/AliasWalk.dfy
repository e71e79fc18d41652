/** What the depth-first walk of AliasGraph emits, stated without the walk: for every concrete
    entry of a reachable role exactly one address, namely the lexicographically least address
    that passes through no role twice, all in lexicographic order. */
module AliasWalk {
  import opened Wrappers
  import opened AliasGraph

  // ---- Lexicographic order on addresses

  ghost predicate LexLess(a: Address, b: Address) {
    b != [] && (a == [] || a[0] < b[0] || (a[0] == b[0] && LexLess(a[1..], b[1..])))
  }

  ghost predicate LexLeq(a: Address, b: Address) {
    a == b || LexLess(a, b)
  }

  lemma {:induction false} LexAntisymmetric(a: Address, b: Address)
    requires LexLeq(a, b) && LexLeq(b, a)
    ensures a == b
  {
    if a != b {
      LexAsymmetric(a, b);
    }
  }

  lemma {:induction false} LexAsymmetric(a: Address, b: Address)
    requires LexLess(a, b)
    ensures !LexLess(b, a)
  {
    if a != [] && a[0] == b[0] {
      LexAsymmetric(a[1..], b[1..]);
    }
  }

  lemma LexPrefixed(i: nat, a: Address, b: Address)
    ensures LexLess([i] + a, [i] + b) == LexLess(a, b)
    ensures LexLeq(a, b) ==> LexLeq([i] + a, [i] + b)
  {
    assert ([i] + a)[1..] == a && ([i] + b)[1..] == b;
  }

  ghost predicate Sorted(hits: seq<Address>) {
    forall k, l :: 0 <= k < l < |hits| ==> LexLess(hits[k], hits[l])
  }

  lemma SortedConcat(a: seq<Address>, b: seq<Address>, i: nat)
    requires Sorted(a) && Sorted(b)
    requires forall x :: x in a ==> x != [] && x[0] == i
    requires forall x :: x in b ==> x != [] && i < x[0]
    ensures Sorted(a + b)
  {
    var s := a + b;
    assert forall k :: 0 <= k < |a| ==> s[k] in a;
    assert forall k :: |a| <= k < |s| ==> s[k] == b[k - |a|] && s[k] in b;
  }

  lemma SortedPrefixed(i: nat, hits: seq<Address>)
    requires Sorted(hits)
    ensures Sorted(Prefixed(i, hits))
  {
    forall k, l | 0 <= k < l < |hits|
      ensures LexLess(Prefixed(i, hits)[k], Prefixed(i, hits)[l])
    {
      LexPrefixed(i, hits[k], hits[l]);
    }
  }

  // ---- Simple addresses

  /** The address passes only through roles outside `avoid`, and through none of them twice. */
  ghost predicate Avoids(g: Graph, role: string, a: Address, avoid: set<string>)
    decreases |a|
  {
    && Valid(g, role, a)
    && role !in avoid
    && (|a| > 1 ==> Avoids(g, EntryAt(g, role, a[0]).role, a[1..], avoid + {role}))
  }

  ghost predicate Simple(g: Graph, role: string, a: Address) {
    Valid(g, role, a) && Distinct(Visits(g, role, a))
  }

  lemma {:induction false} AvoidsWeaken(g: Graph, role: string, a: Address, small: set<string>, large: set<string>)
    requires Avoids(g, role, a, large) && small <= large
    ensures Avoids(g, role, a, small)
    decreases |a|
  {
    if |a| > 1 {
      AvoidsWeaken(g, EntryAt(g, role, a[0]).role, a[1..], small + {role}, large + {role});
    }
  }

  ghost predicate Distinct(s: seq<string>) {
    forall k, l :: 0 <= k < l < |s| ==> s[k] != s[l]
  }

  ghost predicate Misses(s: seq<string>, avoid: set<string>) {
    forall k :: 0 <= k < |s| ==> s[k] !in avoid
  }

  lemma ConsDistinct(role: string, t: seq<string>, avoid: set<string>)
    ensures Distinct([role] + t) && Misses([role] + t, avoid)
            <==> role !in avoid && Distinct(t) && Misses(t, avoid + {role})
  {
    var s := [role] + t;
    assert s[0] == role;
    assert forall k :: 0 <= k < |t| ==> s[k + 1] == t[k];
    assert forall k :: 1 <= k < |s| ==> s[k] == t[k - 1];
  }

  lemma {:induction false} AvoidsIff(g: Graph, role: string, a: Address, avoid: set<string>)
    requires Valid(g, role, a)
    ensures Avoids(g, role, a, avoid) <==> Simple(g, role, a) && Misses(Visits(g, role, a), avoid)
    decreases |a|
  {
    if |a| > 1 {
      var next := EntryAt(g, role, a[0]).role;
      AvoidsIff(g, next, a[1..], avoid + {role});
      ConsDistinct(role, Visits(g, next, a[1..]), avoid);
    }
  }

  // ---- Reachability

  ghost predicate Links(g: Graph, from: string, to: string) {
    exists j :: 0 <= j < |g.entries(from)| && g.entries(from)[j].Alias? && g.entries(from)[j].role == to
  }

  ghost predicate IsAliasPath(g: Graph, p: seq<string>) {
    p != [] && forall k :: 0 <= k < |p| - 1 ==> Links(g, p[k], p[k + 1])
  }

  ghost predicate Reachable(g: Graph, from: string, to: string) {
    exists p :: IsAliasPath(g, p) && p[0] == from && p[|p| - 1] == to
  }

  lemma ReachableStep(g: Graph, from: string, mid: string, to: string)
    requires Links(g, from, mid) && Reachable(g, mid, to)
    ensures Reachable(g, from, to)
  {
    var p :| IsAliasPath(g, p) && p[0] == mid && p[|p| - 1] == to;
    var q := [from] + p;
    assert forall k :: 1 <= k < |q| - 1 ==> q[k] == p[k - 1] && q[k + 1] == p[k];
    assert IsAliasPath(g, q) && q[0] == from && q[|q| - 1] == to;
  }

  /** The links of every role in `inner` lead into `outer`. */
  ghost predicate LinksInto(g: Graph, inner: set<string>, outer: set<string>) {
    forall u, v :: u in inner && Links(g, u, v) ==> v in outer
  }

  lemma {:induction false} ClosedHoldsPath(g: Graph, roles: set<string>, p: seq<string>)
    requires LinksInto(g, roles, roles) && IsAliasPath(g, p) && p[0] in roles
    ensures p[|p| - 1] in roles
  {
    if |p| > 1 {
      assert Links(g, p[0], p[1]);
      var q := p[1..];
      forall k | 0 <= k < |q| - 1
        ensures Links(g, q[k], q[k + 1])
      {
        assert Links(g, p[k + 1], p[k + 1 + 1]);
      }
      ClosedHoldsPath(g, roles, q);
    }
  }

  // ---- The visited set

  lemma {:induction false} WalkVisits(g: Graph, role: string, visited: set<string>)
    requires Closed(g)
    ensures var w := Walk(g, role, visited);
            && LinksInto(g, w.visited - visited, w.visited)
            && forall v :: v in w.visited - visited ==> Reachable(g, role, v)
    decreases Rank(g, visited), if role in g.ids then 0 else 2, 0
  {
    if role !in visited {
      var inside := visited + {role};
      RankMonotone(g, visited, inside);
      WalkFromVisits(g, role, 0, inside);
      var w := Walk(g, role, visited);
      assert w == WalkFrom(g, role, 0, inside);
      forall u, v | u in w.visited - visited && Links(g, u, v)
        ensures v in w.visited
      {
        if u == role {
          var j :| 0 <= j < |g.entries(u)| && g.entries(u)[j].Alias? && g.entries(u)[j].role == v;
          assert EntryAt(g, role, j).role == v;
        } else {
          assert u in w.visited - inside;
        }
      }
      var self := [role];
      assert IsAliasPath(g, self) && self[0] == role && self[|self| - 1] == role;
      assert forall v :: v in w.visited - visited ==> v == role || v in w.visited - inside;
    }
  }

  lemma {:induction false} WalkFromVisits(g: Graph, role: string, i: nat, visited: set<string>)
    requires Closed(g)
    ensures var w := WalkFrom(g, role, i, visited);
            && LinksInto(g, w.visited - visited, w.visited)
            && (forall v :: v in w.visited - visited ==> Reachable(g, role, v))
            && forall j :: i <= j < |g.entries(role)| && EntryAt(g, role, j).Alias?
                ==> EntryAt(g, role, j).role in w.visited
    decreases Rank(g, visited), 1, |g.entries(role)| - i
  {
    if i < |g.entries(role)| {
      var here := WalkEntry(g, role, i, visited);
      RankMonotone(g, visited, here.visited);
      var e := EntryAt(g, role, i);
      if e.Alias? {
        WalkVisits(g, e.role, visited);
        assert Links(g, role, e.role);
        forall v | v in here.visited - visited
          ensures Reachable(g, role, v)
        {
          ReachableStep(g, role, e.role, v);
        }
      }
      WalkFromVisits(g, role, i + 1, here.visited);
      var w := WalkFrom(g, role, i, visited);
      assert forall u :: u in w.visited - visited ==> u in here.visited - visited || u in w.visited - here.visited;
    }
  }

  /** The roles a walk from scratch visits are exactly the reachable ones. */
  lemma VisitedIsReachable(g: Graph, start: string, role: string)
    requires Closed(g)
    ensures role in Walk(g, start, {}).visited <==> Reachable(g, start, role)
  {
    var all := Walk(g, start, {}).visited;
    WalkVisits(g, start, {});
    assert all - {} == all;
    if Reachable(g, start, role) {
      var p :| IsAliasPath(g, p) && p[0] == start && p[|p| - 1] == role;
      ClosedHoldsPath(g, all, p);
    }
  }

  // ---- Emitted addresses are simple and stay inside the newly visited roles

  lemma {:induction false} WalkAvoids(g: Graph, role: string, visited: set<string>)
    requires Closed(g)
    ensures var w := Walk(g, role, visited);
            forall a :: a in w.hits ==> Avoids(g, role, a, visited) && SiteOf(g, role, a).role in w.visited - visited
    decreases Rank(g, visited), if role in g.ids then 0 else 2, 0
  {
    if role !in visited {
      RankMonotone(g, visited, visited + {role});
      WalkFromAvoids(g, role, 0, visited + {role});
    }
  }

  /** A continuation of the walk below `role`: its first position is at least `i`, and past
      `role` it stays out of `visited`. */
  ghost predicate Continues(g: Graph, role: string, i: nat, a: Address, visited: set<string>) {
    && Valid(g, role, a)
    && i <= a[0]
    && (|a| > 1 ==> Avoids(g, EntryAt(g, role, a[0]).role, a[1..], visited))
  }

  ghost predicate OwnOrNew(s: Site, role: string, i: nat, added: set<string>) {
    (s.role == role && i <= s.index) || s.role in added
  }

  lemma {:induction false} WalkFromAvoids(g: Graph, role: string, i: nat, visited: set<string>)
    requires Closed(g) && role in visited
    ensures var w := WalkFrom(g, role, i, visited);
            forall a :: a in w.hits ==>
              Continues(g, role, i, a, visited) && OwnOrNew(SiteOf(g, role, a), role, i, w.visited - visited)
    decreases Rank(g, visited), 1, |g.entries(role)| - i
  {
    if i < |g.entries(role)| {
      var here := WalkEntry(g, role, i, visited);
      WalkEntryAvoids(g, role, i, visited);
      RankMonotone(g, visited, here.visited);
      WalkFromAvoids(g, role, i + 1, here.visited);
      var rest := WalkFrom(g, role, i + 1, here.visited);
      forall a | a in rest.hits
        ensures Continues(g, role, i, a, visited)
      {
        if |a| > 1 {
          AvoidsWeaken(g, EntryAt(g, role, a[0]).role, a[1..], visited, here.visited);
        }
      }
    }
  }

  lemma {:induction false} WalkEntryAvoids(g: Graph, role: string, i: nat, visited: set<string>)
    requires Closed(g) && role in visited && i < |g.entries(role)|
    ensures var w := WalkEntry(g, role, i, visited);
            forall a :: a in w.hits ==>
              && Continues(g, role, i, a, visited) && a[0] == i
              && (SiteOf(g, role, a) == Site(role, i) || SiteOf(g, role, a).role in w.visited - visited)
    decreases Rank(g, visited), 1, 0
  {
    var e := EntryAt(g, role, i);
    if e.Alias? {
      WalkAvoids(g, e.role, visited);
      var sub := Walk(g, e.role, visited).hits;
      forall k | 0 <= k < |sub|
        ensures Continues(g, role, i, [i] + sub[k], visited)
        ensures SiteOf(g, role, [i] + sub[k]) == SiteOf(g, e.role, sub[k])
        ensures SiteOf(g, e.role, sub[k]).role in Walk(g, e.role, visited).visited - visited
      {
        assert sub[k] in sub;
        StepInto(g, role, i, sub[k]);
        assert ([i] + sub[k])[1..] == sub[k];
      }
    }
  }

  // ---- Every concrete entry of a newly visited role is emitted

  ghost predicate Emits(g: Graph, role: string, hits: seq<Address>, s: Site) {
    exists a :: a in hits && Valid(g, role, a) && SiteOf(g, role, a) == s
  }

  ghost predicate IsConcrete(g: Graph, s: Site) {
    EntryAt(g, s.role, s.index).Concrete?
  }

  lemma {:induction false} WalkCovers(g: Graph, role: string, visited: set<string>)
    requires Closed(g)
    ensures var w := Walk(g, role, visited);
            forall s: Site :: s.role in w.visited - visited && IsConcrete(g, s) ==> Emits(g, role, w.hits, s)
    decreases Rank(g, visited), if role in g.ids then 0 else 2, 0
  {
    if role !in visited {
      RankMonotone(g, visited, visited + {role});
      WalkFromCovers(g, role, 0, visited + {role});
    }
  }

  lemma {:induction false} WalkFromCovers(g: Graph, role: string, i: nat, visited: set<string>)
    requires Closed(g) && role in visited
    ensures var w := WalkFrom(g, role, i, visited);
            forall s :: OwnOrNew(s, role, i, w.visited - visited) && IsConcrete(g, s) ==> Emits(g, role, w.hits, s)
    decreases Rank(g, visited), 1, |g.entries(role)| - i
  {
    if i < |g.entries(role)| {
      var here := WalkEntry(g, role, i, visited);
      WalkEntryCovers(g, role, i, visited);
      RankMonotone(g, visited, here.visited);
      WalkFromCovers(g, role, i + 1, here.visited);
      var rest := WalkFrom(g, role, i + 1, here.visited);
      var w := WalkFrom(g, role, i, visited);
      forall s | OwnOrNew(s, role, i, w.visited - visited) && IsConcrete(g, s)
        ensures Emits(g, role, w.hits, s)
      {
        if s == Site(role, i) || s.role in here.visited - visited {
          var a :| a in here.hits && Valid(g, role, a) && SiteOf(g, role, a) == s;
          assert a in w.hits;
        } else {
          assert OwnOrNew(s, role, i + 1, rest.visited - here.visited);
          var a :| a in rest.hits && Valid(g, role, a) && SiteOf(g, role, a) == s;
          assert a in w.hits;
        }
      }
    }
  }

  lemma {:induction false} WalkEntryCovers(g: Graph, role: string, i: nat, visited: set<string>)
    requires Closed(g) && role in visited && i < |g.entries(role)|
    ensures var w := WalkEntry(g, role, i, visited);
            forall s :: (s == Site(role, i) || s.role in w.visited - visited) && IsConcrete(g, s)
                ==> Emits(g, role, w.hits, s)
    decreases Rank(g, visited), 1, 0
  {
    var e := EntryAt(g, role, i);
    var w := WalkEntry(g, role, i, visited);
    if e.Concrete? {
      assert [i] in w.hits && Valid(g, role, [i]) && SiteOf(g, role, [i]) == Site(role, i);
    } else if e.Alias? {
      WalkCovers(g, e.role, visited);
      var sub := Walk(g, e.role, visited).hits;
      forall s: Site | s.role in w.visited - visited && IsConcrete(g, s)
        ensures Emits(g, role, w.hits, s)
      {
        var a :| a in sub && Valid(g, e.role, a) && SiteOf(g, e.role, a) == s;
        var k :| 0 <= k < |sub| && sub[k] == a;
        StepInto(g, role, i, a);
        assert w.hits[k] == [i] + a;
      }
    }
  }

  // ---- No concrete entry is emitted twice, and the addresses come in order

  ghost predicate OncePerSite(g: Graph, role: string, hits: seq<Address>)
    requires forall a :: a in hits ==> Valid(g, role, a)
  {
    forall a, b :: a in hits && b in hits && SiteOf(g, role, a) == SiteOf(g, role, b) ==> a == b
  }

  lemma {:induction false} WalkOnce(g: Graph, role: string, visited: set<string>)
    requires Closed(g)
    ensures forall a :: a in Walk(g, role, visited).hits ==> Valid(g, role, a)
    ensures OncePerSite(g, role, Walk(g, role, visited).hits) && Sorted(Walk(g, role, visited).hits)
    decreases Rank(g, visited), if role in g.ids then 0 else 2, 0
  {
    if role !in visited {
      RankMonotone(g, visited, visited + {role});
      WalkFromOnce(g, role, 0, visited + {role});
    }
  }

  lemma {:induction false} WalkFromOnce(g: Graph, role: string, i: nat, visited: set<string>)
    requires Closed(g) && role in visited
    ensures forall a :: a in WalkFrom(g, role, i, visited).hits ==> Valid(g, role, a)
    ensures OncePerSite(g, role, WalkFrom(g, role, i, visited).hits) && Sorted(WalkFrom(g, role, i, visited).hits)
    decreases Rank(g, visited), 1, |g.entries(role)| - i
  {
    if i < |g.entries(role)| {
      var here := WalkEntry(g, role, i, visited);
      WalkEntryOnce(g, role, i, visited);
      WalkEntryAvoids(g, role, i, visited);
      RankMonotone(g, visited, here.visited);
      WalkFromOnce(g, role, i + 1, here.visited);
      WalkFromAvoids(g, role, i + 1, here.visited);
      var rest := WalkFrom(g, role, i + 1, here.visited);
      var hits := WalkFrom(g, role, i, visited).hits;
      assert hits == here.hits + rest.hits;
      SortedConcat(here.hits, rest.hits, i);
      forall a, b | a in here.hits && b in rest.hits
        ensures SiteOf(g, role, a) != SiteOf(g, role, b)
      {
      }
    }
  }

  lemma {:induction false} WalkEntryOnce(g: Graph, role: string, i: nat, visited: set<string>)
    requires Closed(g) && role in visited && i < |g.entries(role)|
    ensures forall a :: a in WalkEntry(g, role, i, visited).hits ==> Valid(g, role, a)
    ensures OncePerSite(g, role, WalkEntry(g, role, i, visited).hits) && Sorted(WalkEntry(g, role, i, visited).hits)
    decreases Rank(g, visited), 1, 0
  {
    WalkEntryValid(g, role, i, visited);
    var e := EntryAt(g, role, i);
    if e.Alias? {
      WalkOnce(g, e.role, visited);
      var sub := Walk(g, e.role, visited).hits;
      var hits := WalkEntry(g, role, i, visited).hits;
      forall k | 0 <= k < |sub|
        ensures SiteOf(g, role, hits[k]) == SiteOf(g, e.role, sub[k])
      {
        assert sub[k] in sub;
        StepInto(g, role, i, sub[k]);
      }
      SortedPrefixed(i, sub);
      forall a, b | a in hits && b in hits && SiteOf(g, role, a) == SiteOf(g, role, b)
        ensures a == b
      {
        var k :| 0 <= k < |hits| && hits[k] == a;
        var l :| 0 <= l < |hits| && hits[l] == b;
        assert sub[k] in sub && sub[l] in sub;
      }
    }
  }

  // ---- The emitted address of an entry is the least simple one

  /** Once a simple path enters a set of newly visited roles, it cannot leave it again. */
  lemma {:induction false} Trapped(g: Graph, role: string, a: Address, before: set<string>, after: set<string>)
    requires Avoids(g, role, a, before) && role in after - before && LinksInto(g, after - before, after)
    ensures SiteOf(g, role, a).role in after - before
    decreases |a|
  {
    if |a| > 1 {
      var next := EntryAt(g, role, a[0]).role;
      assert Links(g, role, next);
      AvoidsWeaken(g, next, a[1..], before, before + {role});
      Trapped(g, next, a[1..], before, after);
      assert a[1..][|a| - 2] == a[|a| - 1];
    }
  }

  lemma {:induction false} BlockedIsTrapped(g: Graph, role: string, a: Address, before: set<string>, after: set<string>)
    requires Avoids(g, role, a, before) && !Avoids(g, role, a, after)
    requires before <= after && LinksInto(g, after - before, after)
    ensures SiteOf(g, role, a).role in after - before
    decreases |a|
  {
    if role in after {
      Trapped(g, role, a, before, after);
    } else {
      var next := EntryAt(g, role, a[0]).role;
      assert (after + {role}) - (before + {role}) == after - before;
      BlockedIsTrapped(g, next, a[1..], before + {role}, after + {role});
      assert a[1..][|a| - 2] == a[|a| - 1];
    }
  }

  ghost predicate EmitsBelow(g: Graph, role: string, hits: seq<Address>, b: Address)
    requires Valid(g, role, b)
  {
    exists a :: a in hits && Valid(g, role, a) && SiteOf(g, role, a) == SiteOf(g, role, b) && LexLeq(a, b)
  }

  lemma {:induction false} WalkLeast(g: Graph, role: string, visited: set<string>, b: Address)
    requires Closed(g) && Avoids(g, role, b, visited)
    ensures EmitsBelow(g, role, Walk(g, role, visited).hits, b)
    decreases Rank(g, visited), if role in g.ids then 0 else 2, 0
  {
    RankMonotone(g, visited, visited + {role});
    WalkFromLeast(g, role, 0, visited + {role}, b);
  }

  lemma {:induction false} WalkFromLeast(g: Graph, role: string, i: nat, visited: set<string>, b: Address)
    requires Closed(g) && role in visited && Continues(g, role, i, b, visited)
    ensures EmitsBelow(g, role, WalkFrom(g, role, i, visited).hits, b)
    decreases Rank(g, visited), 1, |g.entries(role)| - i
  {
    var here := WalkEntry(g, role, i, visited);
    var rest := WalkFrom(g, role, i + 1, here.visited);
    var hits := WalkFrom(g, role, i, visited).hits;
    assert hits == here.hits + rest.hits;
    if b[0] == i {
      WalkEntryLeast(g, role, i, visited, b);
    } else if Continues(g, role, i + 1, b, here.visited) {
      RankMonotone(g, visited, here.visited);
      WalkFromLeast(g, role, i + 1, here.visited, b);
    } else {
      BlockedIsEmitted(g, role, i, visited, b);
    }
  }

  /** An address that a later entry can no longer follow was met below an earlier one. */
  lemma BlockedIsEmitted(g: Graph, role: string, i: nat, visited: set<string>, b: Address)
    requires Closed(g) && role in visited && i < |g.entries(role)|
    requires Continues(g, role, i, b, visited) && b[0] != i
    requires !Continues(g, role, i + 1, b, WalkEntry(g, role, i, visited).visited)
    ensures EmitsBelow(g, role, WalkEntry(g, role, i, visited).hits, b)
  {
    var here := WalkEntry(g, role, i, visited);
    WalkEntryLinks(g, role, i, visited);
    BlockedIsTrapped(g, EntryAt(g, role, b[0]).role, b[1..], visited, here.visited);
    assert b[1..][|b| - 2] == b[|b| - 1];
    WalkEntryCovers(g, role, i, visited);
    SiteIsConcrete(g, role, b);
    var s := SiteOf(g, role, b);
    var a :| a in here.hits && Valid(g, role, a) && SiteOf(g, role, a) == s;
    WalkEntryValid(g, role, i, visited);
    assert LexLess(a, b);
  }

  lemma WalkEntryLinks(g: Graph, role: string, i: nat, visited: set<string>)
    requires Closed(g) && i < |g.entries(role)|
    ensures var w := WalkEntry(g, role, i, visited); LinksInto(g, w.visited - visited, w.visited)
  {
    var e := EntryAt(g, role, i);
    if e.Alias? {
      WalkVisits(g, e.role, visited);
    }
  }

  lemma {:induction false} SiteIsConcrete(g: Graph, role: string, a: Address)
    requires Valid(g, role, a)
    ensures IsConcrete(g, SiteOf(g, role, a))
    decreases |a|
  {
    if |a| > 1 {
      SiteIsConcrete(g, EntryAt(g, role, a[0]).role, a[1..]);
      assert a[1..][|a| - 2] == a[|a| - 1];
    }
  }

  lemma {:induction false} WalkEntryLeast(g: Graph, role: string, i: nat, visited: set<string>, b: Address)
    requires Closed(g) && role in visited && Continues(g, role, i, b, visited) && b[0] == i
    ensures EmitsBelow(g, role, WalkEntry(g, role, i, visited).hits, b)
    decreases Rank(g, visited), 1, 0
  {
    var e := EntryAt(g, role, i);
    var hits := WalkEntry(g, role, i, visited).hits;
    if |b| == 1 {
      assert b == [i] && hits == [b];
    } else {
      WalkLeast(g, e.role, visited, b[1..]);
      var sub := Walk(g, e.role, visited).hits;
      var a :| a in sub && Valid(g, e.role, a) && SiteOf(g, e.role, a) == SiteOf(g, e.role, b[1..])
          && LexLeq(a, b[1..]);
      var k :| 0 <= k < |sub| && sub[k] == a;
      StepInto(g, role, i, a);
      StepInto(g, role, i, b[1..]);
      LexPrefixed(i, a, b[1..]);
      assert [i] + b[1..] == b && hits[k] == [i] + a;
    }
  }

  // ---- Main results

  /** `a` is the least simple address of the entry it names. */
  ghost predicate LeastSimple(g: Graph, start: string, a: Address) {
    && Simple(g, start, a)
    && forall b :: Simple(g, start, b) && SiteOf(g, start, b) == SiteOf(g, start, a) ==> LexLeq(a, b)
  }

  lemma WalkIsLeastSimple(g: Graph, start: string, a: Address)
    requires Closed(g)
    ensures Sorted(Walk(g, start, {}).hits)
    ensures a in Walk(g, start, {}).hits <==> LeastSimple(g, start, a)
  {
    var hits := Walk(g, start, {}).hits;
    WalkOnce(g, start, {});
    WalkAvoids(g, start, {});
    if a in hits {
      AvoidsIff(g, start, a, {});
      forall b | Simple(g, start, b) && SiteOf(g, start, b) == SiteOf(g, start, a)
        ensures LexLeq(a, b)
      {
        AvoidsIff(g, start, b, {});
        WalkLeast(g, start, {}, b);
      }
    }
    if LeastSimple(g, start, a) {
      AvoidsIff(g, start, a, {});
      WalkLeast(g, start, {}, a);
      var c :| c in hits && Valid(g, start, c) && SiteOf(g, start, c) == SiteOf(g, start, a) && LexLeq(c, a);
      AvoidsIff(g, start, c, {});
      LexAntisymmetric(a, c);
    }
  }

  /** The concrete entries of a set of roles. */
  ghost function ConcreteSites(g: Graph, roles: set<string>): set<Site> {
    set u, k | u in roles && 0 <= k < |g.entries(u)| && g.entries(u)[k].Concrete? :: Site(u, k)
  }

  lemma {:induction false} DistinctCount<T>(s: seq<T>)
    requires forall k, l :: 0 <= k < l < |s| ==> s[k] != s[l]
    ensures |set x | x in s| == |s|
  {
    if s != [] {
      var front, last := s[..|s| - 1], s[|s| - 1];
      DistinctCount(front);
      assert s == front + [last];
      assert (set x | x in s) == (set x | x in front) + {last};
    }
  }

  ghost function SitesOf(g: Graph, start: string, hits: seq<Address>): (sites: seq<Site>)
    requires forall a :: a in hits ==> Valid(g, start, a)
    ensures |sites| == |hits|
    ensures forall k :: 0 <= k < |hits| ==> hits[k] in hits && sites[k] == SiteOf(g, start, hits[k])
  {
    seq(|hits|, k requires 0 <= k < |hits| => assert hits[k] in hits; SiteOf(g, start, hits[k]))
  }

  lemma SitesDistinct(g: Graph, start: string, hits: seq<Address>)
    requires forall a :: a in hits ==> Valid(g, start, a)
    requires OncePerSite(g, start, hits) && Sorted(hits)
    ensures |set s | s in SitesOf(g, start, hits)| == |hits|
  {
    var sites := SitesOf(g, start, hits);
    forall k, l | 0 <= k < l < |sites|
      ensures sites[k] != sites[l]
    {
      assert LexLess(hits[k], hits[l]);
      LexIrreflexive(hits[k]);
    }
    DistinctCount(sites);
  }

  /** Each reachable role is expanded once: the walk emits as many addresses as the visited
      roles hold concrete entries. */
  lemma WalkCount(g: Graph, start: string)
    requires Closed(g)
    ensures |Walk(g, start, {}).hits| == |ConcreteSites(g, Walk(g, start, {}).visited)|
  {
    var w := Walk(g, start, {});
    WalkOnce(g, start, {});
    WalkAvoids(g, start, {});
    WalkCovers(g, start, {});
    SitesDistinct(g, start, w.hits);
    var sites := SitesOf(g, start, w.hits);
    forall s | s in sites
      ensures s in ConcreteSites(g, w.visited)
    {
      var k :| 0 <= k < |sites| && sites[k] == s;
      SiteIsConcrete(g, start, w.hits[k]);
    }
    forall s | s in ConcreteSites(g, w.visited)
      ensures s in sites
    {
      assert IsConcrete(g, s) && s.role in w.visited - {};
      var a :| a in w.hits && Valid(g, start, a) && SiteOf(g, start, a) == s;
      var k :| 0 <= k < |w.hits| && w.hits[k] == a;
      assert sites[k] == s;
    }
    assert (set s | s in sites) == ConcreteSites(g, w.visited);
  }

  lemma LexIrreflexive(a: Address)
    ensures !LexLess(a, a)
  {
    if LexLess(a, a) {
      LexAsymmetric(a, a);
    }
  }
}
