/** The model catalog: an index keyed by "provider/id", the linear scan it stands for, and the
    lookup of a model id as a user writes it. */
module ModelDb {
  import opened Wrappers
  import opened Strings

  datatype ModelEntry = ModelEntry(id: string, name: string, contextWindow: nat, maxTokens: nat)

  datatype Row = Row(provider: string, models: seq<ModelEntry>)

  type Table = seq<Row>

  type Index = map<string, ModelEntry>

  function Key(provider: string, id: string): string {
    provider + "/" + id
  }

  function Insert(index: Index, provider: string, models: seq<ModelEntry>): Index
    decreases |models|
  {
    if models == [] then index
    else
      var front, last := models[..|models| - 1], models[|models| - 1];
      Insert(index, provider, front)[Key(provider, last.id) := last]
  }

  /** All rows in order; a later entry replaces an earlier one with the same key. */
  function IndexOf(table: Table): Index {
    if table == [] then map[]
    else Insert(IndexOf(table[..|table| - 1]), table[|table| - 1].provider, table[|table| - 1].models)
  }

  method ModelIndex(table: Table) returns (index: Index)
    ensures index == IndexOf(table)
  {
    index := map[];
    var r := 0;
    while r < |table|
      invariant 0 <= r <= |table|
      invariant index == IndexOf(table[..r])
    {
      var row := table[r];
      ghost var before := index;
      var m := 0;
      while m < |row.models|
        invariant 0 <= m <= |row.models|
        invariant index == Insert(before, row.provider, row.models[..m])
      {
        var model := row.models[m];
        assert row.models[..m + 1][..m] == row.models[..m];
        index := index[Key(row.provider, model.id) := model];
        m := m + 1;
      }
      assert row.models[..m] == row.models;
      assert table[..r + 1][..r] == table[..r];
      r := r + 1;
    }
    assert table[..r] == table;
  }

  function GetModelEntry(table: Table, provider: string, id: string): Option<ModelEntry> {
    var index := IndexOf(table);
    if Key(provider, id) in index then Some(index[Key(provider, id)]) else None
  }

  // ---- What the index means

  function LastIn(models: seq<ModelEntry>, id: string): Option<ModelEntry> {
    if models == [] then None
    else if models[|models| - 1].id == id then Some(models[|models| - 1])
    else LastIn(models[..|models| - 1], id)
  }

  /** The last entry of the table with this provider and id. */
  function LastMatch(table: Table, provider: string, id: string): Option<ModelEntry> {
    if table == [] then None
    else
      var row := table[|table| - 1];
      var here := if row.provider == provider then LastIn(row.models, id) else None;
      if here.Some? then here else LastMatch(table[..|table| - 1], provider, id)
  }

  ghost predicate SlashFree(table: Table) {
    forall i :: 0 <= i < |table| ==> '/' !in table[i].provider
  }

  lemma {:induction false} KeyInjective(p: string, id: string, q: string, other: string)
    requires '/' !in p && '/' !in q && Key(p, id) == Key(q, other)
    ensures p == q && id == other
  {
    SplitPiece(p, id, '/');
    SplitPiece(q, other, '/');
    assert Split(Key(p, id), '/')[0] == p && Split(Key(q, other), '/')[0] == q;
    assert Key(p, id)[|p| + 1..] == id && Key(q, other)[|q| + 1..] == other;
  }

  lemma {:induction false} InsertMeaning(index: Index, row: string, models: seq<ModelEntry>, provider: string,
      id: string)
    requires '/' !in row && '/' !in provider
    ensures var r := Insert(index, row, models);
            var here := if row == provider then LastIn(models, id) else None;
            var k := Key(provider, id);
            if here.Some? then k in r && r[k] == here.value
            else (k in r <==> k in index) && (k in r ==> r[k] == index[k])
    decreases |models|
  {
    if models != [] {
      var front, last := models[..|models| - 1], models[|models| - 1];
      InsertMeaning(index, row, front, provider, id);
      if Key(row, last.id) == Key(provider, id) {
        KeyInjective(row, last.id, provider, id);
      }
    }
  }

  /** The index holds, for a provider without slashes, its last entry with the id. */
  lemma {:induction false} IndexIsLastMatch(table: Table, provider: string, id: string)
    requires SlashFree(table) && '/' !in provider
    ensures GetModelEntry(table, provider, id) == LastMatch(table, provider, id)
  {
    if table != [] {
      var front, row := table[..|table| - 1], table[|table| - 1];
      assert forall i :: 0 <= i < |front| ==> front[i] == table[i];
      IndexIsLastMatch(front, provider, id);
      InsertMeaning(IndexOf(front), row.provider, row.models, provider, id);
    }
  }

  // ---- The linear scan

  function FirstIn(models: seq<ModelEntry>, id: string): Option<ModelEntry> {
    if models == [] then None
    else if models[0].id == id then Some(models[0])
    else FirstIn(models[1..], id)
  }

  /** The first row of the provider, and in it the first entry with the id. */
  function LinearScan(table: Table, provider: string, id: string): Option<ModelEntry> {
    if table == [] then None
    else if table[0].provider == provider then FirstIn(table[0].models, id)
    else LinearScan(table[1..], provider, id)
  }

  ghost predicate UniqueIds(models: seq<ModelEntry>) {
    forall i, j :: 0 <= i < j < |models| ==> models[i].id != models[j].id
  }

  /** Providers without slashes, one row each, with unique ids. */
  ghost predicate WellFormed(table: Table) {
    && SlashFree(table)
    && (forall i, j :: 0 <= i < j < |table| ==> table[i].provider != table[j].provider)
    && (forall i :: 0 <= i < |table| ==> UniqueIds(table[i].models))
  }

  /** The one entry with the id, if there is one. */
  lemma {:induction false} FirstInMeaning(models: seq<ModelEntry>, id: string)
    ensures var r := FirstIn(models, id);
            if r.Some? then exists i :: 0 <= i < |models| && models[i] == r.value && r.value.id == id
            else forall i :: 0 <= i < |models| ==> models[i].id != id
  {
    if models != [] && models[0].id != id {
      FirstInMeaning(models[1..], id);
      assert forall i :: 0 < i < |models| ==> models[i] == models[1..][i - 1];
      if FirstIn(models, id).Some? {
        var i :| 0 <= i < |models[1..]| && models[1..][i] == FirstIn(models, id).value;
        assert models[i + 1] == FirstIn(models, id).value;
      }
    }
  }

  lemma {:induction false} LastInMeaning(models: seq<ModelEntry>, id: string)
    ensures var r := LastIn(models, id);
            if r.Some? then exists i :: 0 <= i < |models| && models[i] == r.value && r.value.id == id
            else forall i :: 0 <= i < |models| ==> models[i].id != id
  {
    if models != [] && models[|models| - 1].id != id {
      var front := models[..|models| - 1];
      LastInMeaning(front, id);
      assert forall i :: 0 <= i < |front| ==> models[i] == front[i];
    }
  }

  lemma FirstIsLast(models: seq<ModelEntry>, id: string)
    requires UniqueIds(models)
    ensures FirstIn(models, id) == LastIn(models, id)
  {
    FirstInMeaning(models, id);
    LastInMeaning(models, id);
  }

  ghost predicate MatchAt(table: Table, provider: string, id: string, i: int, j: int) {
    && 0 <= i < |table| && table[i].provider == provider
    && 0 <= j < |table[i].models| && table[i].models[j].id == id
  }

  lemma {:induction false} LastInAt(models: seq<ModelEntry>, id: string) returns (j: int)
    ensures -1 <= j < |models|
    ensures LastIn(models, id) == if j >= 0 then Some(models[j]) else None
    ensures j >= 0 ==> models[j].id == id
    ensures forall k :: j < k < |models| ==> models[k].id != id
  {
    if models == [] {
      j := -1;
    } else if models[|models| - 1].id == id {
      j := |models| - 1;
    } else {
      j := LastInAt(models[..|models| - 1], id);
    }
  }

  /** The match no later row and no later entry of its row repeats; none exactly if nothing matches. */
  lemma {:induction false} LastMatchMeaning(table: Table, provider: string, id: string) returns (i: int, j: int)
    ensures if LastMatch(table, provider, id).None? then forall k, l :: !MatchAt(table, provider, id, k, l)
            else
              && MatchAt(table, provider, id, i, j) && table[i].models[j] == LastMatch(table, provider, id).value
              && forall k, l :: MatchAt(table, provider, id, k, l) ==> k < i || (k == i && l <= j)
  {
    i, j := -1, -1;
    if table != [] {
      var front, row := table[..|table| - 1], table[|table| - 1];
      assert forall k, l :: k < |front| ==> MatchAt(table, provider, id, k, l) == MatchAt(front, provider, id, k, l);
      i, j := LastMatchMeaning(front, provider, id);
      var here := LastInAt(row.models, id);
      if row.provider == provider && here >= 0 {
        i, j := |table| - 1, here;
      }
    }
  }

  lemma {:induction false} LastMatchAbsent(table: Table, provider: string, id: string)
    requires forall i :: 0 <= i < |table| ==> table[i].provider != provider
    ensures LastMatch(table, provider, id) == None
  {
    if table != [] {
      LastMatchAbsent(table[..|table| - 1], provider, id);
    }
  }

  lemma {:induction false} LastMatchCons(row: Row, rest: Table, provider: string, id: string)
    ensures LastMatch([row] + rest, provider, id)
            == (var later := LastMatch(rest, provider, id);
                if later.Some? then later else if row.provider == provider then LastIn(row.models, id) else None)
    decreases |rest|
  {
    var all := [row] + rest;
    if rest == [] {
      assert all[..|all| - 1] == [];
    } else {
      assert all[..|all| - 1] == [row] + rest[..|rest| - 1];
      LastMatchCons(row, rest[..|rest| - 1], provider, id);
    }
  }

  lemma {:induction false} ScanIsLastMatch(table: Table, provider: string, id: string)
    requires WellFormed(table)
    ensures LinearScan(table, provider, id) == LastMatch(table, provider, id)
  {
    if table != [] {
      var row, rest := table[0], table[1..];
      assert table == [row] + rest && forall i :: 0 <= i < |rest| ==> rest[i] == table[i + 1];
      LastMatchCons(row, rest, provider, id);
      if row.provider == provider {
        LastMatchAbsent(rest, provider, id);
        FirstIsLast(row.models, id);
      } else {
        ScanIsLastMatch(rest, provider, id);
      }
    }
  }

  // ---- When the index stands for the scan

  /** A provider name with a slash reaches into another provider's ids. */
  lemma SlashReachesAcross(head: string, tail: string, id: string)
    requires '/' !in head
    ensures var entry := ModelEntry(Key(tail, id), "", 0, 0);
            var table := [Row(head, [entry])];
            && WellFormed(table)
            && GetModelEntry(table, Key(head, tail), id) == Some(entry)
            && LinearScan(table, Key(head, tail), id) == None
  {
    var entry := ModelEntry(Key(tail, id), "", 0, 0);
    var table := [Row(head, [entry])];
    assert Key(head, Key(tail, id)) == Key(Key(head, tail), id);
    assert [entry][..0] == [] && table[..0] == [] && table[1..] == [];
    assert IndexOf(table) == Insert(IndexOf([]), head, [entry]);
    assert Insert(map[], head, [entry]) == Insert(map[], head, [])[Key(head, entry.id) := entry];
    assert Key(head, tail) != head;
  }

  lemma {:induction false} FirstSlash(s: string) returns (head: string, tail: string)
    requires '/' in s
    ensures s == Key(head, tail) && '/' !in head
  {
    if s[0] == '/' {
      head, tail := [], s[1..];
    } else {
      head, tail := FirstSlash(s[1..]);
      head := [s[0]] + head;
      assert s == [s[0]] + s[1..];
    }
  }

  /** The index answers as the linear scan does, on every well-formed table, exactly for provider
      names without a slash. */
  lemma IndexAgreesExactly(provider: string, id: string)
    ensures (forall table ::
               WellFormed(table) ==> GetModelEntry(table, provider, id) == LinearScan(table, provider, id))
            <==> '/' !in provider
  {
    if '/' in provider {
      var head, tail := FirstSlash(provider);
      SlashReachesAcross(head, tail, id);
      var table := [Row(head, [ModelEntry(Key(tail, id), "", 0, 0)])];
      assert WellFormed(table) && GetModelEntry(table, provider, id) != LinearScan(table, provider, id);
    } else {
      forall table | WellFormed(table)
        ensures GetModelEntry(table, provider, id) == LinearScan(table, provider, id)
      {
        IndexIsLastMatch(table, provider, id);
        ScanIsLastMatch(table, provider, id);
      }
    }
  }

  // ---- Model ids as users write them

  /** The provider and the id a written model id stands for. */
  function ParseModelId(modelId: string): (string, string) {
    var parts := Split(modelId, '/');
    if |parts| >= 2 then (parts[0], Join(parts[1..], '/')) else ("anthropic", parts[0])
  }

  /** Everything after the first slash is the id, slashes included; without a slash the provider is
      Anthropic. */
  lemma ParseModelIdMeaning(provider: string, id: string)
    requires '/' !in provider
    ensures ParseModelId(Key(provider, id)) == (provider, id)
    ensures ParseModelId(provider) == ("anthropic", provider)
  {
    SplitPiece(provider, id, '/');
    JoinSplit(id, '/');
    SplitFree(provider, '/');
    assert Split(Key(provider, id), '/')[1..] == Split(id, '/');
  }

  /** A model from one of the registries, or built from a catalog entry. */
  datatype Model = Registered(provider: string, id: string) | FromCatalog(provider: string, entry: ModelEntry)

  type Registry = (string, string) -> Option<Model>

  function ResolveModelFromId(dynamic: Registry, builtin: Registry, table: Table, modelId: string): Option<Model> {
    var (provider, id) := ParseModelId(modelId);
    if dynamic(provider, id).Some? then dynamic(provider, id)
    else if builtin(provider, id).Some? then builtin(provider, id)
    else
      match GetModelEntry(table, provider, id)
      case None => None
      case Some(entry) => Some(FromCatalog(provider, entry))
  }

  /** The dynamic registry comes first, then the built-in one; both are asked for the written provider
      and id. An id without a slash is one of Anthropic's. */
  lemma RegistriesFirst(dynamic: Registry, builtin: Registry, table: Table, provider: string, id: string)
    requires '/' !in provider
    ensures var r := ResolveModelFromId(dynamic, builtin, table, provider + "/" + id);
            && (dynamic(provider, id).Some? ==> r == dynamic(provider, id))
            && (dynamic(provider, id).None? && builtin(provider, id).Some? ==> r == builtin(provider, id))
    ensures ResolveModelFromId(dynamic, builtin, table, provider)
            == ResolveModelFromId(dynamic, builtin, table, "anthropic/" + provider)
  {
    hide Split, Join, IndexOf;
    ParseModelIdMeaning(provider, id);
    ParseModelIdMeaning("anthropic", provider);
    assert Key("anthropic", provider) == "anthropic/" + provider;
  }

  /** Unknown to both registries, `provider/id` resolves to what a scan of the catalog for that
      provider and that id finds. */
  lemma ResolvesByScan(dynamic: Registry, builtin: Registry, table: Table, provider: string, id: string)
    requires '/' !in provider && WellFormed(table)
    requires dynamic(provider, id).None? && builtin(provider, id).None?
    ensures ResolveModelFromId(dynamic, builtin, table, Key(provider, id))
            == (match LinearScan(table, provider, id)
                case None => None
                case Some(entry) => Some(FromCatalog(provider, entry)))
  {
    ParseModelIdMeaning(provider, id);
    IndexIsLastMatch(table, provider, id);
    ScanIsLastMatch(table, provider, id);
  }
}
