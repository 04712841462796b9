/** Layered properties: the filters and groups of src/common/sbfProperties.c. */
module Properties {
  import opened Ordering
  import opened RedBlack
  import opened KeyValue

  /** strncmp (key, prefix, prefixlen) == 0 && key[prefixlen] == '.' */
  predicate Prefixed(key: string, prefix: string) {
    |prefix| < |key| && key[..|prefix|] == prefix && key[|prefix|] == '.'
  }

  function Rest(key: string, prefix: string): string
    requires Prefixed(key, prefix)
  {
    key[|prefix| + 1..]
  }

  function Dotted(prefix: string, key: string): string {
    prefix + "." + key
  }

  lemma DottedRest(prefix: string, key: string)
    ensures Prefixed(Dotted(prefix, key), prefix) && Rest(Dotted(prefix, key), prefix) == key
    ensures Prefixed(key, prefix) ==> Dotted(prefix, Rest(key, prefix)) == key
  {
    var d := Dotted(prefix, key);
    assert d[..|prefix|] == prefix && d[|prefix| + 1..] == key;
    if Prefixed(key, prefix) {
      assert key == key[..|prefix|] + [key[|prefix|]] + key[|prefix| + 1..];
    }
  }

  lemma RestInjective(prefix: string)
    ensures forall j, k :: Prefixed(j, prefix) && Prefixed(k, prefix) && Rest(j, prefix) == Rest(k, prefix) ==> j == k
  {
    forall j, k | Prefixed(j, prefix) && Prefixed(k, prefix) && Rest(j, prefix) == Rest(k, prefix) ensures j == k {
      DottedRest(prefix, j);
      DottedRest(prefix, k);
    }
  }

  /**
    The table that a filter is meant to produce: K has the value of prefix.K if that is there, else its
    own if it is not prefixed itself. FilteredAt says so key by key.
   */
  function Filtered(m: map<string, string>, prefix: string): map<string, string> {
    RestInjective(prefix);
    var own := map k | k in m && !Prefixed(k, prefix) :: m[k];
    var layered := map k | k in m && Prefixed(k, prefix) :: Rest(k, prefix) := m[k];
    own + layered
  }

  lemma FilteredAt(m: map<string, string>, prefix: string, k: string)
    ensures k in Filtered(m, prefix) <==> Dotted(prefix, k) in m || (k in m && !Prefixed(k, prefix))
    ensures Dotted(prefix, k) in m ==> Filtered(m, prefix)[k] == m[Dotted(prefix, k)]
    ensures Dotted(prefix, k) !in m && k in Filtered(m, prefix) ==> Filtered(m, prefix)[k] == m[k]
  {
    var d := Dotted(prefix, k);
    DottedRest(prefix, k);
    RestInjective(prefix);
    var layered := map j | j in m && Prefixed(j, prefix) :: Rest(j, prefix) := m[j];
    if d in m {
      assert Prefixed(d, prefix) && Rest(d, prefix) == k;
      assert k in layered && layered[k] == m[d];
    }
  }

  /** One more binding, wherever its key falls in the order, does what the loop does with it. */
  function FilterPut(f: map<string, string>, prefix: string, key: string, value: string): map<string, string> {
    if Prefixed(key, prefix) then f[Rest(key, prefix) := value]
    else if key !in f then f[key := value]
    else f
  }

  lemma FilterPutAt(m: map<string, string>, prefix: string, key: string, value: string, k: string)
    requires key !in m
    ensures var f, f' := FilterPut(Filtered(m, prefix), prefix, key, value), Filtered(m[key := value], prefix);
            (k in f <==> k in f') && (k in f ==> f[k] == f'[k])
  {
    FilteredAt(m, prefix, k);
    FilteredAt(m[key := value], prefix, k);
    DottedRest(prefix, k);
    DottedRest(prefix, key);
    assert Dotted(prefix, k) == key ==> Prefixed(key, prefix) && Rest(key, prefix) == k;
  }

  lemma FilteredStep(m: map<string, string>, prefix: string, key: string, value: string)
    requires key !in m
    ensures Filtered(m[key := value], prefix) == FilterPut(Filtered(m, prefix), prefix, key, value)
  {
    var f, f' := FilterPut(Filtered(m, prefix), prefix, key, value), Filtered(m[key := value], prefix);
    forall k ensures (k in f <==> k in f') && (k in f ==> f[k] == f'[k]) {
      FilterPutAt(m, prefix, key, value, k);
    }
  }

  /** The loop of sbfProperties_filter over items in the order they come. */
  function FilterLoop(ns: seq<Node>, prefix: string): map<string, string> {
    if ns == [] then map[]
    else
      var item := ns[|ns| - 1];
      FilterPut(FilterLoop(ns[..|ns| - 1], prefix), prefix, item.key, item.value)
  }

  lemma FilterLoopNext(ns: seq<Node>, i: nat, prefix: string)
    requires i < |ns|
    ensures FilterLoop(ns[..i + 1], prefix) == FilterPut(FilterLoop(ns[..i], prefix), prefix, ns[i].key, ns[i].value)
  {
    assert ns[..i + 1][..i] == ns[..i];
  }

  /** In whatever order the items come, the loop yields the table that the filter is meant to produce. */
  lemma {:induction false} FilterLoopMeaning(ns: seq<Node>, prefix: string)
    requires DistinctKeys(ns)
    ensures FilterLoop(ns, prefix) == Filtered(ToMap(ns), prefix)
  {
    if ns != [] {
      var i := |ns| - 1;
      FilterLoopMeaning(ns[..i], prefix);
      assert ns[..i + 1] == ns;
      ToMapSnoc(ns, i);
      NotBefore(ns, i);
      FilteredStep(ToMap(ns[..i]), prefix, ns[i].key, ns[i].value);
    }
  }

  method FilterItem(new_: Table, item: Node, prefix: string)
    requires new_.Valid()
    modifies new_`size, new_.tree, new_.tree.nodes
    ensures new_.Valid() && fresh(new_.tree.nodes - old(new_.tree.nodes))
    ensures new_.Map() == FilterPut(old(new_.Map()), prefix, item.key, item.value)
  {
    if Prefixed(item.key, prefix) {
      new_.Put(Rest(item.key, prefix), item.value);
    } else {
      var found, _ := new_.Get(item.key);
      if !found {
        new_.Put(item.key, item.value);
      }
    }
  }

  /** One round of the loop of sbfProperties_filter. */
  method FilterRound(table: Table, prefix: string, new_: Table, item: Node, ghost ns: seq<Node>, ghost i: nat)
    returns (r: Node?)
    requires table.Valid() && table.tree.Elements() == ns && i < |ns| && ns[i] == item
    requires new_.Valid() && new_.Apart(table) && new_.Map() == FilterLoop(ns[..i], prefix)
    modifies new_`size, new_.tree, new_.tree.nodes
    ensures table.Valid() && table.tree.Elements() == ns
    ensures new_.Valid() && new_.Apart(table)
    ensures forall n :: n in new_.tree.nodes ==> n in old(new_.tree.nodes) || fresh(n)
    ensures new_.Map() == FilterLoop(ns[..i + 1], prefix)
    ensures r == At(ns, i + 1)
  {
    FilterLoopNext(ns, i, prefix);
    FilterItem(new_, item, prefix);
    r := table.Next(item, i);
  }

  method FilterInto(table: Table, prefix: string, new_: Table)
    requires table.Valid() && new_.Valid() && new_.Apart(table) && new_.Map() == map[]
    modifies new_`size, new_.tree, new_.tree.nodes
    ensures new_.Valid() && new_.Map() == FilterLoop(table.tree.Elements(), prefix)
    ensures fresh(new_.tree.nodes - old(new_.tree.nodes))
  {
    ghost var ns := table.tree.Elements();
    var item := table.First();
    ghost var i := 0;
    assert ns[..0] == [];
    while item != null
      invariant table.Valid() && table.tree.Elements() == ns && i <= |ns| && item == At(ns, i)
      invariant new_.Valid() && new_.Apart(table)
      invariant forall n :: n in new_.tree.nodes ==> n in old(new_.tree.nodes) || fresh(n)
      invariant new_.Map() == FilterLoop(ns[..i], prefix)
      decreases |ns| - i
    {
      item := FilterRound(table, prefix, new_, item, ns, i);
      i := i + 1;
    }
    assert ns[..i] == ns;
  }

  method Filter(table: Table, prefix: string) returns (new_: Table)
    requires table.Valid()
    ensures new_.Valid() && fresh(new_) && fresh(new_.tree) && fresh(new_.tree.nodes)
    ensures new_.Map() == Filtered(table.Map(), prefix)
  {
    new_ := new Table();
    FilterInto(table, prefix, new_);
    SortedKeysDistinct(table.tree.Elements());
    FilterLoopMeaning(table.tree.Elements(), prefix);
  }

  /** One filter after the other. */
  function FilteredN(m: map<string, string>, prefixes: seq<string>): map<string, string>
    decreases |prefixes|
  {
    if prefixes == [] then m else FilteredN(Filtered(m, prefixes[0]), prefixes[1..])
  }

  /** The precedence of two filters, a and then b. */
  lemma Precedence(m: map<string, string>, a: string, b: string, k: string)
    ensures var r := FilteredN(m, [a, b]);
            var abk, bk, ak := Dotted(a, Dotted(b, k)), Dotted(b, k), Dotted(a, k);
            if abk in m then k in r && r[k] == m[abk]
            else if bk in m && !Prefixed(bk, a) then k in r && r[k] == m[bk]
            else if ak in m && !Prefixed(k, b) then k in r && r[k] == m[ak]
            else if k in m && !Prefixed(k, b) && !Prefixed(k, a) then k in r && r[k] == m[k]
            else k !in r
  {
    var f := Filtered(m, a);
    assert [a, b][1..] == [b] && [b][1..] == [];
    assert FilteredN(m, [a, b]) == FilteredN(f, [b]) == FilteredN(Filtered(f, b), []) == Filtered(f, b);
    FilteredAt(m, a, Dotted(b, k));
    FilteredAt(m, a, k);
    FilteredAt(f, b, k);
  }

  method FilterN(table: Table, prefixes: seq<string>) returns (new_: Table)
    requires table.Valid()
    ensures new_.Valid() && new_.Map() == FilteredN(table.Map(), prefixes)
    ensures prefixes != [] ==> fresh(new_) && fresh(new_.tree) && fresh(new_.tree.nodes)
    ensures prefixes == [] ==> new_ == table
  {
    new_ := table;
    for i := 0 to |prefixes|
      invariant new_.Valid() && FilteredN(new_.Map(), prefixes[i..]) == FilteredN(table.Map(), prefixes)
      invariant i > 0 ==> fresh(new_) && fresh(new_.tree) && fresh(new_.tree.nodes)
      invariant i == 0 ==> new_ == table
    {
      assert prefixes[i..][1..] == prefixes[i + 1..];
      new_ := Filter(new_, prefixes[i]);
    }
  }

  // ---------------------------------------------------------------------------------------------
  // Groups
  // ---------------------------------------------------------------------------------------------

  /** name[strcspn (name, ".")] = 0 */
  function UpToDot(s: string): string {
    if s == [] || s[0] == '.' then [] else [s[0]] + UpToDot(s[1..])
  }

  /** The name of the group member that the key belongs to. */
  function MemberOf(key: string, group: string): string
    requires Prefixed(key, group)
  {
    UpToDot(Rest(key, group))
  }

  function GroupPut(names: seq<string>, key: string, group: string): seq<string> {
    if Prefixed(key, group) && MemberOf(key, group) !in names then names + [MemberOf(key, group)] else names
  }

  /** The names of the members of the group, each at its first occurrence. */
  function GroupNames(ns: seq<Node>, group: string): seq<string> {
    if ns == [] then [] else GroupPut(GroupNames(ns[..|ns| - 1], group), ns[|ns| - 1].key, group)
  }

  lemma GroupNamesNext(ns: seq<Node>, i: nat, group: string)
    requires i < |ns|
    ensures GroupNames(ns[..i + 1], group) == GroupPut(GroupNames(ns[..i], group), ns[i].key, group)
  {
    assert ns[..i + 1][..i] == ns[..i];
  }

  predicate HasMember(key: string, group: string, name: string) {
    Prefixed(key, group) && MemberOf(key, group) == name
  }

  /** The names are exactly those of the members of the group. */
  lemma {:induction false} GroupNamesMeaning(ns: seq<Node>, group: string, name: string)
    ensures name in GroupNames(ns, group) <==> exists n :: n in ns && HasMember(n.key, group, name)
  {
    if ns != [] {
      var init, last := ns[..|ns| - 1], ns[|ns| - 1];
      GroupNamesMeaning(init, group, name);
      assert ns == init + [last];
    }
  }

  lemma {:induction false} UpToDotExactly(s: string)
    ensures '.' !in UpToDot(s) && (UpToDot(s) == s || UpToDot(s) + "." <= s)
  {
    if s != [] && s[0] != '.' {
      UpToDotExactly(s[1..]);
      assert s == [s[0]] + s[1..];
    }
  }

  lemma {:induction false} UpToDotUnique(name: string, rest: string)
    requires '.' !in name && (rest == [] || rest[0] == '.')
    ensures UpToDot(name + rest) == name
  {
    if name == [] {
      assert name + rest == rest;
    } else {
      UpToDotUnique(name[1..], rest);
      assert (name + rest)[1..] == name[1..] + rest;
    }
  }

  /** The key belongs to a member exactly if it is group.name or begins with group.name and a dot; a name has no dot. */
  lemma MemberExactly(key: string, group: string, name: string)
    ensures HasMember(key, group, name)
       <==> '.' !in name && (key == Dotted(group, name) || Dotted(Dotted(group, name), "") <= key)
  {
    var whole := Dotted(group, name);
    if HasMember(key, group, name) {
      DottedRest(group, key);
      var rest := Rest(key, group);
      UpToDotExactly(rest);
      assert name != rest ==> Dotted(group, name + ".") <= Dotted(group, rest);
      assert Dotted(group, name + ".") == Dotted(whole, "");
    }
    if '.' !in name && (key == whole || Dotted(whole, "") <= key) {
      var tail := key[|whole|..];
      assert key == Dotted(group, name + tail);
      DottedRest(group, name + tail);
      assert tail != [] ==> tail[0] == key[|whole|] == Dotted(whole, "")[|whole|];
      UpToDotUnique(name, tail);
    }
  }

  /** No name comes twice. */
  lemma {:induction false} GroupNamesDistinct(ns: seq<Node>, group: string)
    ensures forall i, j :: 0 <= i < j < |GroupNames(ns, group)| ==> GroupNames(ns, group)[i] != GroupNames(ns, group)[j]
  {
    if ns != [] {
      GroupNamesDistinct(ns[..|ns| - 1], group);
    }
  }

  lemma {:induction false} GroupNamesGrow(ns: seq<Node>, i: nat, group: string)
    requires i <= |ns|
    ensures GroupNames(ns[..i], group) <= GroupNames(ns, group)
    decreases |ns| - i
  {
    if i == |ns| {
      assert ns[..i] == ns;
    } else {
      GroupNamesGrow(ns, i + 1, group);
      assert ns[..i + 1][..i] == ns[..i];
    }
  }

  /** What the callback is given for a member of the group. */
  function MemberTable(m: map<string, string>, group: string, name: string): map<string, string> {
    FilteredN(m, [group, name])
  }

  /** Each key that it is given has the value of the most specific of the four keys that it may stand under. */
  lemma MemberTableAt(m: map<string, string>, group: string, name: string, k: string)
    ensures var r := MemberTable(m, group, name);
            if group + "." + name + "." + k in m then k in r && r[k] == m[group + "." + name + "." + k]
            else if name + "." + k in m && !(group + "." <= name + "." + k) then k in r && r[k] == m[name + "." + k]
            else if group + "." + k in m && !(name + "." <= k) then k in r && r[k] == m[group + "." + k]
            else if k in m && !(name + "." <= k) && !(group + "." <= k) then k in r && r[k] == m[k]
            else k !in r
  {
    Precedence(m, group, name, k);
    PrefixedExactly(k, name);
    PrefixedExactly(k, group);
    PrefixedExactly(name + "." + k, group);
    assert Dotted(group, Dotted(name, k)) == group + "." + name + "." + k;
  }

  lemma PrefixedExactly(key: string, prefix: string)
    ensures Prefixed(key, prefix) <==> prefix + "." <= key
  {
    if Prefixed(key, prefix) {
      DottedRest(prefix, key);
    }
    if prefix + "." <= key {
      assert key[|prefix|] == (prefix + ".")[|prefix|];
      assert key[..|prefix|] == (prefix + ".")[..|prefix|];
    }
  }

  /** What the callback answers for a member of the group. */
  function Answer(cb: (string, map<string, string>) -> int, m: map<string, string>, group: string, name: string): int {
    cb(name, MemberTable(m, group, name))
  }

  method Contains(list: seq<string>, name: string) returns (b: bool)
    ensures b == (name in list)
  {
    for i := 0 to |list|
      invariant name !in list[..i]
    {
      if list[i] == name {
        return true;
      }
    }
    return false;
  }

  /**
    Calls the callback for the members of the group, in the order their first keys come, until one call
    returns an error. The callback is a function here, `list` the names that it was called with.
   */
  method GetGroup(table: Table, group: string, cb: (string, map<string, string>) -> int)
    returns (error: int, list: seq<string>)
    requires table.Valid()
    ensures list <= GroupNames(table.tree.Elements(), group)
    ensures list != [] ==> AllAnswered(cb, table.Map(), group, list[..|list| - 1])
    ensures list != [] ==> error == Answer(cb, table.Map(), group, list[|list| - 1])
    ensures error == 0 ==> list == GroupNames(table.tree.Elements(), group)
  {
    error, list := 0, [];
    ghost var ns, m := table.tree.Elements(), table.Map();
    var item := table.First();
    ghost var i := 0;
    assert ns[..0] == [];
    while item != null
      invariant table.Valid() && table.tree.Elements() == ns && table.Map() == m && i <= |ns| && item == At(ns, i)
      invariant list == GroupNames(ns[..i], group) && error == 0 && AllAnswered(cb, m, group, list)
      decreases |ns| - i
    {
      GroupNamesGrow(ns, i + 1, group);
      error, list := GroupRound(table, group, cb, item, list, ns, i);
      if error != 0 {
        return;
      }
      item := table.Next(item, i);
      i := i + 1;
    }
    assert ns[..i] == ns;
  }

  /** One round of the loop of sbfProperties_getGroup, after calls that returned no error. */
  method GroupRound(table: Table, group: string, cb: (string, map<string, string>) -> int, item: Node,
                    list0: seq<string>, ghost ns: seq<Node>, ghost i: nat)
    returns (error: int, list: seq<string>)
    requires table.Valid() && i < |ns| && ns[i] == item
    requires list0 == GroupNames(ns[..i], group) && AllAnswered(cb, table.Map(), group, list0)
    ensures list == GroupNames(ns[..i + 1], group)
    ensures error == 0 ==> AllAnswered(cb, table.Map(), group, list)
    ensures error != 0 ==>
      list != [] && list[..|list| - 1] == list0 && error == Answer(cb, table.Map(), group, list[|list| - 1])
  {
    GroupNamesNext(ns, i, group);
    error, list := GroupItem(table, group, item.key, list0, cb);
    if error == 0 {
      AnsweredOneMore(cb, table.Map(), group, list0, list);
    }
  }

  /** The callback has returned no error for any of the names. */
  ghost predicate AllAnswered(cb: (string, map<string, string>) -> int, m: map<string, string>, group: string,
          list: seq<string>)
  {
    forall k :: 0 <= k < |list| ==> Answer(cb, m, group, list[k]) == 0
  }

  lemma AnsweredOneMore(cb: (string, map<string, string>) -> int, m: map<string, string>, group: string,
          before: seq<string>,
                        list: seq<string>)
    requires AllAnswered(cb, m, group, before)
    requires list == before || (|list| == |before| + 1 && list[..|before|] == before && Answer(cb, m, group, list[|before|]) == 0)
    ensures AllAnswered(cb, m, group, list)
  {
    forall k | 0 <= k < |list| ensures Answer(cb, m, group, list[k]) == 0 {
      if k < |before| {
        assert list[k] == before[k];
      }
    }
  }

  /** Calls the callback if the key is the first of a member of the group. */
  method GroupItem(table: Table, group: string, key: string, list0: seq<string>, cb: (string, map<string,
          string>) -> int)
    returns (error: int, list: seq<string>)
    requires table.Valid()
    ensures list == GroupPut(list0, key, group)
    ensures list == list0 ==> error == 0
    ensures list != list0 ==> |list| == |list0| + 1 && list[..|list0|] == list0
    ensures list != list0 ==> error == Answer(cb, table.Map(), group, list[|list| - 1])
  {
    error, list := 0, list0;
    if Prefixed(key, group) {
      var name := MemberOf(key, group);
      var known := Contains(list, name);
      if !known {
        list := list + [name];
        error := CallMember(table, group, name, cb);
      }
    }
  }

  method CallMember(table: Table, group: string, name: string, cb: (string, map<string, string>) -> int)
    returns (error: int)
    requires table.Valid()
    ensures error == Answer(cb, table.Map(), group, name)
  {
    var filtered := FilterN(table, [group, name]);
    var given := Snapshot(filtered);
    error := cb(name, given);
  }

  /** What the callback can read of a table. */
  method Snapshot(table: Table) returns (m: map<string, string>)
    requires table.Valid()
    ensures m == table.Map()
  {
    m := map[];
    ghost var ns := table.tree.Elements();
    SortedKeysDistinct(ns);
    var item := table.First();
    ghost var i := 0;
    while item != null
      invariant i <= |ns| && item == (if i < |ns| then ns[i] else null) && m == ToMap(ns[..i])
      decreases |ns| - i
    {
      ToMapSnoc(ns, i);
      m := m[item.key := item.value];
      item := table.Next(item, i);
      i := i + 1;
    }
    assert ns[..i] == ns;
  }
}
