/** What the manager operations leave of catalog, groups and chains, and what a configuration must be like to
    be accepted, item by item. */
module RoutingOutcomes {
  import opened Sequences
  import opened ModelRouting
  import opened RoutingContract

  // ---------------------------------------------------------------- who is a candidate

  /** The group a name stands for: the first of that name. */
  ghost predicate Stands(groups: seq<Group>, name: Key, g: Group) {
    name != "" && exists i :: 0 <= i < |groups| && groups[i] == g && g.name == name
                    && forall j :: 0 <= j < i ==> groups[j].name != name
  }

  lemma {:induction false} GroupIsFirst(groups: seq<Group>, name: Key)
    ensures var found := FindGroup(groups, name);
            && (found.Some? ==> Stands(groups, name, found.value))
            && (found.None? && name != "" ==> forall g :: g in groups ==> g.name != name)
  {
    if groups != [] && name != "" && groups[0].name != name {
      GroupIsFirst(groups[1..], name);
      assert forall i :: 0 <= i < |groups[1..]| ==> groups[1..][i] == groups[i + 1];
      if FindGroup(groups[1..], name).Some? {
        var g := FindGroup(groups[1..], name).value;
        var i :| 0 <= i < |groups[1..]| && groups[1..][i] == g && forall j :: 0 <= j < i ==>
          groups[1..][j].name != name;
        assert groups[i + 1] == g && forall j :: 0 <= j < i + 1 ==> groups[j].name != name;
      }
    }
  }

  lemma {:induction false} NonBlankAre(keys: seq<Key>)
    ensures forall k :: k in NonBlank(keys) <==> k in keys && k != ""
  {
    if keys != [] {
      NonBlankAre(keys[1..]);
      assert keys == [keys[0]] + keys[1..];
    }
  }

  lemma OneStands(groups: seq<Group>, name: Key, g: Group)
    requires Stands(groups, name, g)
    ensures FindGroup(groups, name) == Some(g)
  {
    GroupIsFirst(groups, name);
    var i :| 0 <= i < |groups| && groups[i] == g && g.name == name && forall j :: 0 <= j < i ==> groups[j].name != name;
    assert groups[i] in groups;
  }

  /** A hop offers its model, or the members of its group if that is switched on. */
  ghost predicate Offers(groups: seq<Group>, e: Entry, key: Key) {
    e == Model(key) || exists g :: e.Balanced? && Stands(groups, e.group, g) && g.enabled && key in g.members
  }

  lemma HopOffers(groups: seq<Group>, e: Entry, key: Key)
    ensures key in EntryKeys(groups, e)
            <==> key != "" && Offers(groups, e, key)
  {
    match e
    case Model(k) => NonBlankAre([k]);
    case Balanced(name) =>
      GroupIsFirst(groups, name);
      if FindGroup(groups, name).Some? {
        NonBlankAre(FindGroup(groups, name).value.members);
      }
      forall g | Stands(groups, name, g)
        ensures FindGroup(groups, name) == Some(g)
      {
        OneStands(groups, name, g);
      }
  }

  lemma {:induction false} ChainOffers(groups: seq<Group>, chain: seq<Entry>, key: Key)
    ensures key in Expand(groups, chain) <==> exists e :: e in chain && key in EntryKeys(groups, e)
  {
    if chain != [] {
      ChainOffers(groups, chain[1..], key);
      assert chain == [chain[0]] + chain[1..];
    }
  }

  /** The candidates of a role: each once, and exactly the keys some hop of its chain offers. */
  lemma CandidatesAreOffered(c: Config, scope: Scope, key: Key)
    ensures Distinct(ModelKeys(c, scope))
    ensures key in ModelKeys(c, scope)
            <==> key != "" && exists e :: e in Chain(c.roles, scope) && Offers(c.groups, e, key)
  {
    var chain := Chain(c.roles, scope);
    UniqueMembers(Expand(c.groups, chain), {});
    ChainOffers(c.groups, chain, key);
    forall e
      ensures key in EntryKeys(c.groups, e) <==> key != "" && Offers(c.groups, e, key)
    {
      HopOffers(c.groups, e, key);
    }
  }

  /** The first key occurs before the second does. */
  ghost predicate OccursBefore(keys: seq<Key>, a: Key, b: Key) {
    exists p :: 0 <= p < |keys| && keys[p] == a && b !in keys[..p + 1]
  }

  lemma OccursBeforeCons(keys: seq<Key>, a: Key, b: Key)
    requires keys != [] && keys[0] != b && OccursBefore(keys[1..], a, b)
    ensures OccursBefore(keys, a, b)
  {
    var p :| 0 <= p < |keys[1..]| && keys[1..][p] == a && b !in keys[1..][..p + 1];
    assert keys[..p + 2] == [keys[0]] + keys[1..][..p + 1] && keys[p + 1] == a;
  }

  /** Of two candidates the one offered first comes first. */
  lemma {:induction false} CandidatesInOrder(keys: seq<Key>, seen: set<Key>, i: nat, j: nat)
    requires i < j < |Unique(keys, seen)|
    ensures OccursBefore(keys, Unique(keys, seen)[i], Unique(keys, seen)[j])
    decreases |keys|
  {
    var u := Unique(keys, seen);
    if keys[0] in seen {
      CandidatesInOrder(keys[1..], seen, i, j);
      UniqueMembers(keys[1..], seen);
      assert u[j] in u;
      OccursBeforeCons(keys, u[i], u[j]);
    } else {
      var rest := Unique(keys[1..], seen + {keys[0]});
      UniqueMembers(keys[1..], seen + {keys[0]});
      assert u[j] == rest[j - 1] && u[j] in rest;
      if i == 0 {
        assert keys[..1] == [keys[0]] && keys[0] == u[0];
      } else {
        CandidatesInOrder(keys[1..], seen + {keys[0]}, i - 1, j - 1);
        OccursBeforeCons(keys, u[i], u[j]);
      }
    }
  }

  // ---------------------------------------------------------------- what is accepted

  ghost predicate IsEnabled(c: Config, key: Key) {
    exists i :: 0 <= i < |c.catalog| && c.catalog[i].key == key && c.catalog[i].enabled
  }

  ghost predicate IsGroup(c: Config, name: Key) {
    name != "" && exists i :: 0 <= i < |c.groups| && c.groups[i].name == name
  }

  /** Keys once; groups named unlike models, with enabled members, each once; groups only in the execution
      and inspection chains; enabled models in all chains but the memory chain. */
  ghost predicate Sound(c: Config) {
    && (forall i, j :: 0 <= i < j < |c.catalog| ==> c.catalog[i].key != c.catalog[j].key)
    && (forall g :: g in c.groups ==>
          && (forall i :: 0 <= i < |c.catalog| ==> c.catalog[i].key != g.name)
          && |g.members| > 0 && Distinct(g.members) && forall m :: m in g.members ==> IsEnabled(c, m))
    && (forall e :: e in c.roles.ceo ==> e.Model? && IsEnabled(c, e.key))
    && (forall e :: e in c.roles.execution + c.roles.inspection ==>
          if e.Model? then IsEnabled(c, e.key) else IsGroup(c, e.group))
    && (forall e :: e in c.roles.memory ==> e.Model?)
  }

  lemma EnabledIsThere(c: Config, key: Key)
    ensures Enabled(c.catalog, key) <==> IsEnabled(c, key)
    ensures HasKey(c.catalog, key) <==> exists i :: 0 <= i < |c.catalog| && c.catalog[i].key == key
    ensures FindGroup(c.groups, key).Some? <==> IsGroup(c, key)
  {
    if Enabled(c.catalog, key) {
      var item :| item in c.catalog && item.key == key && item.enabled;
      var i :| 0 <= i < |c.catalog| && c.catalog[i] == item;
    }
    if HasKey(c.catalog, key) {
      var item :| item in c.catalog && item.key == key;
      var i :| 0 <= i < |c.catalog| && c.catalog[i] == item;
    }
    if i :| 0 <= i < |c.catalog| && c.catalog[i].key == key {
      assert c.catalog[i] in c.catalog;
    }
    GroupIsFirst(c.groups, key);
  }

  lemma {:induction false} ContractIsSound(c: Config)
    ensures Contract(c) <==> Sound(c)
  {
    forall key: Key
      ensures Enabled(c.catalog, key) <==> IsEnabled(c, key)
      ensures HasKey(c.catalog, key) <==> exists i :: 0 <= i < |c.catalog| && c.catalog[i].key == key
      ensures FindGroup(c.groups, key).Some? <==> IsGroup(c, key)
    {
      EnabledIsThere(c, key);
    }
    forall g: Group
      ensures HasTwice(g.members) <==> !Distinct(g.members)
    {
    }
    assert forall e :: e in c.roles.execution + c.roles.inspection
             <==> e in c.roles.execution || e in c.roles.inspection;
  }

  ghost predicate StoredForm(chain: seq<Entry>, stored: seq<Entry>) {
    && Distinct(stored)
    && forall e :: e in stored <==> e in chain && (if e.Model? then e.key else e.group) != ""
  }

  lemma {:induction false} StoredEntries(chain: seq<Entry>, seen: set<Entry>)
    ensures Distinct(Stored(chain, seen))
    ensures forall e :: e in Stored(chain, seen) <==> e in chain && Name(e) != "" && e !in seen
    decreases |chain|
  {
    if chain != [] {
      assert chain == [chain[0]] + chain[1..];
      StoredEntries(chain[1..], if Name(chain[0]) == "" || chain[0] in seen then seen else seen + {chain[0]});
    }
  }

  lemma StoredChain(chain: seq<Entry>)
    ensures StoredForm(chain, Stored(chain, {}))
  {
    StoredEntries(chain, {});
  }

  /** A configuration is accepted if and only if it is sound once its chains are stored: without blank
      entries, every entry once. Then it is that, and nothing else changes. */
  lemma AcceptedIsSound(c: Config)
    ensures var stored := c.(roles := StoredRoles(c.roles));
            && StoredForm(c.roles.ceo, stored.roles.ceo) && StoredForm(c.roles.execution, stored.roles.execution)
            && StoredForm(c.roles.inspection, stored.roles.inspection)
            && StoredForm(c.roles.memory, stored.roles.memory)
            && Revalidated(c) == if Sound(stored) then Some(stored) else None
  {
    StoredChain(c.roles.ceo);
    StoredChain(c.roles.execution);
    StoredChain(c.roles.inspection);
    StoredChain(c.roles.memory);
    ContractIsSound(c.(roles := StoredRoles(c.roles)));
  }

  // ---------------------------------------------------------------- what an operation leaves

  /** Groups keep name, switch and rounds. */
  ghost predicate SameGroups(groups: seq<Group>, groups': seq<Group>) {
    |groups'| == |groups|
    && forall i :: 0 <= i < |groups| ==> groups'[i] == groups[i].(members := groups'[i].members)
  }

  /** Operations on keys that are not there, and renames to nothing, to the same key or to a key in use,
      change nothing; only the rename to the same key counts as done. */
  lemma RefusedOperations(c: Config, key: Key, becomes: Key, enabled: bool)
    ensures !HasKey(c.catalog, key) ==>
              && RenameModel(c, key, becomes) == Effect(c, false)
              && SetModelEnabled(c, key, enabled) == Effect(c, false) && DeleteModel(c, key) == Effect(c, false)
    ensures HasKey(c.catalog, key) && becomes == "" ==> RenameModel(c, key, becomes) == Effect(c, false)
    ensures HasKey(c.catalog, key) && becomes == key && becomes != "" ==>
            RenameModel(c, key, becomes) == Effect(c, true)
    ensures HasKey(c.catalog, becomes) && becomes != key ==> RenameModel(c, key, becomes) == Effect(c, false)
  {
  }

  /** Catalog, orchestrator and groups after a rename: the key is the other one everywhere, and no switch,
      name, order or number of rounds has changed. */
  ghost predicate RenamedEverywhere(c: Config, c': Config, key: Key, becomes: Key) {
    && |c'.catalog| == |c.catalog|
    && (forall i :: 0 <= i < |c.catalog| ==>
          && c'.catalog[i].enabled == c.catalog[i].enabled
          && c'.catalog[i].key == if c.catalog[i].key == key then becomes else c.catalog[i].key)
    && c'.orchestrator == (if c.orchestrator == Some(key) then Some(becomes) else c.orchestrator)
    && SameGroups(c.groups, c'.groups)
    && (forall i :: 0 <= i < |c.groups| ==> |c'.groups[i].members| == |c.groups[i].members|)
    && forall i, j :: 0 <= i < |c.groups| && 0 <= j < |c.groups[i].members| ==>
         c'.groups[i].members[j]
         == if c.groups[i].members[j] == key then becomes else c.groups[i].members[j]
  }

  lemma RenamedMembers(g: Group, g': Group, key: Key, becomes: Key)
    requires g' == g.(members := RenameKeys(g.members, key, becomes))
    ensures g' == g.(members := g'.members) && |g'.members| == |g.members|
    ensures forall j :: 0 <= j < |g.members| ==> g'.members[j] == if g.members[j] == key then becomes else g.members[j]
  {
    RenamedAt(g.members, key, becomes);
  }

  lemma RenameIsLive(c: Config, key: Key, becomes: Key)
    requires Contract(c) && key != "" && RenameModel(c, key, becomes).ok && becomes != key
    ensures HasKey(c.catalog, key) && !HasKey(c.catalog, becomes) && becomes != ""
    ensures RenameModel(c, key, becomes).live
            == RenamedLive(c, key, becomes).(roles := StoredRoles(RenamedLive(c, key, becomes).roles))
  {
    RenameComesToLive(c, key, becomes);
  }

  lemma RenameLeaves(c: Config, key: Key, becomes: Key)
    requires Contract(c) && key != "" && RenameModel(c, key, becomes).ok && becomes != key
    ensures RenamedEverywhere(c, RenameModel(c, key, becomes).live, key, becomes)
  {
    var c' := RenameModel(c, key, becomes).live;
    RenameIsLive(c, key, becomes);
    RenamedGroupsOk(c.catalog, c.groups, key, becomes);
    forall i | 0 <= i < |c.groups|
      ensures c'.groups[i] == c.groups[i].(members := RenameKeys(c.groups[i].members, key, becomes))
      ensures c'.groups[i] == c.groups[i].(members := c'.groups[i].members)
      ensures |c'.groups[i].members| == |c.groups[i].members|
    {
      RenamedMembers(c.groups[i], c'.groups[i], key, becomes);
    }
    forall i, j | 0 <= i < |c.groups| && 0 <= j < |c.groups[i].members|
      ensures c'.groups[i].members[j] == if c.groups[i].members[j] == key then becomes else c.groups[i].members[j]
    {
      RenamedMembers(c.groups[i], c'.groups[i], key, becomes);
    }
  }

  /** Every entry is there under its new name, once, and no other. */
  ghost predicate RenamedChain(chain: seq<Entry>, chain': seq<Entry>, key: Key, becomes: Key) {
    && Distinct(chain')
    && (forall e :: e in chain && e != Model(key) && (if e.Model? then e.key else e.group) != "" ==> e in chain')
    && (Model(key) in chain ==> Model(becomes) in chain')
    && (forall e :: e in chain' ==> (e in chain && e != Model(key)) || (Model(key) in chain && e == Model(becomes)))
  }

  lemma {:induction false} EntriesRenamed(chain: seq<Entry>, key: Key, becomes: Key)
    ensures forall i :: 0 <= i < |chain| ==>
              RenameEntries(chain, key, becomes)[i] == if chain[i] == Model(key) then Model(becomes) else chain[i]
  {
    if chain != [] {
      EntriesRenamed(chain[1..], key, becomes);
      var renamed := RenameEntries(chain, key, becomes);
      assert renamed[1..] == RenameEntries(chain[1..], key, becomes);
      assert forall i :: 1 <= i < |chain| ==> chain[i] == chain[1..][i - 1] && renamed[i] == renamed[1..][i - 1];
    }
  }

  lemma ChainRenamed(chain: seq<Entry>, key: Key, becomes: Key)
    requires key != "" && becomes != ""
    ensures RenamedChain(chain, Stored(RenameChain(chain, key, becomes), {}), key, becomes)
  {
    var renamed := RenameEntries(chain, key, becomes);
    EntriesRenamed(chain, key, becomes);
    StoredEntries(renamed, {});
    StoredEntries(RenameChain(chain, key, becomes), {});
    forall e | e in chain
      ensures (if e == Model(key) then Model(becomes) else e) in renamed
    {
      var i :| 0 <= i < |chain| && chain[i] == e;
      assert renamed[i] in renamed;
    }
    forall e | e in renamed
      ensures (e in chain && e != Model(key)) || (Model(key) in chain && e == Model(becomes))
    {
      var i :| 0 <= i < |renamed| && renamed[i] == e;
      assert chain[i] in chain;
    }
  }

  /** The chains after a rename. */
  lemma RenameLeavesChains(c: Config, key: Key, becomes: Key, scope: Scope)
    requires Contract(c) && key != "" && RenameModel(c, key, becomes).ok && becomes != key
    ensures RenamedChain(Chain(c.roles, scope), Chain(RenameModel(c, key, becomes).live.roles, scope), key, becomes)
  {
    RenameIsLive(c, key, becomes);
    ChainRenamed(Chain(c.roles, scope), key, becomes);
  }

  /** The key is out of all groups and no longer the orchestrator's; all else is as it was. */
  ghost predicate GoneFromGroups(c: Config, c': Config, key: Key) {
    && c'.orchestrator == (if c.orchestrator == Some(key) then None else c.orchestrator)
    && SameGroups(c.groups, c'.groups)
    && forall i :: 0 <= i < |c.groups| ==>
         forall m :: m in c'.groups[i].members <==> m in c.groups[i].members && m != key
  }

  /** No chain has an entry for the key, and all other entries are still there. */
  ghost predicate GoneFromChain(chain: seq<Entry>, chain': seq<Entry>, key: Key) {
    && Distinct(chain')
    && forall e :: e in chain' <==> e in chain && e != Model(key) && (if e.Model? then e.key else e.group) != ""
  }

  lemma {:induction false} GroupsLose(groups: seq<Group>, key: Key)
    ensures var groups' := RemoveFromGroups(groups, key);
            SameGroups(groups, groups') && forall i :: 0 <= i < |groups| ==>
              forall m :: m in groups'[i].members <==> m in groups[i].members && m != key
  {
    if groups != [] {
      GroupsLose(groups[1..], key);
      WithoutMembers(groups[0].members, key);
      var groups' := RemoveFromGroups(groups, key);
      assert groups'[1..] == RemoveFromGroups(groups[1..], key);
      assert forall i :: 1 <= i < |groups| ==> groups[i] == groups[1..][i - 1] && groups'[i] == groups'[1..][i - 1];
    }
  }

  lemma ChainLoses(chain: seq<Entry>, key: Key)
    ensures GoneFromChain(chain, Stored(RemoveFromChain(chain, key), {}), key)
  {
    var kept := WithoutEntries(chain, key);
    WithoutEntryMembers(chain, key);
    StoredEntries(kept, {});
    StoredEntries(RemoveFromChain(chain, key), {});
    if |kept| == |chain| {
      SameLengthSameChain(chain, key);
    }
  }

  lemma UnroutedLeaves(c: Config, key: Key)
    requires key != "" && Unrouted(c, key).ok
    ensures var c' := Unrouted(c, key).live;
            && c'.catalog == c.catalog && GoneFromGroups(c, c', key)
            && forall scope :: GoneFromChain(Chain(c.roles, scope), Chain(c'.roles, scope), key)
  {
    GroupsLose(c.groups, key);
    forall scope
      ensures GoneFromChain(Chain(c.roles, scope), Chain(Unrouted(c, key).live.roles, scope), key)
    {
      ChainLoses(Chain(c.roles, scope), key);
    }
  }

  /** Deleting a model takes its item out of the catalog and its key out of groups, chains and
      orchestrator. */
  lemma DeleteLeaves(c: Config, key: Key)
    requires Contract(c) && key != "" && DeleteModel(c, key).ok
    ensures var c' := DeleteModel(c, key).live;
            && (forall i :: i in c'.catalog <==> i in c.catalog && i.key != key)
            && GoneFromGroups(c, c', key)
            && forall scope :: GoneFromChain(Chain(c.roles, scope), Chain(c'.roles, scope), key)
  {
    DropItemsMembers(c.catalog, key);
    UnroutedLeaves(c.(catalog := DropItems(c.catalog, key)), key);
  }

  ghost predicate Switched(catalog: seq<Item>, catalog': seq<Item>, key: Key, enabled: bool) {
    && |catalog'| == |catalog|
    && forall i :: 0 <= i < |catalog| ==>
         && catalog'[i].key == catalog[i].key
         && catalog'[i].enabled == if catalog[i].key == key then enabled else catalog[i].enabled
  }

  /** Switching a model off changes its switch and takes its key out like deleting; switching one on
      changes the switch alone. */
  lemma SetEnabledLeaves(c: Config, key: Key, enabled: bool)
    requires Contract(c) && key != "" && SetModelEnabled(c, key, enabled).ok
    ensures var c' := SetModelEnabled(c, key, enabled).live;
            && Switched(c.catalog, c'.catalog, key, enabled)
            && if enabled then
                 && c'.groups == c.groups && c'.orchestrator == c.orchestrator
                 && forall scope :: StoredForm(Chain(c.roles, scope), Chain(c'.roles, scope))
               else
                 && GoneFromGroups(c, c', key)
                 && forall scope :: GoneFromChain(Chain(c.roles, scope), Chain(c'.roles, scope), key)
  {
    var c1 := c.(catalog := EnableItems(c.catalog, key, enabled));
    if enabled {
      forall scope
        ensures StoredForm(Chain(c.roles, scope), Stored(Chain(c.roles, scope), {}))
      {
        StoredChain(Chain(c.roles, scope));
      }
    } else {
      UnroutedLeaves(c1, key);
    }
  }
}
