/** The contract between catalog, groups and chains, and the manager operations that must keep it. */
module RoutingContract {
  import opened Sequences
  import opened ModelRouting

  // ---------------------------------------------------------------- the contract

  predicate HasKey(catalog: seq<Item>, key: Key) {
    exists i :: i in catalog && i.key == key
  }

  predicate Enabled(catalog: seq<Item>, key: Key) {
    exists i :: i in catalog && i.key == key && i.enabled
  }

  predicate KeysOnce(catalog: seq<Item>) {
    forall i, j :: 0 <= i < j < |catalog| ==> catalog[i].key != catalog[j].key
  }

  /** A group shares no name with a model, and its members are enabled models, each once. */
  predicate GroupOk(catalog: seq<Item>, g: Group) {
    && !HasKey(catalog, g.name) && g.members != [] && !HasTwice(g.members)
    && forall m :: m in g.members ==> Enabled(catalog, m)
  }

  /** Groups appear only in the execution and inspection chains and exist; the models of the three
      required chains are enabled. */
  predicate EntryOk(catalog: seq<Item>, groups: seq<Group>, scope: Scope, e: Entry) {
    match e
    case Model(key) => scope.Memory? || Enabled(catalog, key)
    case Balanced(name) => (scope.Execution? || scope.Inspection?) && FindGroup(groups, name).Some?
  }

  predicate ChainOk(catalog: seq<Item>, groups: seq<Group>, scope: Scope, chain: seq<Entry>) {
    forall e :: e in chain ==> EntryOk(catalog, groups, scope, e)
  }

  predicate Contract(c: Config) {
    && KeysOnce(c.catalog)
    && (forall g :: g in c.groups ==> GroupOk(c.catalog, g))
    && ChainOk(c.catalog, c.groups, Ceo, c.roles.ceo)
    && ChainOk(c.catalog, c.groups, Execution, c.roles.execution)
    && ChainOk(c.catalog, c.groups, Inspection, c.roles.inspection)
    && ChainOk(c.catalog, c.groups, Memory, c.roles.memory)
  }

  function StoredRoles(roles: Roles): Roles {
    Roles(Stored(roles.ceo, {}), Stored(roles.execution, {}), Stored(roles.inspection, {}), Stored(roles.memory, {}))
  }

  /** A configuration read back: chains as they are stored, refused if the contract does not hold. */
  function Revalidated(c: Config): Option<Config> {
    var c' := c.(roles := StoredRoles(c.roles));
    if Contract(c') then Some(c') else None
  }

  // ---------------------------------------------------------------- the manager operations

  /** The live configuration after an operation, and whether the operation reported success. */
  datatype Effect = Effect(live: Config, ok: bool)

  function RenameItems(catalog: seq<Item>, was: Key, becomes: Key): seq<Item> {
    seq(|catalog|, i requires 0 <= i < |catalog| =>
      if catalog[i].key == was then catalog[i].(key := becomes) else catalog[i])
  }

  function EnableItems(catalog: seq<Item>, key: Key, enabled: bool): seq<Item> {
    seq(|catalog|, i requires 0 <= i < |catalog| =>
      if catalog[i].key == key then catalog[i].(enabled := enabled) else catalog[i])
  }

  function DropItems(catalog: seq<Item>, key: Key): (r: seq<Item>)
    ensures |r| <= |catalog|
  {
    if catalog == [] then [] else (if catalog[0].key == key then [] else [catalog[0]]) + DropItems(catalog[1..], key)
  }

  function Validated(c: Config): Effect {
    match Revalidated(c)
    case None => Effect(c, false)
    case Some(v) => Effect(v, true)
  }

  function RenameModel(c: Config, key: Key, becomes: Key): Effect {
    if !HasKey(c.catalog, key) || becomes == "" then Effect(c, false)
    else if becomes == key then Effect(c, true)
    else if HasKey(c.catalog, becomes) then Effect(c, false)
    else
      var (routed, ok) := RenameInRouting(c.(catalog := RenameItems(c.catalog, key, becomes)), key, becomes);
      if !ok then Effect(routed, false)
      else Validated(if routed.orchestrator == Some(key) then routed.(orchestrator := Some(becomes)) else routed)
  }

  /** What switching off and deleting have in common: the key leaves the routing. */
  function Unrouted(c: Config, key: Key): Effect {
    var (routed, ok) := RemoveFromRouting(c, key);
    if !ok then Effect(routed, false)
    else Validated(if routed.orchestrator == Some(key) then routed.(orchestrator := None) else routed)
  }

  function SetModelEnabled(c: Config, key: Key, enabled: bool): Effect {
    if !HasKey(c.catalog, key) then Effect(c, false)
    else
      var c' := c.(catalog := EnableItems(c.catalog, key, enabled));
      if enabled then Validated(c') else Unrouted(c', key)
  }

  function DeleteModel(c: Config, key: Key): Effect {
    if !HasKey(c.catalog, key) then Effect(c, false)
    else Unrouted(c.(catalog := DropItems(c.catalog, key)), key)
  }

  // ---------------------------------------------------------------- revalidation

  lemma {:induction false} StoredMembers(chain: seq<Entry>, seen: set<Entry>)
    ensures forall e :: e in Stored(chain, seen) ==> e in chain && Name(e) != ""
    decreases |chain|
  {
    if chain != [] {
      assert chain == [chain[0]] + chain[1..];
      StoredMembers(chain[1..], if Name(chain[0]) == "" || chain[0] in seen then seen else seen + {chain[0]});
    }
  }

  /** What holds before a reload holds after it, and a reload changes no candidates. */
  lemma ReloadKeeps(c: Config)
    requires Contract(c)
    ensures Revalidated(c).Some? && Contract(Revalidated(c).value)
  {
    StoredMembers(c.roles.ceo, {});
    StoredMembers(c.roles.execution, {});
    StoredMembers(c.roles.inspection, {});
    StoredMembers(c.roles.memory, {});
  }

  lemma ReloadKeepsCandidates(c: Config, scope: Scope)
    requires Revalidated(c).Some?
    ensures ModelKeys(Revalidated(c).value, scope) == ModelKeys(c, scope)
  {
    StoredExpandsTheSame(c.groups, Chain(c.roles, scope), {}, {});
  }

  // ---------------------------------------------------------------- renaming keeps the contract

  lemma RenamedKeyMembers(keys: seq<Key>, was: Key, becomes: Key)
    ensures forall m :: m in RenameKeys(keys, was, becomes) ==> exists k :: k in keys && m == Renamed(k, was, becomes)
    ensures forall i :: 0 <= i < |keys| ==> RenameKeys(keys, was, becomes)[i] == Renamed(keys[i], was, becomes)
  {
    RenamedAt(keys, was, becomes);
  }

  lemma {:induction false} RenamedEntryMembers(chain: seq<Entry>, was: Key, becomes: Key)
    ensures forall e' :: e' in RenameEntries(chain, was, becomes) ==> exists e ::
            e in chain && e' == RenameEntry(e, was, becomes)
  {
    if chain != [] {
      RenamedEntryMembers(chain[1..], was, becomes);
      assert chain == [chain[0]] + chain[1..];
    }
  }

  lemma RenamedCatalog(catalog: seq<Item>, was: Key, becomes: Key, key: Key)
    requires !HasKey(catalog, becomes)
    ensures Enabled(catalog, key) ==> Enabled(RenameItems(catalog, was, becomes), Renamed(key, was, becomes))
    ensures HasKey(RenameItems(catalog, was, becomes), key) ==> key == becomes || HasKey(catalog, key)
    ensures HasKey(catalog, was) ==> HasKey(RenameItems(catalog, was, becomes), becomes)
  {
    var catalog' := RenameItems(catalog, was, becomes);
    if Enabled(catalog, key) {
      var i :| i in catalog && i.key == key && i.enabled;
      var k :| 0 <= k < |catalog| && catalog[k] == i;
      assert catalog'[k] in catalog';
    }
    if HasKey(catalog', key) {
      var i :| i in catalog' && i.key == key;
      var k :| 0 <= k < |catalog'| && catalog'[k] == i;
      assert catalog[k] in catalog;
    }
    if HasKey(catalog, was) {
      var i :| i in catalog && i.key == was;
      var k :| 0 <= k < |catalog| && catalog[k] == i;
      assert catalog'[k] in catalog';
    }
  }

  lemma RenamedGroupOk(catalog: seq<Item>, g: Group, was: Key, becomes: Key)
    requires GroupOk(catalog, g) && !HasKey(catalog, becomes)
    ensures !Clashes(g, was, becomes)
    ensures g.name != becomes ==>
            GroupOk(RenameItems(catalog, was, becomes), g.(members := RenameKeys(g.members, was, becomes)))
  {
    RenamedKeyMembers(g.members, was, becomes);
    assert forall i :: 0 <= i < |g.members| ==> Enabled(catalog, g.members[i]);
    RenamedCatalog(catalog, was, becomes, g.name);
    forall m | m in RenameKeys(g.members, was, becomes)
      ensures Enabled(RenameItems(catalog, was, becomes), m)
    {
      var k :| k in g.members && m == Renamed(k, was, becomes);
      RenamedCatalog(catalog, was, becomes, k);
    }
  }

  lemma {:induction false} RenamedGroups(groups: seq<Group>, was: Key, becomes: Key)
    requires forall i :: 0 <= i < |groups| ==> !Clashes(groups[i], was, becomes)
    ensures var (groups', ok) := RenameGroups(groups, was, becomes);
            ok && forall i :: 0 <= i < |groups| ==>
              groups'[i] == groups[i].(members := RenameKeys(groups[i].members, was, becomes))
  {
    if groups != [] {
      var rest := groups[1..];
      assert forall i :: 0 <= i < |rest| ==> rest[i] == groups[i + 1];
      RenamedGroups(rest, was, becomes);
      var groups', rest' := RenameGroups(groups, was, becomes).0, RenameGroups(rest, was, becomes).0;
      assert groups'[1..] == rest';
      assert forall i :: 1 <= i < |groups| ==> groups'[i] == rest'[i - 1] && groups[i] == rest[i - 1];
    }
  }

  lemma RenamedGroupsOk(catalog: seq<Item>, groups: seq<Group>, was: Key, becomes: Key)
    requires (forall g :: g in groups ==> GroupOk(catalog, g)) && !HasKey(catalog, becomes)
    ensures var (groups', ok) := RenameGroups(groups, was, becomes);
            ok && forall i :: 0 <= i < |groups| ==>
              groups'[i] == groups[i].(members := RenameKeys(groups[i].members, was, becomes))
  {
    forall i | 0 <= i < |groups|
      ensures !Clashes(groups[i], was, becomes)
    {
      assert groups[i] in groups;
      RenamedGroupOk(catalog, groups[i], was, becomes);
    }
    RenamedGroups(groups, was, becomes);
  }

  lemma RenamedChainOk(c: Config, was: Key, becomes: Key, scope: Scope, chain: seq<Entry>)
    requires ChainOk(c.catalog, c.groups, scope, chain) && !HasKey(c.catalog, becomes)
    requires RenameGroups(c.groups, was, becomes).1
    ensures ChainOk(RenameItems(c.catalog, was, becomes), RenameGroups(c.groups, was, becomes).0, scope,
            RenameChain(chain, was, becomes))
  {
    var catalog', groups' := RenameItems(c.catalog, was, becomes), RenameGroups(c.groups, was, becomes).0;
    var renamed := RenameEntries(chain, was, becomes);
    RenamedEntryMembers(chain, was, becomes);
    StoredMembers(renamed, {});
    if Model(was) !in chain {
      RenameEntriesAbsent(chain, was, becomes);
    }
    forall e' | e' in renamed
      ensures EntryOk(catalog', groups', scope, e')
    {
      var e :| e in chain && e' == RenameEntry(e, was, becomes);
      match e
      case Model(key) => RenamedCatalog(c.catalog, was, becomes, key);
      case Balanced(name) => RenamedGroup(c.groups, name, was, becomes);
    }
  }

  lemma RenamedContract(c: Config, key: Key, becomes: Key)
    requires Contract(c) && !HasKey(c.catalog, becomes) && forall g :: g in c.groups ==> g.name != becomes
    ensures RenameGroups(c.groups, key, becomes).1
    ensures Contract(c.(catalog := RenameItems(c.catalog, key, becomes), roles := RenameRoles(c.roles, key, becomes),
                        groups := RenameGroups(c.groups, key, becomes).0))
  {
    RenamedGroupsOk(c.catalog, c.groups, key, becomes);
    var groups' := RenameGroups(c.groups, key, becomes).0;
    forall g' | g' in groups'
      ensures GroupOk(RenameItems(c.catalog, key, becomes), g')
    {
      var i :| 0 <= i < |groups'| && groups'[i] == g';
      assert c.groups[i] in c.groups;
      RenamedGroupOk(c.catalog, c.groups[i], key, becomes);
    }
    RenamedChainOk(c, key, becomes, Ceo, c.roles.ceo);
    RenamedChainOk(c, key, becomes, Execution, c.roles.execution);
    RenamedChainOk(c, key, becomes, Inspection, c.roles.inspection);
    RenamedChainOk(c, key, becomes, Memory, c.roles.memory);
  }

  predicate NamesGroup(groups: seq<Group>, name: Key) {
    exists g :: g in groups && g.name == name
  }

  /** The configuration in memory when a rename comes to its last check. */
  function RenamedLive(c: Config, key: Key, becomes: Key): Config {
    c.(catalog := RenameItems(c.catalog, key, becomes), roles := RenameRoles(c.roles, key, becomes),
       groups := RenameGroups(c.groups, key, becomes).0,
       orchestrator := if c.orchestrator == Some(key) then Some(becomes) else c.orchestrator)
  }

  lemma RenameComesToLive(c: Config, key: Key, becomes: Key)
    requires Contract(c) && HasKey(c.catalog, key) && !HasKey(c.catalog, becomes) && key != "" && becomes != ""
    ensures RenameModel(c, key, becomes) == Validated(RenamedLive(c, key, becomes))
  {
    RenamedGroupsOk(c.catalog, c.groups, key, becomes);
  }

  lemma RenameOntoGroup(c: Config, key: Key, becomes: Key)
    requires Contract(c) && HasKey(c.catalog, key) && !HasKey(c.catalog, becomes) && NamesGroup(c.groups, becomes)
    ensures !Contract(RenamedLive(c, key, becomes)) && Revalidated(RenamedLive(c, key, becomes)).None?
  {
    var live := RenamedLive(c, key, becomes);
    RenamedGroupsOk(c.catalog, c.groups, key, becomes);
    RenamedCatalog(c.catalog, key, becomes, key);
    var g :| g in c.groups && g.name == becomes;
    var i :| 0 <= i < |c.groups| && c.groups[i] == g;
    assert live.groups[i] in live.groups && live.groups[i].name == becomes;
    assert !GroupOk(live.catalog, live.groups[i]);
  }

  lemma RenamedCandidates(c: Config, key: Key, becomes: Key, scope: Scope)
    requires RenameGroups(c.groups, key, becomes).1 && key != "" && becomes != "" && key != becomes
    ensures ModelKeys(RenamedLive(c, key, becomes), scope) == RenameKeys(ModelKeys(c, scope), key, becomes)
            <==> !(key in ModelKeys(c, scope) && becomes in ModelKeys(c, scope))
  {
    RenamingMapsTheCandidates(c, key, becomes, scope);
    assert ModelKeys(RenamedLive(c, key, becomes), scope) == ModelKeys(RenameInRouting(c, key, becomes).0, scope);
  }

  lemma {:induction false} NonBlankMembers(keys: seq<Key>)
    ensures forall k :: k in NonBlank(keys) ==> k in keys
  {
    if keys != [] {
      NonBlankMembers(keys[1..]);
      assert keys == [keys[0]] + keys[1..];
    }
  }

  lemma {:induction false} FoundGroupIsThere(groups: seq<Group>, name: Key)
    ensures FindGroup(groups, name).Some? ==> FindGroup(groups, name).value in groups
  {
    if groups != [] {
      FoundGroupIsThere(groups[1..], name);
    }
  }

  lemma EntryNamesModels(c: Config, scope: Scope, e: Entry)
    requires Contract(c) && !scope.Memory? && EntryOk(c.catalog, c.groups, scope, e)
    ensures forall k :: k in EntryKeys(c.groups, e) ==> HasKey(c.catalog, k)
  {
    match e
    case Model(key) => NonBlankMembers([key]);
    case Balanced(name) =>
      FoundGroupIsThere(c.groups, name);
      NonBlankMembers(FindGroup(c.groups, name).value.members);
  }

  /** Outside the memory chain, the contract lets only models of the catalog be candidates. */
  lemma {:induction false} CandidatesAreModels(c: Config, scope: Scope, chain: seq<Entry>)
    requires Contract(c) && !scope.Memory? && ChainOk(c.catalog, c.groups, scope, chain)
    ensures forall k :: k in Expand(c.groups, chain) ==> HasKey(c.catalog, k)
  {
    if chain != [] {
      assert chain[0] in chain && forall e :: e in chain[1..] ==> e in chain;
      EntryNamesModels(c, scope, chain[0]);
      CandidatesAreModels(c, scope, chain[1..]);
    }
  }

  /** Renaming a model to a key that names no model succeeds exactly when it names no group either.
      Then the contract holds and the candidates of every role are the old ones renamed; only the
      memory chain may name models the catalog does not have, and there they are renamed exactly when
      it did not have both keys. If the key names a group the operation fails, and the configuration
      it leaves in memory breaks the contract. */
  lemma RenameKeepsContract(c: Config, key: Key, becomes: Key, scope: Scope)
    requires Contract(c) && HasKey(c.catalog, key) && !HasKey(c.catalog, becomes) && key != "" && becomes != ""
    ensures var e := RenameModel(c, key, becomes);
            && (e.ok <==> !NamesGroup(c.groups, becomes)) && (e.ok <==> Contract(e.live))
            && (e.ok && !scope.Memory? ==> ModelKeys(e.live, scope) == RenameKeys(ModelKeys(c, scope), key, becomes))
            && (e.ok && scope.Memory? ==>
                  (ModelKeys(e.live, scope) == RenameKeys(ModelKeys(c, scope), key, becomes)
                   <==> !(key in ModelKeys(c, scope) && becomes in ModelKeys(c, scope))))
  {
    var live := RenamedLive(c, key, becomes);
    RenameComesToLive(c, key, becomes);
    if NamesGroup(c.groups, becomes) {
      RenameOntoGroup(c, key, becomes);
    } else {
      RenamedContract(c, key, becomes);
      assert Contract(live);
      ReloadKeeps(live);
      ReloadKeepsCandidates(live, scope);
      RenamedCandidates(c, key, becomes, scope);
      if !scope.Memory? {
        CandidatesAreModels(c, scope, Chain(c.roles, scope));
        UniqueMembers(Expand(c.groups, Chain(c.roles, scope)), {});
      }
    }
  }

  lemma NonBlankAlone(key: Key)
    requires key != ""
    ensures NonBlank([key]) == [key]
  {
    assert [key][1..] == [];
  }

  /** One model, and a memory chain that names it and then a model the catalog does not have. */
  function UnknownSecond(key: Key, unknown: Key): Config {
    Config([Item(key, true)], Roles([], [], [], [Model(key), Model(unknown)]), [], None)
  }

  /** Renaming the model to that unknown key succeeds and leaves one candidate of two. */
  lemma MemoryChainCollapses(key: Key, unknown: Key)
    requires key != unknown && key != "" && unknown != ""
    ensures var c := UnknownSecond(key, unknown);
            var e := RenameModel(c, key, unknown);
            && Contract(c) && e.ok && ModelKeys(c, Memory) == [key, unknown]
            && ModelKeys(e.live, Memory) != RenameKeys(ModelKeys(c, Memory), key, unknown)
  {
    var c := UnknownSecond(key, unknown);
    var chain := c.roles.memory;
    assert c.catalog[0] in c.catalog;
    NonBlankAlone(key);
    NonBlankAlone(unknown);
    assert Expand(c.groups, chain[2..]) == [] && chain[1..][1..] == chain[2..];
    assert Expand(c.groups, chain[1..]) == [unknown] + Expand(c.groups, chain[1..][1..]);
    assert Expand(c.groups, chain) == [key, unknown];
    var none: set<Key> := {};
    assert [key, unknown][1..] == [unknown] && none + {key} == {key};
    assert Unique([unknown], {key}) == [unknown];
    assert Unique([key, unknown], none) == [key] + Unique([unknown], {key});
    RenameKeepsContract(c, key, unknown, Memory);
  }

  lemma ClashMeansBoth(g: Group, was: Key, becomes: Key)
    requires !HasTwice(g.members) && was != becomes
    ensures Clashes(g, was, becomes) <==> was in g.members && becomes in g.members
  {
    var renamed := RenameKeys(g.members, was, becomes);
    RenamedKeyMembers(g.members, was, becomes);
    if was in g.members && becomes in g.members {
      var i :| 0 <= i < |g.members| && g.members[i] == was;
      var j :| 0 <= j < |g.members| && g.members[j] == becomes;
      assert renamed[i] == renamed[j] == becomes;
      assert exists k, l :: 0 <= k < l < |renamed| && renamed[k] == renamed[l] by {
        if i < j {
          assert renamed[i] == renamed[j];
        } else {
          assert renamed[j] == renamed[i];
        }
      }
    }
  }

  /** A rename in the routing is refused exactly when some group already has both keys. */
  lemma RefusedRename(groups: seq<Group>, was: Key, becomes: Key)
    requires was != becomes && forall i :: 0 <= i < |groups| ==> !HasTwice(groups[i].members)
    ensures RenameGroups(groups, was, becomes).1
            <==> forall i :: 0 <= i < |groups| ==> !(was in groups[i].members && becomes in groups[i].members)
  {
    if groups != [] {
      var rest := groups[1..];
      assert forall i :: 0 <= i < |rest| ==> rest[i] == groups[i + 1];
      RefusedRename(rest, was, becomes);
      ClashMeansBoth(groups[0], was, becomes);
      assert forall i :: 1 <= i < |groups| ==> groups[i] == rest[i - 1];
    }
  }

  // ---------------------------------------------------------------- removal keeps the contract

  lemma OnceMore(key: Key, keys: seq<Key>)
    requires !HasTwice(keys) && key !in keys
    ensures !HasTwice([key] + keys)
  {
  }

  lemma {:induction false} WithoutMembers(keys: seq<Key>, key: Key)
    ensures forall m :: m in Without(keys, key) <==> m in keys && m != key
    ensures !HasTwice(keys) ==> !HasTwice(Without(keys, key))
    ensures keys != [] && !HasTwice(keys) && keys != [key] ==> Without(keys, key) != []
  {
    if keys != [] {
      var rest := keys[1..];
      assert keys == [keys[0]] + rest;
      WithoutMembers(rest, key);
      if !HasTwice(keys) {
        assert !HasTwice(rest) by {
          assert forall i :: 0 <= i < |rest| ==> rest[i] == keys[i + 1];
        }
        forall m | m in rest
          ensures m != keys[0]
        {
          var i :| 0 <= i < |rest| && rest[i] == m;
          assert keys[i + 1] == m;
        }
        if keys[0] == key && rest != [] {
          assert rest[0] in rest && rest[0] in Without(rest, key);
        }
        if keys[0] != key {
          OnceMore(keys[0], Without(rest, key));
        }
      }
    }
  }

  lemma {:induction false} WithoutEntryMembers(chain: seq<Entry>, key: Key)
    ensures forall e :: e in WithoutEntries(chain, key) <==> e in chain && e != Model(key)
  {
    if chain != [] {
      assert chain == [chain[0]] + chain[1..];
      WithoutEntryMembers(chain[1..], key);
    }
  }

  /** The catalog lost at most the use of `key`. */
  ghost predicate OnlyLoses(catalog: seq<Item>, catalog': seq<Item>, key: Key) {
    && (forall k :: k != key && Enabled(catalog, k) ==> Enabled(catalog', k))
    && (forall i :: i in catalog' ==> HasKey(catalog, i.key))
  }

  lemma RemovedGroupOk(catalog: seq<Item>, catalog': seq<Item>, g: Group, key: Key)
    requires GroupOk(catalog, g) && OnlyLoses(catalog, catalog', key) && g.members != [key]
    ensures GroupOk(catalog', g.(members := Without(g.members, key)))
  {
    WithoutMembers(g.members, key);
  }

  lemma {:induction false} RemovedGroupsOk(groups: seq<Group>, key: Key)
    ensures forall g' :: g' in RemoveFromGroups(groups, key) ==>
              exists i :: 0 <= i < |groups| && g' == groups[i].(members := Without(groups[i].members, key))
  {
    if groups != [] {
      var rest := RemoveFromGroups(groups[1..], key);
      RemovedGroupsOk(groups[1..], key);
      forall g' | g' in RemoveFromGroups(groups, key)
        ensures exists i :: 0 <= i < |groups| && g' == groups[i].(members := Without(groups[i].members, key))
      {
        if g' in rest {
          var i :| 0 <= i < |groups[1..]| && g' == groups[1..][i].(members := Without(groups[1..][i].members, key));
          assert groups[i + 1] == groups[1..][i];
        } else {
          assert g' == groups[0].(members := Without(groups[0].members, key));
        }
      }
    }
  }

  lemma RemovedChainOk(c: Config, catalog': seq<Item>, key: Key, scope: Scope, chain: seq<Entry>)
    requires ChainOk(c.catalog, c.groups, scope, chain) && OnlyLoses(c.catalog, catalog', key)
    ensures ChainOk(catalog', RemoveFromGroups(c.groups, key), scope, RemoveFromChain(chain, key))
  {
    var kept, groups' := WithoutEntries(chain, key), RemoveFromGroups(c.groups, key);
    WithoutEntryMembers(chain, key);
    StoredMembers(kept, {});
    if |kept| == |chain| {
      SameLengthSameChain(chain, key);
    }
    forall e | e in kept
      ensures EntryOk(catalog', groups', scope, e)
    {
      assert EntryOk(c.catalog, c.groups, scope, e);
      match e
      case Model(_) =>
      case Balanced(name) => RemovedGroup(c.groups, name, key);
    }
  }

  lemma RemovedContract(c: Config, catalog': seq<Item>, key: Key)
    requires Contract(c) && OnlyLoses(c.catalog, catalog', key) && KeysOnce(catalog') && !LastMember(c.groups, key)
    ensures Contract(c.(catalog := catalog', roles := RemoveFromRoles(c.roles, key),
            groups := RemoveFromGroups(c.groups, key)))
  {
    RemovedGroupsOk(c.groups, key);
    forall g' | g' in RemoveFromGroups(c.groups, key)
      ensures GroupOk(catalog', g')
    {
      var i :| 0 <= i < |c.groups| && g' == c.groups[i].(members := Without(c.groups[i].members, key));
      assert c.groups[i] in c.groups;
      RemovedGroupOk(c.catalog, catalog', c.groups[i], key);
    }
    RemovedChainOk(c, catalog', key, Ceo, c.roles.ceo);
    RemovedChainOk(c, catalog', key, Execution, c.roles.execution);
    RemovedChainOk(c, catalog', key, Inspection, c.roles.inspection);
    RemovedChainOk(c, catalog', key, Memory, c.roles.memory);
  }

  /** Taking a key out of the routing after the catalog gave it up succeeds exactly when no group
      would be emptied. Then the contract holds and the candidates lose the key and nothing else;
      otherwise the routing is as it was, and with the changed catalog breaks the contract. */
  lemma UnroutingKeepsContract(c: Config, catalog': seq<Item>, key: Key, scope: Scope)
    requires Contract(c) && key != "" && OnlyLoses(c.catalog, catalog', key) && KeysOnce(catalog')
             && !Enabled(catalog', key)
    ensures var e := Unrouted(c.(catalog := catalog'), key);
            && (e.ok <==> !LastMember(c.groups, key)) && (e.ok <==> Contract(e.live))
            && (e.ok ==> ModelKeys(e.live, scope) == Without(ModelKeys(c, scope), key))
            && (!e.ok ==> e.live == c.(catalog := catalog'))
  {
    var c' := c.(catalog := catalog');
    var routed := RemoveFromRouting(c', key).0;
    if LastMember(c.groups, key) {
      var i :| 0 <= i < |c.groups| && c.groups[i].members == [key];
      assert key in c.groups[i].members && c.groups[i] in c.groups;
      assert !GroupOk(catalog', c.groups[i]);
    } else {
      var live := if routed.orchestrator == Some(key) then routed.(orchestrator := None) else routed;
      RemovedContract(c, catalog', key);
      assert Contract(live);
      ReloadKeeps(live);
      ReloadKeepsCandidates(live, scope);
      RemovalFiltersTheCandidates(c', key, scope);
      assert ModelKeys(live, scope) == ModelKeys(routed, scope) && ModelKeys(c', scope) == ModelKeys(c, scope);
    }
  }

  lemma {:induction false} DropItemsMembers(catalog: seq<Item>, key: Key)
    requires KeysOnce(catalog)
    ensures forall i :: i in DropItems(catalog, key) <==> i in catalog && i.key != key
    ensures KeysOnce(DropItems(catalog, key))
  {
    if catalog != [] {
      var rest := catalog[1..];
      assert catalog == [catalog[0]] + rest;
      assert KeysOnce(rest) by {
        assert forall i :: 0 <= i < |rest| ==> rest[i] == catalog[i + 1];
      }
      DropItemsMembers(rest, key);
      if catalog[0].key != key {
        var kept := DropItems(rest, key);
        forall j | 0 <= j < |kept|
          ensures kept[j].key != catalog[0].key
        {
          assert kept[j] in rest;
          var i :| 0 <= i < |rest| && rest[i] == kept[j];
          assert catalog[i + 1] == kept[j];
        }
      }
    }
  }

  /** Deleting a model: done exactly when no group would be emptied, and only then is the contract
      kept. */
  lemma DeleteKeepsContract(c: Config, key: Key, scope: Scope)
    requires Contract(c) && HasKey(c.catalog, key) && key != ""
    ensures var e := DeleteModel(c, key);
            && (e.ok <==> !LastMember(c.groups, key)) && (e.ok <==> Contract(e.live))
            && (e.ok ==> ModelKeys(e.live, scope) == Without(ModelKeys(c, scope), key))
            && (!e.ok ==> e.live == c.(catalog := DropItems(c.catalog, key)))
  {
    DropItemsMembers(c.catalog, key);
    UnroutingKeepsContract(c, DropItems(c.catalog, key), key, scope);
  }

  lemma EnabledItems(catalog: seq<Item>, key: Key, enabled: bool)
    requires KeysOnce(catalog)
    ensures var catalog' := EnableItems(catalog, key, enabled);
            && OnlyLoses(catalog, catalog', key) && KeysOnce(catalog')
            && (forall k :: HasKey(catalog', k) ==> HasKey(catalog, k))
            && (!enabled ==> !Enabled(catalog', key))
            && (enabled ==> forall k :: Enabled(catalog, k) ==> Enabled(catalog', k))
  {
    var catalog' := EnableItems(catalog, key, enabled);
    forall k | Enabled(catalog, k) && (enabled || k != key)
      ensures Enabled(catalog', k)
    {
      var i :| i in catalog && i.key == k && i.enabled;
      var n :| 0 <= n < |catalog| && catalog[n] == i;
      assert catalog'[n] in catalog';
    }
    forall i | i in catalog'
      ensures HasKey(catalog, i.key) && (i.key == key ==> i.enabled == enabled)
    {
      var n :| 0 <= n < |catalog'| && catalog'[n] == i;
      assert catalog[n] in catalog;
    }
  }

  /** Switching a model off, like deleting it; switching one on always works. */
  lemma SetEnabledKeepsContract(c: Config, key: Key, enabled: bool, scope: Scope)
    requires Contract(c) && HasKey(c.catalog, key) && key != ""
    ensures var e := SetModelEnabled(c, key, enabled);
            && (e.ok <==> enabled || !LastMember(c.groups, key)) && (e.ok <==> Contract(e.live))
            && (e.ok ==> ModelKeys(e.live, scope) == if enabled then ModelKeys(c, scope)
                 else Without(ModelKeys(c, scope), key))
  {
    var catalog' := EnableItems(c.catalog, key, enabled);
    EnabledItems(c.catalog, key, enabled);
    if enabled {
      var c' := c.(catalog := catalog');
      assert forall g :: g in c.groups ==> GroupOk(catalog', g);
      ReloadKeeps(c');
      ReloadKeepsCandidates(c', scope);
      assert ModelKeys(c', scope) == ModelKeys(c, scope);
    } else {
      UnroutingKeepsContract(c, catalog', key, scope);
    }
  }

}
