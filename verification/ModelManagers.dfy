/** Routing and catalog as the program keeps them: one configuration object changed in place. */
module ModelManagers {
  import opened Sequences
  import opened ModelRouting
  import opened RoutingContract

  const SCOPES: seq<Scope> := [Ceo, Execution, Inspection, Memory]

  /** The chains of the first `n` scopes taken from one set of roles, the others from another. */
  function FirstScopes(edited: Roles, roles: Roles, n: nat): Roles {
    Roles(if n > 0 then edited.ceo else roles.ceo, if n > 1 then edited.execution else roles.execution,
          if n > 2 then edited.inspection else roles.inspection, if n > 3 then edited.memory else roles.memory)
  }

  lemma NextScope(edited: Roles, roles: Roles, i: nat)
    requires i < 4
    ensures var now := FirstScopes(edited, roles, i);
            && Chain(now, SCOPES[i]) == Chain(roles, SCOPES[i])
            && WithChain(now, SCOPES[i], Chain(edited, SCOPES[i])) == FirstScopes(edited, roles, i + 1)
  {
    assert SCOPES[0] == Ceo && SCOPES[1] == Execution && SCOPES[2] == Inspection && SCOPES[3] == Memory;
  }

  // ---------------------------------------------------------------- what the loops build

  /** Keys collected, then keys still to come. */
  lemma UniqueStep(done: seq<Key>, keys: seq<Key>, seen: set<Key>)
    requires keys != []
    ensures if keys[0] in seen then Unique(keys, seen) == Unique(keys[1..], seen)
            else done + Unique(keys, seen) == (done + [keys[0]]) + Unique(keys[1..], seen + {keys[0]})
  {
  }

  method AppendUnseen(keys: seq<Key>, done: seq<Key>, seen: set<Key>) returns (more: seq<Key>, seen': set<Key>)
    ensures more == done + Unique(keys, seen) && seen' == seen + Elements(keys)
  {
    more, seen' := done, seen;
    for i := 0 to |keys|
      invariant more + Unique(keys[i..], seen') == done + Unique(keys, seen)
      invariant seen' == seen + Elements(keys[..i])
    {
      assert keys[i..][0] == keys[i] && keys[i..][1..] == keys[i + 1..] && keys[..i + 1] == keys[..i] + [keys[i]];
      UniqueStep(more, keys[i..], seen');
      if keys[i] !in seen' {
        more, seen' := more + [keys[i]], seen' + {keys[i]};
      }
    }
    assert keys[|keys|..] == [] && keys[..|keys|] == keys;
  }

  lemma ExpandStep(done: seq<Key>, groups: seq<Group>, chain: seq<Entry>, seen: set<Key>)
    requires chain != []
    ensures var candidates := EntryKeys(groups, chain[0]);
            done + Unique(Expand(groups, chain), seen)
            == (done + Unique(candidates, seen)) + Unique(Expand(groups, chain[1..]), seen + Elements(candidates))
  {
    UniqueConcat(EntryKeys(groups, chain[0]), Expand(groups, chain[1..]), seen);
  }

  lemma StoredStep(done: seq<Entry>, chain: seq<Entry>, seen: set<Entry>)
    requires chain != []
    ensures if Name(chain[0]) == "" || chain[0] in seen then Stored(chain, seen) == Stored(chain[1..], seen)
            else done + Stored(chain, seen) == (done + [chain[0]]) + Stored(chain[1..], seen + {chain[0]})
  {
  }

  lemma {:induction false} RenameEntriesAt(chain: seq<Entry>, was: Key, becomes: Key, i: nat)
    requires i < |chain|
    ensures RenameEntries(chain, was, becomes)[i] == RenameEntry(chain[i], was, becomes)
  {
    if i > 0 {
      RenameEntriesAt(chain[1..], was, becomes, i - 1);
      assert RenameEntries(chain, was, becomes)[1..] == RenameEntries(chain[1..], was, becomes);
    }
  }

  lemma {:induction false} WithoutEntriesSnoc(chain: seq<Entry>, e: Entry, key: Key)
    ensures WithoutEntries(chain + [e], key) == WithoutEntries(chain, key) + if e == Model(key) then [] else [e]
  {
    if chain == [] {
      assert [] + [e] == [e] && [e][1..] == [];
    } else {
      assert (chain + [e])[1..] == chain[1..] + [e];
      WithoutEntriesSnoc(chain[1..], e, key);
    }
  }

  /** The groups before the first that clashes are renamed, the rest stay as they were. */
  lemma {:induction false} RenameGroupsAt(groups: seq<Group>, was: Key, becomes: Key, f: nat)
    requires f <= |groups| && (forall j :: 0 <= j < f ==> !Clashes(groups[j], was, becomes))
    requires f < |groups| ==> Clashes(groups[f], was, becomes)
    ensures var (r, ok) := RenameGroups(groups, was, becomes);
            && ok == (f == |groups|)
            && (forall j :: 0 <= j < f ==> r[j] == groups[j].(members := RenameKeys(groups[j].members, was, becomes)))
            && (forall j :: f <= j < |groups| ==> r[j] == groups[j])
    decreases f
  {
    if f > 0 {
      var tail := groups[1..];
      assert forall j :: 0 <= j < |tail| ==> tail[j] == groups[j + 1];
      RenameGroupsAt(tail, was, becomes, f - 1);
      var r, rest := RenameGroups(groups, was, becomes).0, RenameGroups(tail, was, becomes).0;
      assert r[1..] == rest;
      assert forall j :: 1 <= j < |groups| ==> r[j] == rest[j - 1] && groups[j] == tail[j - 1];
    }
  }

  lemma {:induction false} RenameKeysAbsent(keys: seq<Key>, was: Key, becomes: Key)
    requires was !in keys
    ensures RenameKeys(keys, was, becomes) == keys
  {
    if keys != [] {
      assert keys[0] in keys && forall k :: k in keys[1..] ==> k in keys;
      RenameKeysAbsent(keys[1..], was, becomes);
    }
  }

  lemma {:induction false} RemoveFromGroupsAt(groups: seq<Group>, key: Key, i: nat)
    requires i < |groups|
    ensures RemoveFromGroups(groups, key)[i] == groups[i].(members := Without(groups[i].members, key))
  {
    if i > 0 {
      RemoveFromGroupsAt(groups[1..], key, i - 1);
      assert RemoveFromGroups(groups, key)[1..] == RemoveFromGroups(groups[1..], key);
    }
  }

  lemma {:induction false} WithoutAbsent(keys: seq<Key>, key: Key)
    requires key !in keys
    ensures Without(keys, key) == keys
  {
    if keys != [] {
      assert keys[0] in keys && forall k :: k in keys[1..] ==> k in keys;
      WithoutAbsent(keys[1..], key);
    }
  }

  // ---------------------------------------------------------------- the configuration object

  class ModelManager {
    var catalog: seq<Item>
    var roles: Roles
    var groups: seq<Group>
    var orchestrator: Option<Key>

    function Live(): Config
      reads this
    {
      Config(catalog, roles, groups, orchestrator)
    }

    method GetRoleModelKeys(scope: Scope) returns (keys: seq<Key>)
      ensures keys == ModelKeys(Live(), scope)
    {
      var chain := Chain(roles, scope);
      var seen: set<Key> := {};
      keys := [];
      for i := 0 to |chain|
        invariant keys + Unique(Expand(groups, chain[i..]), seen) == ModelKeys(Live(), scope)
      {
        assert chain[i..][0] == chain[i] && chain[i..][1..] == chain[i + 1..];
        ExpandStep(keys, groups, chain[i..], seen);
        var candidates := EntryKeys(groups, chain[i]);
        keys, seen := AppendUnseen(candidates, keys, seen);
      }
      assert chain[|chain|..] == [];
    }

    method SetRoleModelRoutes(scope: Scope, entries: seq<Entry>)
      modifies `roles
      ensures roles == WithChain(old(roles), scope, Stored(entries, {}))
    {
      var resolved: seq<Entry>, seen: set<Entry> := [], {};
      for i := 0 to |entries|
        invariant resolved + Stored(entries[i..], seen) == Stored(entries, {})
        invariant roles == old(roles)
      {
        assert entries[i..][0] == entries[i] && entries[i..][1..] == entries[i + 1..];
        StoredStep(resolved, entries[i..], seen);
        if Name(entries[i]) != "" && entries[i] !in seen {
          resolved, seen := resolved + [entries[i]], seen + {entries[i]};
        }
      }
      assert entries[|entries|..] == [];
      roles := WithChain(roles, scope, resolved);
    }

    method RenameInScope(scope: Scope, was: Key, becomes: Key)
      modifies `roles
      ensures roles == WithChain(old(roles), scope, RenameChain(Chain(old(roles), scope), was, becomes))
    {
      var chain := Chain(roles, scope);
      var entries, touched := chain, false;
      for i := 0 to |chain|
        invariant roles == old(roles) && |entries| == |chain|
        invariant forall j :: 0 <= j < i ==> entries[j] == RenameEntry(chain[j], was, becomes)
        invariant forall j :: i <= j < |chain| ==> entries[j] == chain[j]
        invariant touched <==> exists j :: 0 <= j < i && chain[j] == Model(was)
      {
        if entries[i] == Model(was) {
          entries, touched := entries[i := Model(becomes)], true;
        }
      }
      forall j | 0 <= j < |chain|
        ensures entries[j] == RenameEntries(chain, was, becomes)[j]
      {
        RenameEntriesAt(chain, was, becomes, j);
      }
      assert entries == RenameEntries(chain, was, becomes);
      if touched {
        SetRoleModelRoutes(scope, entries);
      }
    }

    method RenameModelKeyInRouting(was: Key, becomes: Key) returns (ok: bool)
      modifies `roles, `groups
      ensures (Live(), ok) == RenameInRouting(old(Live()), was, becomes)
    {
      if was == "" || becomes == "" || was == becomes {
        return true;
      }
      ghost var start, edited := roles, RenameRoles(roles, was, becomes);
      for i := 0 to |SCOPES|
        invariant groups == old(groups) && roles == FirstScopes(edited, start, i)
      {
        NextScope(edited, start, i);
        RenameInScope(SCOPES[i], was, becomes);
      }
      ok := RenameInGroups(was, becomes);
    }

    method RenameInGroups(was: Key, becomes: Key) returns (ok: bool)
      modifies `groups
      ensures (groups, ok) == RenameGroups(old(groups), was, becomes)
    {
      var all := groups;
      for i := 0 to |all|
        invariant |groups| == |all|
        invariant forall j :: 0 <= j < i ==> !Clashes(all[j], was, becomes)
        invariant forall j :: 0 <= j < i ==> groups[j] == all[j].(members := RenameKeys(all[j].members, was, becomes))
        invariant forall j :: i <= j < |all| ==> groups[j] == all[j]
      {
        if was !in all[i].members {
          RenameKeysAbsent(all[i].members, was, becomes);
          continue;
        }
        var renamed := RenameKeys(all[i].members, was, becomes);
        if HasTwice(renamed) {
          RenameGroupsAt(all, was, becomes, i);
          assert groups == RenameGroups(all, was, becomes).0;
          return false;
        }
        groups := groups[i := all[i].(members := renamed)];
      }
      RenameGroupsAt(all, was, becomes, |all|);
      assert groups == RenameGroups(all, was, becomes).0;
      ok := true;
    }

    method RemoveFromScope(scope: Scope, key: Key)
      modifies `roles
      ensures roles == WithChain(old(roles), scope, RemoveFromChain(Chain(old(roles), scope), key))
    {
      var chain := Chain(roles, scope);
      var kept: seq<Entry> := [];
      for i := 0 to |chain|
        invariant roles == old(roles) && kept == WithoutEntries(chain[..i], key)
      {
        assert chain[..i + 1] == chain[..i] + [chain[i]];
        WithoutEntriesSnoc(chain[..i], chain[i], key);
        if chain[i] != Model(key) {
          kept := kept + [chain[i]];
        }
      }
      assert chain[..|chain|] == chain;
      if |kept| != |chain| {
        SetRoleModelRoutes(scope, kept);
      }
    }

    method RemoveModelKeyFromRouting(key: Key) returns (ok: bool)
      modifies `roles, `groups
      ensures (Live(), ok) == RemoveFromRouting(old(Live()), key)
    {
      if key == "" {
        return true;
      }
      if LastMember(groups, key) {
        return false;
      }
      RemoveInGroups(key);
      ghost var start, edited := roles, RemoveFromRoles(roles, key);
      for i := 0 to |SCOPES|
        invariant groups == RemoveFromGroups(old(groups), key) && roles == FirstScopes(edited, start, i)
      {
        NextScope(edited, start, i);
        RemoveFromScope(SCOPES[i], key);
      }
      ok := true;
    }

    method RemoveInGroups(key: Key)
      modifies `groups
      ensures groups == RemoveFromGroups(old(groups), key)
    {
      var all := groups;
      for i := 0 to |all|
        invariant |groups| == |all|
        invariant forall j :: 0 <= j < i ==> groups[j] == RemoveFromGroups(all, key)[j]
        invariant forall j :: i <= j < |all| ==> groups[j] == all[j]
      {
        RemoveFromGroupsAt(all, key, i);
        if key in all[i].members {
          groups := groups[i := all[i].(members := Without(all[i].members, key))];
        } else {
          WithoutAbsent(all[i].members, key);
        }
      }
    }

    /** The configuration is replaced by what a reload makes of it, if the reload accepts it. */
    method Revalidate() returns (ok: bool)
      modifies this
      ensures Effect(Live(), ok) == Validated(old(Live()))
    {
      var v := Revalidated(Live());
      ok := v.Some?;
      if ok {
        catalog, roles, groups, orchestrator := v.value.catalog, v.value.roles, v.value.groups, v.value.orchestrator;
      }
    }

    method Rename(key: Key, becomes: Key) returns (ok: bool)
      modifies this
      ensures Effect(Live(), ok) == RenameModel(old(Live()), key, becomes)
    {
      if !HasKey(catalog, key) || becomes == "" {
        return false;
      }
      if becomes == key {
        return true;
      }
      if HasKey(catalog, becomes) {
        return false;
      }
      catalog := RenameItems(catalog, key, becomes);
      ok := RenameModelKeyInRouting(key, becomes);
      if !ok {
        return;
      }
      if orchestrator == Some(key) {
        orchestrator := Some(becomes);
      }
      ok := Revalidate();
    }

    method Unroute(key: Key) returns (ok: bool)
      modifies this
      ensures Effect(Live(), ok) == Unrouted(old(Live()), key)
    {
      ok := RemoveModelKeyFromRouting(key);
      if !ok {
        return;
      }
      if orchestrator == Some(key) {
        orchestrator := None;
      }
      ok := Revalidate();
    }

    method SetEnabled(key: Key, enabled: bool) returns (ok: bool)
      modifies this
      ensures Effect(Live(), ok) == SetModelEnabled(old(Live()), key, enabled)
    {
      if !HasKey(catalog, key) {
        return false;
      }
      catalog := EnableItems(catalog, key, enabled);
      if enabled {
        ok := Revalidate();
      } else {
        ok := Unroute(key);
      }
    }

    method Delete(key: Key) returns (ok: bool)
      modifies this
      ensures Effect(Live(), ok) == DeleteModel(old(Live()), key)
    {
      if !HasKey(catalog, key) {
        return false;
      }
      catalog := DropItems(catalog, key);
      ok := Unroute(key);
    }
  }
}
