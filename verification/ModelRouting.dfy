/** Model routing: chains of direct models and load-balance groups, their ordered expansion, and the
    edits that rename a model key or take it out. */
module ModelRouting {
  import opened Sequences

  type Key = string

  /** One hop of a chain: a model, or a group of equals. */
  datatype Entry = Model(key: Key) | Balanced(group: Key)

  datatype Group = Group(name: Key, enabled: bool, members: seq<Key>, rounds: nat)

  datatype Scope = Ceo | Execution | Inspection | Memory

  datatype Roles = Roles(ceo: seq<Entry>, execution: seq<Entry>, inspection: seq<Entry>, memory: seq<Entry>)

  datatype Item = Item(key: Key, enabled: bool)

  datatype Config = Config(catalog: seq<Item>, roles: Roles, groups: seq<Group>, orchestrator: Option<Key>)

  function Chain(roles: Roles, scope: Scope): seq<Entry> {
    match scope
    case Ceo => roles.ceo
    case Execution => roles.execution
    case Inspection => roles.inspection
    case Memory => roles.memory
  }

  function WithChain(roles: Roles, scope: Scope, chain: seq<Entry>): Roles {
    match scope
    case Ceo => roles.(ceo := chain)
    case Execution => roles.(execution := chain)
    case Inspection => roles.(inspection := chain)
    case Memory => roles.(memory := chain)
  }

  // ---------------------------------------------------------------- expansion

  function FindGroup(groups: seq<Group>, name: Key): Option<Group> {
    if groups == [] || name == "" then None
    else if groups[0].name == name then Some(groups[0])
    else FindGroup(groups[1..], name)
  }

  function NonBlank(keys: seq<Key>): seq<Key> {
    if keys == [] then [] else (if keys[0] == "" then [] else [keys[0]]) + NonBlank(keys[1..])
  }

  /** The candidates of one hop; a group that is missing or switched off has none. */
  function EntryKeys(groups: seq<Group>, e: Entry): seq<Key> {
    match e
    case Model(key) => NonBlank([key])
    case Balanced(name) =>
      var g := FindGroup(groups, name);
      if g.None? || !g.value.enabled then [] else NonBlank(g.value.members)
  }

  function Expand(groups: seq<Group>, chain: seq<Entry>): seq<Key> {
    if chain == [] then [] else EntryKeys(groups, chain[0]) + Expand(groups, chain[1..])
  }

  /** The keys not seen before, each once, in order. */
  function Unique(keys: seq<Key>, seen: set<Key>): seq<Key> {
    if keys == [] then []
    else if keys[0] in seen then Unique(keys[1..], seen)
    else [keys[0]] + Unique(keys[1..], seen + {keys[0]})
  }

  function ModelKeys(c: Config, scope: Scope): seq<Key> {
    Unique(Expand(c.groups, Chain(c.roles, scope)), {})
  }

  /** A chain as it is stored: no blank entry, no entry twice. */
  function Stored(chain: seq<Entry>, seen: set<Entry>): seq<Entry> {
    if chain == [] then []
    else if Name(chain[0]) == "" || chain[0] in seen then Stored(chain[1..], seen)
    else [chain[0]] + Stored(chain[1..], seen + {chain[0]})
  }

  function Name(e: Entry): Key {
    match e
    case Model(key) => key
    case Balanced(name) => name
  }

  // ---------------------------------------------------------------- renaming

  function Renamed(key: Key, was: Key, becomes: Key): Key {
    if key == was then becomes else key
  }

  function RenameKeys(keys: seq<Key>, was: Key, becomes: Key): (r: seq<Key>)
    ensures |r| == |keys|
  {
    if keys == [] then [] else [Renamed(keys[0], was, becomes)] + RenameKeys(keys[1..], was, becomes)
  }

  function RenameEntry(e: Entry, was: Key, becomes: Key): Entry {
    if e == Model(was) then Model(becomes) else e
  }

  function RenameEntries(chain: seq<Entry>, was: Key, becomes: Key): (r: seq<Entry>)
    ensures |r| == |chain|
  {
    if chain == [] then [] else [RenameEntry(chain[0], was, becomes)] + RenameEntries(chain[1..], was, becomes)
  }

  function RenameChain(chain: seq<Entry>, was: Key, becomes: Key): seq<Entry> {
    if Model(was) in chain then Stored(RenameEntries(chain, was, becomes), {}) else chain
  }

  function RenameRoles(roles: Roles, was: Key, becomes: Key): Roles {
    Roles(RenameChain(roles.ceo, was, becomes), RenameChain(roles.execution, was, becomes),
          RenameChain(roles.inspection, was, becomes), RenameChain(roles.memory, was, becomes))
  }

  predicate HasTwice(keys: seq<Key>) {
    exists i, j :: 0 <= i < j < |keys| && keys[i] == keys[j]
  }

  /** Renaming would make a member appear twice in this group. */
  predicate Clashes(g: Group, was: Key, becomes: Key) {
    was in g.members && HasTwice(RenameKeys(g.members, was, becomes))
  }

  /** The groups renamed up to the first that clashes, and whether none does. */
  function RenameGroups(groups: seq<Group>, was: Key, becomes: Key): (r: (seq<Group>, bool))
    ensures |r.0| == |groups|
  {
    if groups == [] then ([], true)
    else if Clashes(groups[0], was, becomes) then (groups, false)
    else
      var (rest, ok) := RenameGroups(groups[1..], was, becomes);
      ([groups[0].(members := RenameKeys(groups[0].members, was, becomes))] + rest, ok)
  }

  /** Rename a key in all chains and groups, and whether it went through. */
  function RenameInRouting(c: Config, was: Key, becomes: Key): (Config, bool) {
    if was == "" || becomes == "" || was == becomes then (c, true)
    else
      var (groups, ok) := RenameGroups(c.groups, was, becomes);
      (c.(roles := RenameRoles(c.roles, was, becomes), groups := groups), ok)
  }

  // ---------------------------------------------------------------- removing

  function Without(keys: seq<Key>, key: Key): (r: seq<Key>)
    ensures |r| <= |keys|
  {
    if keys == [] then [] else (if keys[0] == key then [] else [keys[0]]) + Without(keys[1..], key)
  }

  function WithoutEntries(chain: seq<Entry>, key: Key): (r: seq<Entry>)
    ensures |r| <= |chain|
  {
    if chain == [] then [] else (if chain[0] == Model(key) then [] else [chain[0]]) + WithoutEntries(chain[1..], key)
  }

  function RemoveFromChain(chain: seq<Entry>, key: Key): seq<Entry> {
    var kept := WithoutEntries(chain, key);
    if |kept| == |chain| then chain else Stored(kept, {})
  }

  function RemoveFromRoles(roles: Roles, key: Key): Roles {
    Roles(RemoveFromChain(roles.ceo, key), RemoveFromChain(roles.execution, key),
          RemoveFromChain(roles.inspection, key), RemoveFromChain(roles.memory, key))
  }

  function RemoveFromGroups(groups: seq<Group>, key: Key): (r: seq<Group>)
    ensures |r| == |groups|
  {
    if groups == [] then []
    else [groups[0].(members := Without(groups[0].members, key))] + RemoveFromGroups(groups[1..], key)
  }

  /** Some group has the key as its only member. */
  predicate LastMember(groups: seq<Group>, key: Key) {
    exists i :: 0 <= i < |groups| && groups[i].members == [key]
  }

  /** Take a key out of all chains and groups, and whether that was allowed. */
  function RemoveFromRouting(c: Config, key: Key): (Config, bool) {
    if key == "" then (c, true)
    else if LastMember(c.groups, key) then (c, false)
    else (c.(roles := RemoveFromRoles(c.roles, key), groups := RemoveFromGroups(c.groups, key)), true)
  }

  // ---------------------------------------------------------------- facts about Unique

  lemma {:induction false} UniqueConcat(a: seq<Key>, b: seq<Key>, seen: set<Key>)
    ensures Unique(a + b, seen) == Unique(a, seen) + Unique(b, seen + Elements(a))
    decreases |a|
  {
    if a == [] {
      assert a + b == b && seen + Elements(a) == seen;
    } else {
      assert (a + b)[1..] == a[1..] + b;
      assert Elements(a) == {a[0]} + Elements(a[1..]);
      if a[0] in seen {
        UniqueConcat(a[1..], b, seen);
        assert seen + Elements(a) == seen + Elements(a[1..]);
      } else {
        UniqueConcat(a[1..], b, seen + {a[0]});
        assert seen + Elements(a) == (seen + {a[0]}) + Elements(a[1..]);
      }
    }
  }

  lemma {:induction false} UniqueOfSeen(a: seq<Key>, seen: set<Key>)
    requires Elements(a) <= seen
    ensures Unique(a, seen) == []
  {
    if a != [] {
      assert a[0] in Elements(a) && Elements(a[1..]) <= Elements(a);
      UniqueOfSeen(a[1..], seen);
    }
  }

  /** A hop whose candidates were all seen adds nothing. */
  lemma SeenHopAddsNothing(groups: seq<Group>, chain: seq<Entry>, seen: set<Key>)
    requires chain != [] && Elements(EntryKeys(groups, chain[0])) <= seen
    ensures Unique(Expand(groups, chain), seen) == Unique(Expand(groups, chain[1..]), seen)
  {
    var keys := EntryKeys(groups, chain[0]);
    UniqueConcat(keys, Expand(groups, chain[1..]), seen);
    UniqueOfSeen(keys, seen);
    assert seen + Elements(keys) == seen;
  }

  lemma FirstHop(groups: seq<Group>, e: Entry, rest: seq<Entry>, seen: set<Key>)
    ensures var keys := EntryKeys(groups, e);
            Unique(Expand(groups, [e] + rest), seen)
              == Unique(keys, seen) + Unique(Expand(groups, rest), seen + Elements(keys))
  {
    assert ([e] + rest)[1..] == rest;
    UniqueConcat(EntryKeys(groups, e), Expand(groups, rest), seen);
  }

  lemma BlankHopIsEmpty(groups: seq<Group>, e: Entry)
    requires Name(e) == ""
    ensures EntryKeys(groups, e) == []
  {
    assert NonBlank([""]) == NonBlank([""][1..]);
  }

  /** Storing a chain does not change its candidates. */
  lemma {:induction false} StoredExpandsTheSame(groups: seq<Group>, chain: seq<Entry>, entries: set<Entry>,
      seen: set<Key>)
    requires forall e :: e in entries ==> Elements(EntryKeys(groups, e)) <= seen
    ensures Unique(Expand(groups, Stored(chain, entries)), seen) == Unique(Expand(groups, chain), seen)
    decreases |chain|
  {
    if chain != [] {
      var e, rest := chain[0], chain[1..];
      if Name(e) == "" || e in entries {
        if Name(e) == "" {
          BlankHopIsEmpty(groups, e);
        }
        SeenHopAddsNothing(groups, chain, seen);
        StoredExpandsTheSame(groups, rest, entries, seen);
      } else {
        var keys := EntryKeys(groups, e);
        assert chain == [e] + rest;
        FirstHop(groups, e, rest, seen);
        FirstHop(groups, e, Stored(rest, entries + {e}), seen);
        StoredExpandsTheSame(groups, rest, entries + {e}, seen + Elements(keys));
      }
    }
  }

  // ---------------------------------------------------------------- renaming and expansion commute

  lemma {:induction false} RenameConcat(a: seq<Key>, b: seq<Key>, was: Key, becomes: Key)
    ensures RenameKeys(a + b, was, becomes) == RenameKeys(a, was, becomes) + RenameKeys(b, was, becomes)
  {
    if a == [] {
      assert a + b == b;
    } else {
      assert (a + b)[1..] == a[1..] + b;
      RenameConcat(a[1..], b, was, becomes);
    }
  }

  lemma {:induction false} NonBlankRenames(keys: seq<Key>, was: Key, becomes: Key)
    requires was != "" && becomes != ""
    ensures NonBlank(RenameKeys(keys, was, becomes)) == RenameKeys(NonBlank(keys), was, becomes)
  {
    if keys != [] {
      NonBlankRenames(keys[1..], was, becomes);
      assert RenameKeys(keys, was, becomes)[1..] == RenameKeys(keys[1..], was, becomes);
      if keys[0] == "" {
        assert NonBlank(keys) == NonBlank(keys[1..]);
      } else {
        assert NonBlank(keys)[1..] == NonBlank(keys[1..]);
      }
    }
  }

  lemma {:induction false} RenamedGroup(groups: seq<Group>, name: Key, was: Key, becomes: Key)
    requires RenameGroups(groups, was, becomes).1
    ensures var g := FindGroup(groups, name);
            FindGroup(RenameGroups(groups, was, becomes).0, name)
            == if g.Some? then Some(g.value.(members := RenameKeys(g.value.members, was, becomes))) else None
  {
    if groups != [] {
      RenamedGroup(groups[1..], name, was, becomes);
      var groups' := RenameGroups(groups, was, becomes).0;
      assert groups'[1..] == RenameGroups(groups[1..], was, becomes).0;
    }
  }

  lemma RenamedEntry(groups: seq<Group>, e: Entry, was: Key, becomes: Key)
    requires RenameGroups(groups, was, becomes).1 && was != "" && becomes != ""
    ensures EntryKeys(RenameGroups(groups, was, becomes).0, RenameEntry(e, was, becomes))
            == RenameKeys(EntryKeys(groups, e), was, becomes)
  {
    match e
    case Model(key) =>
      NonBlankRenames([key], was, becomes);
      assert RenameKeys([key], was, becomes) == [Renamed(key, was, becomes)];
    case Balanced(name) =>
      RenamedGroup(groups, name, was, becomes);
      var g := FindGroup(groups, name);
      if g.Some? {
        NonBlankRenames(g.value.members, was, becomes);
      }
  }

  lemma {:induction false} ExpandRenames(groups: seq<Group>, chain: seq<Entry>, was: Key, becomes: Key)
    requires RenameGroups(groups, was, becomes).1 && was != "" && becomes != ""
    ensures Expand(RenameGroups(groups, was, becomes).0, RenameEntries(chain, was, becomes))
            == RenameKeys(Expand(groups, chain), was, becomes)
  {
    if chain != [] {
      ExpandRenames(groups, chain[1..], was, becomes);
      RenamedEntry(groups, chain[0], was, becomes);
      RenameConcat(EntryKeys(groups, chain[0]), Expand(groups, chain[1..]), was, becomes);
      assert RenameEntries(chain, was, becomes)[1..] == RenameEntries(chain[1..], was, becomes);
    }
  }

  lemma {:induction false} RenameEntriesAbsent(chain: seq<Entry>, was: Key, becomes: Key)
    requires Model(was) !in chain
    ensures RenameEntries(chain, was, becomes) == chain
  {
    if chain != [] {
      assert chain[0] in chain && forall e :: e in chain[1..] ==> e in chain;
      RenameEntriesAbsent(chain[1..], was, becomes);
    }
  }

  lemma {:induction false} UniqueRenames(keys: seq<Key>, seen: set<Key>, was: Key, becomes: Key)
    requires becomes !in keys && becomes !in seen
    ensures Unique(RenameKeys(keys, was, becomes), set k | k in seen :: Renamed(k, was, becomes))
            == RenameKeys(Unique(keys, seen), was, becomes)
    decreases |keys|
  {
    if keys != [] {
      var k, rest := keys[0], keys[1..];
      var seen' := set s | s in seen :: Renamed(s, was, becomes);
      assert k in keys && forall x :: x in rest ==> x in keys;
      assert RenameKeys(keys, was, becomes)[1..] == RenameKeys(rest, was, becomes);
      assert k in seen <==> Renamed(k, was, becomes) in seen' by {
        if Renamed(k, was, becomes) in seen' {
          var s :| s in seen && Renamed(s, was, becomes) == Renamed(k, was, becomes);
        }
      }
      if k in seen {
        UniqueRenames(rest, seen, was, becomes);
      } else {
        UniqueRenames(rest, seen + {k}, was, becomes);
        assert (set s | s in seen + {k} :: Renamed(s, was, becomes)) == seen' + {Renamed(k, was, becomes)};
        assert Unique(keys, seen)[1..] == Unique(rest, seen + {k});
      }
    }
  }

  lemma {:induction false} UniqueMembers(keys: seq<Key>, seen: set<Key>)
    ensures forall k :: k in Unique(keys, seen) <==> k in keys && k !in seen
    ensures Distinct(Unique(keys, seen))
    decreases |keys|
  {
    if keys != [] {
      assert keys == [keys[0]] + keys[1..];
      UniqueMembers(keys[1..], if keys[0] in seen then seen else seen + {keys[0]});
    }
  }

  lemma {:induction false} RenamedAt(keys: seq<Key>, was: Key, becomes: Key)
    ensures forall i :: 0 <= i < |keys| ==> RenameKeys(keys, was, becomes)[i] == Renamed(keys[i], was, becomes)
  {
    if keys != [] {
      RenamedAt(keys[1..], was, becomes);
      var r := RenameKeys(keys, was, becomes);
      assert r[0] == Renamed(keys[0], was, becomes) && r[1..] == RenameKeys(keys[1..], was, becomes);
      assert forall i :: 1 <= i < |keys| ==> r[i] == r[1..][i - 1] && keys[i] == keys[1..][i - 1];
    }
  }

  lemma RenameAbsent(keys: seq<Key>, was: Key, becomes: Key)
    requires was !in keys
    ensures RenameKeys(keys, was, becomes) == keys
  {
    RenamedAt(keys, was, becomes);
  }

  /** Renaming and removing repetitions commute exactly when the list does not have both keys: with
      both, the renamed list names one model twice where the list without repetitions names it once. */
  lemma RenamedUniqueExactly(keys: seq<Key>, was: Key, becomes: Key)
    requires was != becomes
    ensures Unique(RenameKeys(keys, was, becomes), {}) == RenameKeys(Unique(keys, {}), was, becomes)
            <==> !(was in keys && becomes in keys)
  {
    var none: set<Key> := {};
    var once := Unique(keys, none);
    UniqueMembers(keys, none);
    UniqueMembers(RenameKeys(keys, was, becomes), none);
    if was !in keys {
      RenameAbsent(keys, was, becomes);
      RenameAbsent(once, was, becomes);
    } else if becomes !in keys {
      UniqueRenames(keys, none, was, becomes);
      assert (set k | k in none :: Renamed(k, was, becomes)) == none;
    } else {
      var i :| 0 <= i < |once| && once[i] == was;
      var j :| 0 <= j < |once| && once[j] == becomes;
      RenamedAt(once, was, becomes);
      assert i != j && RenameKeys(once, was, becomes)[i] == RenameKeys(once, was, becomes)[j];
      assert !Distinct(RenameKeys(once, was, becomes));
    }
  }

  /** A rename that goes through renames the expansion of every chain and keeps each candidate's
      first place. The candidates are the old ones renamed, one by one, exactly when the chain did
      not have both keys as candidates. */
  lemma RenamingMapsTheCandidates(c: Config, was: Key, becomes: Key, scope: Scope)
    requires RenameInRouting(c, was, becomes).1 && was != "" && becomes != ""
    ensures var before := ModelKeys(c, scope);
            var after := ModelKeys(RenameInRouting(c, was, becomes).0, scope);
            && after == Unique(RenameKeys(Expand(c.groups, Chain(c.roles, scope)), was, becomes), {})
            && (after == RenameKeys(before, was, becomes)
                <==> was == becomes || !(was in before && becomes in before))
  {
    var chain := Chain(c.roles, scope);
    var all := Expand(c.groups, chain);
    if was == becomes {
      RenameToItself(all, was);
      RenameToItself(ModelKeys(c, scope), was);
    } else {
      var groups := RenameGroups(c.groups, was, becomes).0;
      ExpandRenames(c.groups, chain, was, becomes);
      if Model(was) in chain {
        StoredExpandsTheSame(groups, RenameEntries(chain, was, becomes), {}, {});
      } else {
        RenameEntriesAbsent(chain, was, becomes);
      }
      assert ModelKeys(RenameInRouting(c, was, becomes).0, scope) == Unique(RenameKeys(all, was, becomes), {});
      RenamedUniqueExactly(all, was, becomes);
      UniqueMembers(all, {});
    }
  }

  lemma {:induction false} RenameToItself(keys: seq<Key>, key: Key)
    ensures RenameKeys(keys, key, key) == keys
  {
    if keys != [] {
      RenameToItself(keys[1..], key);
    }
  }

  // ---------------------------------------------------------------- removal filters the candidates

  lemma {:induction false} WithoutConcat(a: seq<Key>, b: seq<Key>, key: Key)
    ensures Without(a + b, key) == Without(a, key) + Without(b, key)
  {
    if a == [] {
      assert a + b == b;
    } else {
      assert (a + b)[1..] == a[1..] + b;
      WithoutConcat(a[1..], b, key);
    }
  }

  lemma {:induction false} NonBlankWithout(keys: seq<Key>, key: Key)
    ensures NonBlank(Without(keys, key)) == Without(NonBlank(keys), key)
  {
    if keys != [] {
      NonBlankWithout(keys[1..], key);
      if keys[0] == "" {
        assert NonBlank(keys) == NonBlank(keys[1..]);
      } else {
        assert NonBlank(keys)[1..] == NonBlank(keys[1..]);
      }
      if keys[0] == key {
        assert Without(keys, key) == Without(keys[1..], key);
      } else {
        assert Without(keys, key)[1..] == Without(keys[1..], key);
      }
    }
  }

  lemma {:induction false} RemovedGroup(groups: seq<Group>, name: Key, key: Key)
    ensures var g := FindGroup(groups, name);
            FindGroup(RemoveFromGroups(groups, key), name)
            == if g.Some? then Some(g.value.(members := Without(g.value.members, key))) else None
  {
    if groups != [] {
      RemovedGroup(groups[1..], name, key);
      assert RemoveFromGroups(groups, key)[1..] == RemoveFromGroups(groups[1..], key);
    }
  }

  lemma RemovedEntry(groups: seq<Group>, e: Entry, key: Key)
    ensures (if e == Model(key) then [] else EntryKeys(RemoveFromGroups(groups, key), e))
            == Without(EntryKeys(groups, e), key)
  {
    match e
    case Model(k) =>
      NonBlankWithout([k], key);
      assert NonBlank([]) == [] && Without([k], key) == if k == key then [] else [k];
    case Balanced(name) =>
      RemovedGroup(groups, name, key);
      var g := FindGroup(groups, name);
      if g.Some? {
        NonBlankWithout(g.value.members, key);
      }
  }

  lemma {:induction false} ExpandRemoves(groups: seq<Group>, chain: seq<Entry>, key: Key)
    ensures Expand(RemoveFromGroups(groups, key), WithoutEntries(chain, key)) == Without(Expand(groups, chain), key)
  {
    if chain != [] {
      ExpandRemoves(groups, chain[1..], key);
      RemovedEntry(groups, chain[0], key);
      WithoutConcat(EntryKeys(groups, chain[0]), Expand(groups, chain[1..]), key);
      if chain[0] == Model(key) {
        assert WithoutEntries(chain, key) == WithoutEntries(chain[1..], key);
      } else {
        assert WithoutEntries(chain, key)[1..] == WithoutEntries(chain[1..], key);
      }
    }
  }

  lemma {:induction false} SameLengthSameChain(chain: seq<Entry>, key: Key)
    requires |WithoutEntries(chain, key)| == |chain|
    ensures WithoutEntries(chain, key) == chain
  {
    if chain != [] {
      SameLengthSameChain(chain[1..], key);
    }
  }

  lemma {:induction false} UniqueWithout(keys: seq<Key>, seen: set<Key>, key: Key)
    ensures Unique(Without(keys, key), seen - {key}) == Without(Unique(keys, seen), key)
    decreases |keys|
  {
    if keys != [] {
      var k, rest := keys[0], keys[1..];
      if k == key {
        assert Without(keys, key) == Without(rest, key);
        UniqueWithout(rest, seen, key);
        UniqueWithout(rest, seen + {k}, key);
        assert (seen + {k}) - {key} == seen - {key};
        assert k !in seen ==> Unique(keys, seen)[1..] == Unique(rest, seen + {k});
      } else {
        assert Without(keys, key)[1..] == Without(rest, key);
        if k in seen {
          UniqueWithout(rest, seen, key);
        } else {
          UniqueWithout(rest, seen + {k}, key);
          assert (seen + {k}) - {key} == (seen - {key}) + {k};
          assert Unique(keys, seen)[1..] == Unique(rest, seen + {k});
        }
      }
    }
  }

  /** A removal that goes through filters the key out of the candidates of every chain. */
  lemma RemovalFiltersTheCandidates(c: Config, key: Key, scope: Scope)
    requires key != "" && RemoveFromRouting(c, key).1
    ensures ModelKeys(RemoveFromRouting(c, key).0, scope) == Without(ModelKeys(c, scope), key)
  {
    var chain := Chain(c.roles, scope);
    var groups, kept := RemoveFromGroups(c.groups, key), WithoutEntries(chain, key);
    ExpandRemoves(c.groups, chain, key);
    UniqueWithout(Expand(c.groups, chain), {}, key);
    assert {} - {key} == {};
    if |kept| == |chain| {
      SameLengthSameChain(chain, key);
    } else {
      StoredExpandsTheSame(groups, kept, {}, {});
    }
  }
}
