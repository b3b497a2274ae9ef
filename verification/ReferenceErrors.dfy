/** Why a reference is not resolved: the error tells where the hops from wrapper to wrapper got stuck. */
module ReferenceErrors {
  import opened Sequences
  import opened ReferenceResolver

  // ---------------------------------------------------------------- what a reference is

  /** A workspace path resolves to its file in one step; a directory and a missing path are refused. */
  lemma PathReferences(store: Store, path: string, canonical: bool)
    ensures var text, target := Start(AsText(store, canonical), "path:" + path).outcome,
            OpenTarget(AsTarget(store, canonical), "path:" + path, "", "", 0, []);
            && text == target
            && (path !in store.paths ==> text == Failed(PathNotFound))
            && (path in store.paths && store.paths[path].Directory? ==> text == Failed(NotAFile))
            && (path in store.paths && store.paths[path].File? ==>
                  text == Resolved("path:" + path, store.paths[path].ref, "", 0))
  {
    assert ("path:" + path)[5..] == path && HasPrefix("path:" + path, "path:");
  }

  lemma OtherReferencesAreRefused(store: Store, ref: Ref, canonical: bool)
    requires !HasPrefix(ref, "path:") && !HasPrefix(ref, "artifact:")
    ensures Start(AsText(store, canonical), ref).outcome == Failed(Unsupported)
            == OpenTarget(AsTarget(store, canonical), ref, "", "", 0, [])
  {
  }

  /** Only the canonical view follows an artifact, and only one whose text wraps a reference. */
  lemma ArtifactReferences(store: Store, ref: Ref, canonical: bool)
    requires HasPrefix(ref, "artifact:") && Lookup(store, ref).Some?
    ensures var a := Lookup(store, ref).value;
            var wraps := canonical && a.content.Text? && a.content.next != "";
            && AsText(store, canonical)(ref) == (if wraps then Wraps(a.content.next) else Whole)
            && AsTarget(store, canonical)(ref)
               == (if canonical && !a.declaredImage && (a.content.Image? || a.content.Binary?) then Broken
                   else if wraps && !a.declaredImage then Wraps(a.content.next) else Whole)
            && (!wraps ==> Start(AsText(store, canonical), ref).outcome == Resolved(ref, ref, "", 0))
  {
    assert ref[0] == 'a' && ref != "";
  }

  // ---------------------------------------------------------------- where hops get stuck

  /** Nothing goes on from this reference, met after `before`, and the error says why: it is refused; it was
      met before; nine artifacts are behind; there is no such artifact; it cannot be decoded; it wraps
      itself. */
  predicate StuckAt(look: Ref -> Seen, last: Ref, before: seq<Ref>, e: Error) {
    var seen := look(last);
    if seen.Refused? then e == seen.error
    else if seen.AFile? then false
    else if last in before then e == Cycle
    else if |before| >= 9 then e == TooDeep
    else
      || (seen.Missing? && e == ArtifactNotFound) || (seen.Broken? && e == Undecodable)
      || (seen == Wraps(last) && e == Cycle)
  }

  /** From `ref`, hop by hop through different artifacts, to where it gets stuck. */
  ghost predicate LeadsNowhere(look: Ref -> Seen, ref: Ref, visited: seq<Ref>, c: seq<Ref>, e: Error) {
    && c != [] && c[0] == ref && Hops(look, c) && Distinct(c[..|c| - 1]) && Disjoint(c[..|c| - 1], visited)
    && |visited| + |c| <= 10 && StuckAt(look, c[|c| - 1], visited + c[..|c| - 1], e)
  }

  lemma NowhereCons(look: Ref -> Seen, ref: Ref, visited: seq<Ref>, rest: seq<Ref>, e: Error)
    requires rest != [] && look(ref) == Wraps(rest[0]) && ref !in visited
    requires LeadsNowhere(look, rest[0], visited + [ref], rest, e)
    ensures LeadsNowhere(look, ref, visited, [ref] + rest, e)
  {
    var c := [ref] + rest;
    var before := rest[..|rest| - 1];
    assert c[..|c| - 1] == [ref] + before && c[|c| - 1] == rest[|rest| - 1];
    assert visited + ([ref] + before) == (visited + [ref]) + before;
    assert ref !in before && forall r :: r in before ==> r !in visited;
    assert forall i :: 0 < i < |c| ==> c[i] == rest[i - 1];
  }

  lemma WithoutFirst(c: seq<Ref>)
    requires |c| > 1
    ensures c[..|c| - 1] == [c[0]] + c[1..][..|c[1..]| - 1] && c[1..][|c[1..]| - 1] == c[|c| - 1]
  {
  }

  lemma FirstIsNew(ref: Ref, before: seq<Ref>, visited: seq<Ref>)
    requires Distinct([ref] + before) && Disjoint([ref] + before, visited)
    ensures ref !in visited && Distinct(before) && Disjoint(before, visited + [ref])
  {
    var all := [ref] + before;
    assert all[0] == ref && all[1..] == before;
    DistinctTail(all);
    assert forall r :: r in before ==> r in all;
  }

  lemma NowhereTail(look: Ref -> Seen, ref: Ref, visited: seq<Ref>, c: seq<Ref>, e: Error)
    requires LeadsNowhere(look, ref, visited, c, e) && |c| > 1
    ensures look(ref) == Wraps(c[1]) && ref !in visited
    ensures LeadsNowhere(look, c[1], visited + [ref], c[1..], e)
  {
    var rest := c[1..];
    var before := rest[..|rest| - 1];
    WithoutFirst(c);
    FirstIsNew(ref, before, visited);
    Regroup(visited, [ref], before);
    assert look(c[0]) == Wraps(c[0 + 1]);
    assert Hops(look, rest);
  }

  lemma {:induction false} FailureLeadsNowhere(look: Ref -> Seen, ref: Ref, requested: Ref, wrapper: Ref,
      visited: seq<Ref>) returns (c: seq<Ref>)
    requires |visited| <= 9 && Resolve(look, ref, requested, wrapper, |visited|, visited).outcome.Failed?
    ensures LeadsNowhere(look, ref, visited, c,
                         Resolve(look, ref, requested, wrapper, |visited|, visited).outcome.error)
    decreases 9 - |visited|
  {
    var e := Resolve(look, ref, requested, wrapper, |visited|, visited).outcome.error;
    assert visited + [] == visited;
    if look(ref).Wraps? && ref !in visited && |visited| < 9 && look(ref).next != ref {
      var next := look(ref).next;
      var rest := FailureLeadsNowhere(look, next, OrElse(requested, ref), OrElse(wrapper, ref), visited + [ref]);
      NowhereCons(look, ref, visited, rest, e);
      c := [ref] + rest;
    } else {
      c := [ref];
      assert c[..0] == [] && StuckAt(look, ref, visited, e);
    }
  }

  lemma StuckIfVisited(look: Ref -> Seen, ref: Ref, visited: seq<Ref>, c: seq<Ref>, e: Error)
    requires LeadsNowhere(look, ref, visited, c, e) && ref in visited
    ensures |c| == 1 && StuckAt(look, ref, visited, e)
  {
    if |c| > 1 {
      NowhereTail(look, ref, visited, c, e);
      assert false;
    }
    assert c[..0] == [] && visited + [] == visited;
  }

  lemma {:induction false} NowhereFails(look: Ref -> Seen, ref: Ref, requested: Ref, wrapper: Ref, visited: seq<Ref>,
      c: seq<Ref>, e: Error)
    requires LeadsNowhere(look, ref, visited, c, e)
    ensures Resolve(look, ref, requested, wrapper, |visited|, visited).outcome == Failed(e)
    decreases |c|
  {
    if |c| == 1 {
      assert c[..0] == [] && visited + [] == visited;
    } else {
      NowhereTail(look, ref, visited, c, e);
      if c[1] == ref {
        StuckIfVisited(look, c[1], visited + [ref], c[1..], e);
      } else {
        NowhereFails(look, c[1], OrElse(requested, ref), OrElse(wrapper, ref), visited + [ref], c[1..], e);
      }
    }
  }

  /** A reference fails with an error if and only if its hops lead to a place where they get stuck for that
      reason, at most nine artifacts away. */
  lemma ErrorsTellWhy(look: Ref -> Seen, ref: Ref, e: Error)
    ensures Start(look, ref).outcome == Failed(e) <==> exists c :: LeadsNowhere(look, ref, [], c, e)
  {
    if Start(look, ref).outcome == Failed(e) {
      var c := FailureLeadsNowhere(look, ref, "", "", []);
    }
    if c :| LeadsNowhere(look, ref, [], c, e) {
      NowhereFails(look, ref, "", "", [], c, e);
    }
  }

  /** Nine artifacts may be read on the way, and a file behind them. */
  lemma ChainLength(look: Ref -> Seen, c: seq<Ref>)
    requires c != []
    ensures WithinDepth(look, c, 0) <==> |c| <= if look(c[|c| - 1]).AFile? then 10 else 9
  {
  }
}
