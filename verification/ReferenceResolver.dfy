/** Following wrapper references to the content they stand for: the two resolvers. */
module ReferenceResolver {
  import opened Sequences

  type Ref = string

  const MAX_WRAPPER_DEPTH: nat := 8

  datatype Error = PathNotFound | NotAFile | Unsupported | Cycle | TooDeep | ArtifactNotFound | Undecodable

  datatype Outcome = Resolved(requested: Ref, resolved: Ref, wrapper: Ref, depth: nat) | Failed(error: Error)

  // ---------------------------------------------------------------- what a reference names

  /** What reading an artifact's file gives. `next` is the reference its text wraps, or empty. */
  datatype Content = Text(next: Ref) | Image | Binary | NoFile

  datatype Artifact = Artifact(hasPath: bool, content: Content, declaredImage: bool)

  /** A workspace path: a file with its canonical reference, or a directory. */
  datatype Target = File(ref: Ref) | Directory

  datatype Store = Store(artifacts: map<string, Artifact>, paths: map<string, Target>)

  /** What there is behind a reference: nothing a resolver accepts, a workspace file, no artifact,
      an artifact it cannot decode, one that stands for itself, or one that wraps another. */
  datatype Seen = Refused(error: Error) | AFile(ref: Ref) | Missing | Broken | Whole | Wraps(next: Ref)

  predicate HasPrefix(s: string, prefix: string) {
    prefix <= s
  }

  /** The id looked up first: references with one prefix are ids, with two they carry one. */
  function ArtifactId(ref: Ref): string
    requires HasPrefix(ref, "artifact:")
  {
    if HasPrefix(ref[9..], "artifact:") then ref[9..] else "artifact:" + ref[9..]
  }

  /** The artifact with that id, or else with the id without its prefix, if it has a path. */
  function Lookup(store: Store, ref: Ref): Option<Artifact>
    requires HasPrefix(ref, "artifact:")
  {
    var id := ArtifactId(ref);
    var a := if id in store.artifacts then Some(store.artifacts[id])
             else if ref[9..] != id && ref[9..] in store.artifacts then Some(store.artifacts[ref[9..]])
             else None;
    if a.Some? && a.value.hasPath then a else None
  }

  function SeenPath(store: Store, path: string): Seen {
    if path !in store.paths then Refused(PathNotFound)
    else
      match store.paths[path]
      case Directory => Refused(NotAFile)
      case File(r) => AFile(r)
  }

  function SeenNext(next: Ref): Seen {
    if next == "" then Whole else Wraps(next)
  }

  /** The text resolver shows a placeholder for images and other binary files. */
  function SeenAsText(store: Store, ref: Ref, canonical: bool): Seen {
    if HasPrefix(ref, "path:") then SeenPath(store, ref[5..])
    else if !HasPrefix(ref, "artifact:") then Refused(Unsupported)
    else
      match Lookup(store, ref)
      case None => Missing
      case Some(a) => if canonical && a.content.Text? then SeenNext(a.content.next) else Whole
  }

  /** The target resolver does not look into images, and cannot decode other binary files. */
  function SeenAsTarget(store: Store, ref: Ref, canonical: bool): Seen {
    if HasPrefix(ref, "path:") then SeenPath(store, ref[5..])
    else if !HasPrefix(ref, "artifact:") then Refused(Unsupported)
    else
      match Lookup(store, ref)
      case None => Missing
      case Some(a) =>
        if !canonical || a.declaredImage then Whole
        else
          match a.content
          case Text(next) => SeenNext(next)
          case NoFile => Whole
          case Image | Binary => Broken
  }

  // ---------------------------------------------------------------- the two resolvers

  function OrElse(a: Ref, b: Ref): Ref {
    if a != "" then a else b
  }

  /** A resolution and the references of the artifacts it read, in order. */
  datatype Walk = Walk(outcome: Outcome, read: seq<Ref>)

  /** The text resolver. Files are taken before the checks for cycles and depth. */
  function Resolve(look: Ref -> Seen, ref: Ref, requested: Ref, wrapper: Ref, depth: nat, visited: seq<Ref>): Walk
    decreases if depth > MAX_WRAPPER_DEPTH then 0 else MAX_WRAPPER_DEPTH + 1 - depth
  {
    var seen := look(ref);
    if seen.Refused? then Walk(Failed(seen.error), [])
    else if seen.AFile? then Walk(Resolved(OrElse(requested, ref), seen.ref, wrapper, depth), [])
    else if ref in visited then Walk(Failed(Cycle), [])
    else if depth > MAX_WRAPPER_DEPTH then Walk(Failed(TooDeep), [])
    else
      match seen
      case Missing => Walk(Failed(ArtifactNotFound), [])
      case Broken => Walk(Failed(Undecodable), [ref])
      case Whole => Walk(Resolved(OrElse(requested, ref), ref, wrapper, depth), [ref])
      case Wraps(next) =>
        if next == ref then Walk(Failed(Cycle), [ref])
        else
          var rest := Resolve(look, next, OrElse(requested, ref), OrElse(wrapper, ref), depth + 1, visited + [ref]);
          rest.(read := [ref] + rest.read)
  }

  /** The target resolver. */
  function OpenTarget(look: Ref -> Seen, ref: Ref, requested: Ref, wrapper: Ref, depth: nat, visited: seq<Ref>): Outcome
    decreases if depth > MAX_WRAPPER_DEPTH then 0 else MAX_WRAPPER_DEPTH + 1 - depth
  {
    var seen := look(ref);
    if seen.AFile? then Resolved(OrElse(requested, ref), seen.ref, wrapper, depth)
    else if seen.Refused? then Failed(seen.error)
    else if ref in visited then Failed(Cycle)
    else if depth > MAX_WRAPPER_DEPTH then Failed(TooDeep)
    else if seen.Missing? then Failed(ArtifactNotFound)
    else if seen.Broken? then Failed(Undecodable)
    else if seen.Whole? then Resolved(OrElse(requested, ref), ref, wrapper, depth)
    else if seen.next == ref then Failed(Cycle)
    else OpenTarget(look, seen.next, OrElse(requested, ref), OrElse(wrapper, ref), depth + 1, visited + [ref])
  }

  function AsText(store: Store, canonical: bool): Ref -> Seen {
    ref => SeenAsText(store, ref, canonical)
  }

  function AsTarget(store: Store, canonical: bool): Ref -> Seen {
    ref => SeenAsTarget(store, ref, canonical)
  }

  // ---------------------------------------------------------------- chains of wrappers

  /** From the first reference, hop by hop, to one that stands for itself. */
  predicate Chain(look: Ref -> Seen, c: seq<Ref>)
    decreases |c|
  {
    && c != []
    && if |c| == 1 then look(c[0]).AFile? || look(c[0]).Whole?
       else look(c[0]) == Wraps(c[1]) && Chain(look, c[1..])
  }

  /** At most nine artifacts; a file at the end does not count. */
  predicate WithinDepth(look: Ref -> Seen, c: seq<Ref>, depth: nat)
    requires c != []
  {
    depth + |c| <= MAX_WRAPPER_DEPTH + (if look(c[|c| - 1]).AFile? then 2 else 1)
  }

  /** A reference has at most one chain. */
  lemma {:induction false} ChainIsUnique(look: Ref -> Seen, c: seq<Ref>, d: seq<Ref>)
    requires Chain(look, c) && Chain(look, d) && c[0] == d[0]
    ensures c == d
    decreases |c|
  {
    if |c| > 1 && |d| > 1 {
      ChainIsUnique(look, c[1..], d[1..]);
      assert c == [c[0]] + c[1..] && d == [d[0]] + d[1..];
    }
  }

  lemma {:induction false} ChainSuffix(look: Ref -> Seen, c: seq<Ref>, i: nat)
    requires Chain(look, c) && i < |c|
    ensures Chain(look, c[i..])
    decreases |c|
  {
    if i > 0 {
      ChainSuffix(look, c[1..], i - 1);
      assert c[1..][i - 1..] == c[i..];
    }
  }

  /** A chain never comes back to a reference: a cycle has no end. */
  lemma ChainHasNoCycle(look: Ref -> Seen, c: seq<Ref>)
    requires Chain(look, c)
    ensures Distinct(c)
  {
    forall i, j | 0 <= i < j < |c|
      ensures c[i] != c[j]
    {
      ChainSuffix(look, c, i);
      ChainSuffix(look, c, j);
      assert |c[i..]| != |c[j..]|;
      if c[i] == c[j] {
        ChainIsUnique(look, c[i..], c[j..]);
      }
    }
  }

  // ---------------------------------------------------------------- resolution is following the chain

  function EndRef(look: Ref -> Seen, ref: Ref): Ref {
    if look(ref).AFile? then look(ref).ref else ref
  }

  /** The four values for a chain whose first reference is met at depth `depth`. */
  function Result(look: Ref -> Seen, c: seq<Ref>, requested: Ref, wrapper: Ref, depth: nat): Outcome
    requires c != []
  {
    Resolved(OrElse(requested, c[0]), EndRef(look, c[|c| - 1]), if |c| > 1 then OrElse(wrapper, c[0])
      else wrapper, depth + |c| - 1)
  }

  lemma {:induction false} ChainResolves(look: Ref -> Seen, c: seq<Ref>, requested: Ref, wrapper: Ref, depth: nat,
      visited: seq<Ref>)
    requires Chain(look, c) && WithinDepth(look, c, depth) && Disjoint(c, visited)
    requires forall i :: 0 <= i < |c| ==> c[i] != ""
    ensures Resolve(look, c[0], requested, wrapper, depth, visited).outcome
            == Result(look, c, requested, wrapper, depth)
    decreases |c|
  {
    assert c[0] in c;
    if |c| > 1 {
      var rest := c[1..];
      ChainHasNoCycle(look, c);
      assert rest[|rest| - 1] == c[|c| - 1] && rest[0] == c[1];
      ChainResolves(look, rest, OrElse(requested, c[0]), OrElse(wrapper, c[0]), depth + 1, visited + [c[0]]);
    }
  }

  lemma ChainCons(look: Ref -> Seen, ref: Ref, rest: seq<Ref>, depth: nat)
    requires rest != [] && look(ref) == Wraps(rest[0]) && Chain(look, rest) && WithinDepth(look, rest, depth + 1)
    ensures Chain(look, [ref] + rest) && WithinDepth(look, [ref] + rest, depth)
  {
    var c := [ref] + rest;
    assert c[1..] == rest && c[|c| - 1] == rest[|rest| - 1];
  }

  lemma {:induction false} ResolvedHasChain(look: Ref -> Seen, ref: Ref, requested: Ref, wrapper: Ref, depth: nat,
      visited: seq<Ref>) returns (c: seq<Ref>)
    requires Resolve(look, ref, requested, wrapper, depth, visited).outcome.Resolved? && depth <= MAX_WRAPPER_DEPTH + 1
    ensures Chain(look, c) && c[0] == ref && WithinDepth(look, c, depth)
    decreases MAX_WRAPPER_DEPTH + 1 - depth
  {
    if look(ref).Wraps? {
      var rest := ResolvedHasChain(look, look(ref).next, OrElse(requested, ref), OrElse(wrapper, ref), depth + 1,
        visited + [ref]);
      ChainCons(look, ref, rest, depth);
      c := [ref] + rest;
    } else {
      c := [ref];
    }
  }

  function Start(look: Ref -> Seen, ref: Ref): Walk {
    Resolve(look, ref, "", "", 0, [])
  }

  /** The empty reference names nothing. */
  ghost predicate NothingUnnamed(look: Ref -> Seen) {
    look("").Refused?
  }

  lemma {:induction false} ChainIsNamed(look: Ref -> Seen, c: seq<Ref>)
    requires NothingUnnamed(look) && Chain(look, c)
    ensures forall i :: 0 <= i < |c| ==> c[i] != ""
    decreases |c|
  {
    if |c| > 1 {
      ChainIsNamed(look, c[1..]);
      assert forall i :: 1 <= i < |c| ==> c[i] == c[1..][i - 1];
    }
  }

  /** Resolution succeeds exactly for the references with a chain of at most nine artifacts to one
      that stands for itself, or to a file. It then returns the start, the end, the first wrapper if
      there was a hop, and the number of hops. */
  lemma ResolutionFollowsTheChain(look: Ref -> Seen, ref: Ref)
    requires NothingUnnamed(look)
    ensures Start(look, ref).outcome.Resolved? <==> exists c :: Chain(look, c) && c[0] == ref && WithinDepth(look, c, 0)
    ensures forall c :: Chain(look, c) && c[0] == ref && WithinDepth(look, c, 0) ==>
              Start(look, ref).outcome == Resolved(ref, EndRef(look, c[|c| - 1]), if |c| > 1 then ref else "", |c| - 1)
  {
    if Start(look, ref).outcome.Resolved? {
      var c := ResolvedHasChain(look, ref, "", "", 0, []);
      assert Chain(look, c) && c[0] == ref && WithinDepth(look, c, 0);
    }
    forall c | Chain(look, c) && c[0] == ref && WithinDepth(look, c, 0)
      ensures Start(look, ref).outcome == Result(look, c, "", "", 0)
    {
      ChainIsNamed(look, c);
      ChainResolves(look, c, "", "", 0, []);
    }
  }

  /** Hops from wrapper to wrapped reference, with no claim that they end. */
  predicate Hops(look: Ref -> Seen, walk: seq<Ref>) {
    forall i :: 0 <= i < |walk| - 1 ==> look(walk[i]) == Wraps(walk[i + 1])
  }

  lemma {:induction false} WalkStaysOnChain(look: Ref -> Seen, c: seq<Ref>, walk: seq<Ref>)
    requires Chain(look, c) && walk != [] && c[0] == walk[0] && Hops(look, walk)
    ensures |walk| <= |c| && walk == c[..|walk|]
    decreases |walk|
  {
    if |walk| > 1 {
      var rest := walk[1..];
      assert look(walk[0]) == Wraps(walk[1]);
      forall i | 0 <= i < |rest| - 1
        ensures look(rest[i]) == Wraps(rest[i + 1])
      {
        assert look(walk[i + 1]) == Wraps(walk[i + 2]);
      }
      WalkStaysOnChain(look, c[1..], rest);
      assert walk == [walk[0]] + rest && c[..|walk|] == [c[0]] + c[1..][..|walk| - 1];
    }
  }

  /** A reference from which the hops come back on themselves is never resolved. */
  lemma CycleNeverResolves(look: Ref -> Seen, walk: seq<Ref>, i: nat, j: nat)
    requires Hops(look, walk) && i < j < |walk| && walk[i] == walk[j]
    ensures Start(look, walk[0]).outcome.Failed?
  {
    if Start(look, walk[0]).outcome.Resolved? {
      var c := ResolvedHasChain(look, walk[0], "", "", 0, []);
      WalkStaysOnChain(look, c, walk);
      assert c[i] == walk[i] && c[j] == walk[j];
      ChainHasNoCycle(look, c);
    }
  }

  /** At most nine artifacts are read, all different, whatever there is behind the references. */
  lemma {:induction false} FewReads(look: Ref -> Seen, ref: Ref, requested: Ref, wrapper: Ref, depth: nat,
      visited: seq<Ref>)
    ensures var read := Resolve(look, ref, requested, wrapper, depth, visited).read;
            && (if depth > MAX_WRAPPER_DEPTH then read == [] else |read| <= MAX_WRAPPER_DEPTH + 1 - depth)
            && Distinct(read) && Disjoint(read, visited)
    decreases if depth > MAX_WRAPPER_DEPTH then 0 else MAX_WRAPPER_DEPTH + 1 - depth
  {
    if look(ref).Wraps? && look(ref).next != ref && ref !in visited && depth <= MAX_WRAPPER_DEPTH {
      var next := look(ref).next;
      FewReads(look, next, OrElse(requested, ref), OrElse(wrapper, ref), depth + 1, visited + [ref]);
      ReadsCons(ref, Resolve(look, next, OrElse(requested, ref), OrElse(wrapper, ref), depth + 1, visited + [ref]).read,
        visited);
    }
  }

  lemma ReadsCons(ref: Ref, rest: seq<Ref>, visited: seq<Ref>)
    requires ref !in visited && Distinct(rest) && Disjoint(rest, visited + [ref])
    ensures Distinct([ref] + rest) && Disjoint([ref] + rest, visited)
  {
    assert ref in visited + [ref] && forall x :: x in visited ==> x in visited + [ref];
  }

  // ---------------------------------------------------------------- the two resolvers agree on text

  ghost predicate AgreeOn(text: Ref -> Seen, target: Ref -> Seen, refs: seq<Ref>) {
    forall i :: 0 <= i < |refs| ==> text(refs[i]) == target(refs[i])
  }

  lemma AgreeTail(text: Ref -> Seen, target: Ref -> Seen, ref: Ref, rest: seq<Ref>)
    requires AgreeOn(text, target, [ref] + rest)
    ensures text(ref) == target(ref) && AgreeOn(text, target, rest)
  {
    assert ([ref] + rest)[0] == ref;
    assert forall i :: 0 <= i < |rest| ==> rest[i] == ([ref] + rest)[i + 1];
  }

  /** The two see the same behind everything that is not an artifact that can be found. */
  ghost predicate SameSurroundings(text: Ref -> Seen, target: Ref -> Seen) {
    forall ref :: (text(ref).Refused? || text(ref).AFile? || text(ref).Missing? || target(ref).Refused?
      || target(ref).AFile? || target(ref).Missing?)
      ==> text(ref) == target(ref)
  }

  lemma {:induction false} SameWalk(text: Ref -> Seen, target: Ref -> Seen, ref: Ref, requested: Ref, wrapper: Ref,
      depth: nat, visited: seq<Ref>)
    requires SameSurroundings(text, target)
    requires AgreeOn(text, target, Resolve(text, ref, requested, wrapper, depth, visited).read)
    ensures OpenTarget(target, ref, requested, wrapper, depth, visited)
            == Resolve(text, ref, requested, wrapper, depth, visited).outcome
    decreases if depth > MAX_WRAPPER_DEPTH then 0 else MAX_WRAPPER_DEPTH + 1 - depth
  {
    var read := Resolve(text, ref, requested, wrapper, depth, visited).read;
    if read != [] {
      assert read == [ref] + read[1..];
      AgreeTail(text, target, ref, read[1..]);
      if text(ref).Wraps? && text(ref).next != ref {
        var rest := Resolve(text, text(ref).next, OrElse(requested, ref), OrElse(wrapper, ref), depth + 1,
          visited + [ref]).read;
        assert read[1..] == rest;
        SameWalk(text, target, text(ref).next, OrElse(requested, ref), OrElse(wrapper, ref), depth + 1,
          visited + [ref]);
      }
    }
  }

  /** Where the two see something different, the target resolver stops at it: it cannot decode what the
      text resolver shows a placeholder for, or takes for the end what the text resolver follows. */
  ghost predicate PartWays(text: Ref -> Seen, target: Ref -> Seen) {
    forall ref :: text(ref) != target(ref) ==>
      (text(ref).Whole? && target(ref).Broken?) || (text(ref).Wraps? && target(ref).Whole?)
  }

  /** No resolution gives a depth below the one it starts from. */
  lemma {:induction false} DepthGrows(look: Ref -> Seen, ref: Ref, requested: Ref, wrapper: Ref, depth: nat,
      visited: seq<Ref>)
    ensures var o := Resolve(look, ref, requested, wrapper, depth, visited).outcome; o.Resolved? ==> o.depth >= depth
    decreases if depth > MAX_WRAPPER_DEPTH then 0 else MAX_WRAPPER_DEPTH + 1 - depth
  {
    if look(ref).Wraps? && depth <= MAX_WRAPPER_DEPTH {
      DepthGrows(look, look(ref).next, OrElse(requested, ref), OrElse(wrapper, ref), depth + 1, visited + [ref]);
    }
  }

  /** The first artifact the two see differently already separates their outcomes. */
  lemma FirstDifferenceShows(text: Ref -> Seen, target: Ref -> Seen, ref: Ref, requested: Ref, wrapper: Ref, depth: nat,
      visited: seq<Ref>)
    requires PartWays(text, target) && text(ref) != target(ref)
    requires Resolve(text, ref, requested, wrapper, depth, visited).read != []
    ensures OpenTarget(target, ref, requested, wrapper, depth, visited)
            != Resolve(text, ref, requested, wrapper, depth, visited).outcome
  {
    if text(ref).Wraps? {
      DepthGrows(text, text(ref).next, OrElse(requested, ref), OrElse(wrapper, ref), depth + 1, visited + [ref]);
    }
  }

  lemma AgreeCons(text: Ref -> Seen, target: Ref -> Seen, ref: Ref, rest: seq<Ref>)
    requires text(ref) == target(ref) && AgreeOn(text, target, rest)
    ensures AgreeOn(text, target, [ref] + rest)
  {
  }

  /** Equal outcomes mean that the two saw the same all the way. */
  lemma {:induction false} SameOutcomeSameWalk(text: Ref -> Seen, target: Ref -> Seen, ref: Ref, requested: Ref,
      wrapper: Ref, depth: nat, visited: seq<Ref>)
    requires PartWays(text, target)
    requires OpenTarget(target, ref, requested, wrapper, depth, visited)
             == Resolve(text, ref, requested, wrapper, depth, visited).outcome
    ensures AgreeOn(text, target, Resolve(text, ref, requested, wrapper, depth, visited).read)
    decreases if depth > MAX_WRAPPER_DEPTH then 0 else MAX_WRAPPER_DEPTH + 1 - depth
  {
    var read := Resolve(text, ref, requested, wrapper, depth, visited).read;
    if read != [] {
      if text(ref) != target(ref) {
        FirstDifferenceShows(text, target, ref, requested, wrapper, depth, visited);
      }
      if text(ref).Wraps? && text(ref).next != ref {
        var next := text(ref).next;
        SameOutcomeSameWalk(text, target, next, OrElse(requested, ref), OrElse(wrapper, ref), depth + 1,
                            visited + [ref]);
        AgreeCons(text, target, ref,
                  Resolve(text, next, OrElse(requested, ref), OrElse(wrapper, ref), depth + 1, visited + [ref]).read);
      }
    }
  }

  /** What is read stands for itself, wraps, or cannot be decoded. */
  lemma {:induction false} ReadIsThere(look: Ref -> Seen, ref: Ref, requested: Ref, wrapper: Ref, depth: nat,
      visited: seq<Ref>)
    ensures forall r :: r in Resolve(look, ref, requested, wrapper, depth, visited).read ==>
              look(r).Whole? || look(r).Wraps? || look(r).Broken?
    decreases if depth > MAX_WRAPPER_DEPTH then 0 else MAX_WRAPPER_DEPTH + 1 - depth
  {
    if look(ref).Wraps? && depth <= MAX_WRAPPER_DEPTH {
      ReadIsThere(look, look(ref).next, OrElse(requested, ref), OrElse(wrapper, ref), depth + 1, visited + [ref]);
    }
  }

  /** An artifact both resolvers treat alike: a declared image that wraps nothing, or something not
      declared an image that is text or has no file. */
  predicate SeenAlike(a: Artifact) {
    if a.declaredImage then !(a.content.Text? && a.content.next != "") else a.content.Text? || a.content.NoFile?
  }

  /** All that was read are artifacts, and outside the raw view all are treated alike. */
  ghost predicate ReadsAlike(store: Store, read: seq<Ref>, canonical: bool) {
    forall i :: 0 <= i < |read| ==>
      HasPrefix(read[i], "artifact:") && Lookup(store, read[i]).Some?
      && (canonical ==> SeenAlike(Lookup(store, read[i]).value))
  }

  /** Which artifacts the two see alike in a store. */
  lemma AlikeIsSame(store: Store, canonical: bool, ref: Ref)
    requires var seen := SeenAsText(store, ref, canonical); seen.Whole? || seen.Wraps? || seen.Broken?
    ensures HasPrefix(ref, "artifact:") && Lookup(store, ref).Some?
    ensures SeenAsText(store, ref, canonical) == SeenAsTarget(store, ref, canonical)
            <==> (canonical ==> SeenAlike(Lookup(store, ref).value))
  {
  }

  lemma ReadsAlikeExactly(store: Store, ref: Ref, canonical: bool)
    ensures var read := Start(AsText(store, canonical), ref).read;
            ReadsAlike(store, read, canonical) <==> AgreeOn(AsText(store, canonical), AsTarget(store, canonical), read)
  {
    var text, target := AsText(store, canonical), AsTarget(store, canonical);
    var read := Start(text, ref).read;
    ReadIsThere(text, ref, "", "", 0, []);
    forall i | 0 <= i < |read|
      ensures HasPrefix(read[i], "artifact:") && Lookup(store, read[i]).Some?
      ensures text(read[i]) == target(read[i]) <==> (canonical ==> SeenAlike(Lookup(store, read[i]).value))
    {
      assert read[i] in read;
      AlikeIsSame(store, canonical, read[i]);
    }
  }

  /** The two resolvers give the same four values or fail with the same error if and only if every
      artifact on the way is one that both treat alike. */
  lemma ResolversAgreeExactly(store: Store, ref: Ref, canonical: bool)
    ensures var walk := Start(AsText(store, canonical), ref);
            OpenTarget(AsTarget(store, canonical), ref, "", "", 0, []) == walk.outcome
            <==> ReadsAlike(store, walk.read, canonical)
  {
    var text, target := AsText(store, canonical), AsTarget(store, canonical);
    ReadsAlikeExactly(store, ref, canonical);
    if AgreeOn(text, target, Start(text, ref).read) {
      SameWalk(text, target, ref, "", "", 0, []);
    } else if OpenTarget(target, ref, "", "", 0, []) == Start(text, ref).outcome {
      SameOutcomeSameWalk(text, target, ref, "", "", 0, []);
    }
  }

  predicate PlainText(a: Artifact) {
    !a.declaredImage && (a.content.Text? || a.content.NoFile?)
  }

  ghost predicate ReadsPlainText(store: Store, read: seq<Ref>) {
    forall i :: 0 <= i < |read| ==>
      HasPrefix(read[i], "artifact:") && Lookup(store, read[i]).Some? && PlainText(Lookup(store, read[i]).value)
  }

  /** In particular they agree if every artifact on the way is plain text. */
  lemma ResolversAgree(store: Store, ref: Ref, canonical: bool)
    requires ReadsPlainText(store, Start(AsText(store, canonical), ref).read)
    ensures OpenTarget(AsTarget(store, canonical), ref, "", "", 0, []) == Start(AsText(store, canonical), ref).outcome
  {
    ResolversAgreeExactly(store, ref, canonical);
  }

  /** The empty reference is refused, so what is said of chains holds of every store. */
  lemma StoresNameNothingEmpty(store: Store, canonical: bool)
    ensures NothingUnnamed(AsText(store, canonical)) && NothingUnnamed(AsTarget(store, canonical))
  {
  }

  /** On a text artifact that is declared an image the two do differ: one follows it, one does not. */
  lemma ResolversDifferOnImages()
    ensures var store := Store(map["artifact:a" := Artifact(true, Text("artifact:b"), true),
            "artifact:b" := Artifact(true, Text(""), false)], map[]);
            && Start(AsText(store, true), "artifact:a").outcome == Resolved("artifact:a", "artifact:b", "artifact:a", 1)
            && OpenTarget(AsTarget(store, true), "artifact:a", "", "", 0, [])
                 == Resolved("artifact:a", "artifact:a", "", 0)
  {
    assert "artifact:a"[9..] == "a" && "artifact:b"[9..] == "b";
    assert "artifact:" + "a" == "artifact:a" && "artifact:" + "b" == "artifact:b";
    assert HasPrefix("artifact:a", "artifact:") && HasPrefix("artifact:b", "artifact:");
    assert "artifact:a"[0] == 'a' && "artifact:b"[0] == 'a' && "path:"[0] == 'p';
  }

  /** On a binary artifact that is not declared an image one shows a placeholder, the other fails. */
  lemma ResolversDifferOnBinaries()
    ensures var store := Store(map["artifact:a" := Artifact(true, Binary, false)], map[]);
            && Start(AsText(store, true), "artifact:a").outcome == Resolved("artifact:a", "artifact:a", "", 0)
            && OpenTarget(AsTarget(store, true), "artifact:a", "", "", 0, []) == Failed(Undecodable)
  {
    assert "artifact:a"[9..] == "a" && "artifact:" + "a" == "artifact:a" && HasPrefix("artifact:a", "artifact:");
    assert "artifact:a"[0] == 'a' && "path:"[0] == 'p';
  }

  // ---------------------------------------------------------------- the old double prefix

  /** A reference with the old double prefix finds the artifact its single-prefix form finds, unless
      only an id without any prefix exists and has a path; then, and only then, it finds nothing. */
  lemma OldPrefixFindsTheSame(store: Store, name: string)
    requires !HasPrefix(name, "artifact:")
    ensures HasPrefix("artifact:" + name, "artifact:") && HasPrefix("artifact:" + ("artifact:" + name), "artifact:")
    ensures Lookup(store, "artifact:" + ("artifact:" + name)) == Lookup(store, "artifact:" + name)
            <==> "artifact:" + name in store.artifacts || name !in store.artifacts || !store.artifacts[name].hasPath
  {
    var single := "artifact:" + name;
    var double := "artifact:" + single;
    assert single[..9] == "artifact:" && double[..9] == "artifact:";
    assert single[9..] == name && double[9..] == single;
  }
}
