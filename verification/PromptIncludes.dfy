/** Prompt files that include each other: the recursive expansion with its stack of open names. */
module PromptIncludes {
  import opened Sequences

  type Name = string

  /** A prompt text, cut at its include marks. */
  datatype Piece = Text(text: string) | Include(name: Name)

  /** The names that can be read, with what they hold. */
  type Prompts = map<Name, seq<Piece>>

  datatype Outcome = Loaded(text: string) | Cycle(trail: seq<Name>) | Unreadable(name: Name)

  function Open(prompts: Prompts, stack: seq<Name>): set<Name> {
    set n | n in prompts && n !in stack
  }

  lemma OpenShrinks(prompts: Prompts, stack: seq<Name>, name: Name)
    requires name in prompts && name !in stack
    ensures |Open(prompts, stack + [name])| < |Open(prompts, stack)|
  {
    assert name in stack + [name];
    assert Open(prompts, stack + [name]) == Open(prompts, stack) - {name};
  }

  /** Load a prompt while the names on the stack are being expanded. */
  function Load(prompts: Prompts, name: Name, stack: seq<Name>): Outcome
    decreases |Open(prompts, stack)|, 0, 1
  {
    if name in stack then Cycle(stack + [name])
    else if name !in prompts then Unreadable(name)
    else
      OpenShrinks(prompts, stack, name);
      Expand(prompts, prompts[name], stack + [name])
  }

  function Expand(prompts: Prompts, pieces: seq<Piece>, stack: seq<Name>): Outcome
    decreases |Open(prompts, stack)|, |pieces|, 2
  {
    if pieces == [] then Loaded("")
    else
      var first := match pieces[0]
        case Text(text) => Loaded(text)
        case Include(name) => Load(prompts, name, stack);
      if !first.Loaded? then first
      else
        var rest := Expand(prompts, pieces[1..], stack);
        if rest.Loaded? then Loaded(first.text + rest.text) else rest
  }

  // ---------------------------------------------------------------- reachable names

  /** Names that include one another, the last of them perhaps unreadable. */
  predicate Trail(prompts: Prompts, trail: seq<Name>) {
    && trail != []
    && forall i :: 0 <= i < |trail| - 1 ==> trail[i] in prompts && Include(trail[i + 1]) in prompts[trail[i]]
  }

  /** Every name reachable from `name` can be read, and none is reached twice on one trail or while
      it is on the stack. */
  ghost predicate WellFounded(prompts: Prompts, name: Name, stack: seq<Name>) {
    forall trail :: Trail(prompts, trail) && trail[0] == name ==>
      trail[|trail| - 1] in prompts && Distinct(stack + trail)
  }

  lemma DistinctParts(stack: seq<Name>, trail: seq<Name>)
    requires Distinct(stack + trail)
    ensures Distinct(trail) && Disjoint(stack, trail)
  {
    var all := stack + trail;
    assert forall i :: 0 <= i < |trail| ==> all[|stack| + i] == trail[i];
    forall x | x in stack
      ensures x !in trail
    {
      var i :| 0 <= i < |stack| && stack[i] == x;
      assert all[i] == x;
    }
  }

  lemma StepDown(prompts: Prompts, name: Name, stack: seq<Name>, n: Name)
    requires WellFounded(prompts, name, stack) && name in prompts && Include(n) in prompts[name]
    ensures WellFounded(prompts, n, stack + [name])
  {
    forall trail | Trail(prompts, trail) && trail[0] == n
      ensures trail[|trail| - 1] in prompts && Distinct((stack + [name]) + trail)
    {
      var longer := [name] + trail;
      assert longer[0] == name && longer[|longer| - 1] == trail[|trail| - 1];
      assert stack + longer == (stack + [name]) + trail;
    }
  }

  lemma StepUp(prompts: Prompts, name: Name, stack: seq<Name>)
    requires Distinct(stack) && name !in stack && name in prompts
    requires forall n :: Include(n) in prompts[name] ==> WellFounded(prompts, n, stack + [name])
    ensures WellFounded(prompts, name, stack)
  {
    forall trail | Trail(prompts, trail) && trail[0] == name
      ensures trail[|trail| - 1] in prompts && Distinct(stack + trail)
    {
      if |trail| == 1 {
        assert trail == [name];
      } else {
        var tail := trail[1..];
        assert WellFounded(prompts, trail[1], stack + [name]);
        assert tail[0] == trail[1] && tail[|tail| - 1] == trail[|trail| - 1];
        assert (stack + [name]) + tail == stack + trail;
      }
    }
  }

  /** A name is well founded when it is new, readable, and so is everything it includes. */
  lemma WellFoundedStep(prompts: Prompts, name: Name, stack: seq<Name>)
    requires Distinct(stack)
    ensures WellFounded(prompts, name, stack) <==>
            && name !in stack && name in prompts
            && forall n :: Include(n) in prompts[name] ==> WellFounded(prompts, n, stack + [name])
  {
    if WellFounded(prompts, name, stack) {
      assert Trail(prompts, [name]) && [name][0] == name;
      DistinctParts(stack, [name]);
      forall n | Include(n) in prompts[name]
        ensures WellFounded(prompts, n, stack + [name])
      {
        StepDown(prompts, name, stack, n);
      }
    }
    if name !in stack && name in prompts && forall n :: Include(n) in prompts[name] ==>
      WellFounded(prompts, n, stack + [name]) {
      StepUp(prompts, name, stack);
    }
  }

  lemma {:induction false} LoadsWhenWellFounded(prompts: Prompts, name: Name, stack: seq<Name>)
    requires Distinct(stack)
    ensures Load(prompts, name, stack).Loaded? <==> WellFounded(prompts, name, stack)
    decreases |Open(prompts, stack)|, 0, 1
  {
    WellFoundedStep(prompts, name, stack);
    if name !in stack && name in prompts {
      OpenShrinks(prompts, stack, name);
      ExpandsWhenWellFounded(prompts, prompts[name], stack + [name]);
    }
  }

  lemma {:induction false} ExpandsWhenWellFounded(prompts: Prompts, pieces: seq<Piece>, stack: seq<Name>)
    requires Distinct(stack)
    ensures Expand(prompts, pieces, stack).Loaded? <==> forall n :: Include(n) in pieces ==>
            WellFounded(prompts, n, stack)
    decreases |Open(prompts, stack)|, |pieces|, 2
  {
    if pieces != [] {
      assert pieces == [pieces[0]] + pieces[1..];
      if pieces[0].Include? {
        LoadsWhenWellFounded(prompts, pieces[0].name, stack);
      }
      ExpandsWhenWellFounded(prompts, pieces[1..], stack);
    }
  }

  /** A prompt loads exactly when every name reachable from it can be read and no cycle is
      reachable. */
  lemma LoadsExactlyWithoutCycles(prompts: Prompts, name: Name)
    ensures Load(prompts, name, []).Loaded?
            <==> forall trail :: Trail(prompts, trail) && trail[0] == name ==>
              trail[|trail| - 1] in prompts && Distinct(trail)
  {
    LoadsWhenWellFounded(prompts, name, []);
    assert forall trail: seq<Name> :: [] + trail == trail;
  }

  // ---------------------------------------------------------------- what is loaded

  /** The text does not depend on what else is being expanded. */
  lemma {:induction false} StackDoesNotMatter(prompts: Prompts, name: Name, stack: seq<Name>, other: seq<Name>)
    requires Load(prompts, name, stack).Loaded? && Load(prompts, name, other).Loaded?
    ensures Load(prompts, name, stack) == Load(prompts, name, other)
    decreases |Open(prompts, stack)|, 0, 1
  {
    OpenShrinks(prompts, stack, name);
    ExpansionDoesNotMatter(prompts, prompts[name], stack + [name], other + [name]);
  }

  lemma {:induction false} ExpansionDoesNotMatter(prompts: Prompts, pieces: seq<Piece>, stack: seq<Name>,
      other: seq<Name>)
    requires Expand(prompts, pieces, stack).Loaded? && Expand(prompts, pieces, other).Loaded?
    ensures Expand(prompts, pieces, stack) == Expand(prompts, pieces, other)
    decreases |Open(prompts, stack)|, |pieces|, 2
  {
    if pieces != [] {
      if pieces[0].Include? {
        StackDoesNotMatter(prompts, pieces[0].name, stack, other);
      }
      ExpansionDoesNotMatter(prompts, pieces[1..], stack, other);
    }
  }

  /** With fewer names open, what loaded still loads. */
  lemma {:induction false} LoadsWithFewerOpen(prompts: Prompts, name: Name, stack: seq<Name>)
    requires Distinct(stack) && Load(prompts, name, stack).Loaded?
    ensures Load(prompts, name, []).Loaded?
  {
    LoadsWhenWellFounded(prompts, name, stack);
    forall trail | Trail(prompts, trail) && trail[0] == name
      ensures trail[|trail| - 1] in prompts && Distinct([] + trail)
    {
      DistinctParts(stack, trail);
      assert [] + trail == trail;
    }
    LoadsWhenWellFounded(prompts, name, []);
  }

  /** The text of the pieces, each include replaced by what it loads on its own. */
  function Substituted(prompts: Prompts, pieces: seq<Piece>): string
    requires forall n :: Include(n) in pieces ==> Load(prompts, n, []).Loaded?
  {
    if pieces == [] then ""
    else
      (match pieces[0]
       case Text(text) => text
       case Include(name) => Load(prompts, name, []).text) + Substituted(prompts, pieces[1..])
  }

  lemma {:induction false} ExpandSubstitutes(prompts: Prompts, pieces: seq<Piece>, stack: seq<Name>)
    requires Distinct(stack) && Expand(prompts, pieces, stack).Loaded?
    ensures forall n :: Include(n) in pieces ==> Load(prompts, n, []).Loaded?
    ensures Expand(prompts, pieces, stack).text == Substituted(prompts, pieces)
    decreases |pieces|
  {
    if pieces != [] {
      assert pieces == [pieces[0]] + pieces[1..];
      ExpandSubstitutes(prompts, pieces[1..], stack);
      if pieces[0].Include? {
        LoadsWithFewerOpen(prompts, pieces[0].name, stack);
        StackDoesNotMatter(prompts, pieces[0].name, stack, []);
      }
    }
  }

  /** A loaded prompt is its text with every include replaced by that prompt, loaded on its own. */
  lemma LoadedIsSubstituted(prompts: Prompts, name: Name)
    requires Load(prompts, name, []).Loaded?
    ensures name in prompts && forall n :: Include(n) in prompts[name] ==> Load(prompts, n, []).Loaded?
    ensures Load(prompts, name, []).text == Substituted(prompts, prompts[name])
  {
    assert Load(prompts, name, []) == Expand(prompts, prompts[name], [] + [name]);
    assert [] + [name] == [name];
    ExpandSubstitutes(prompts, prompts[name], [name]);
  }

  /** A reported cycle is one: the names really include each other and the last repeats one. */
  lemma {:induction false} ReportedCycleIsReal(prompts: Prompts, name: Name, stack: seq<Name>)
    requires Trail(prompts, stack + [name])
    requires Load(prompts, name, stack).Cycle?
    ensures var trail := Load(prompts, name, stack).trail;
            && stack + [name] <= trail && Trail(prompts, trail) && trail[|trail| - 1] in trail[..|trail| - 1]
    decreases |Open(prompts, stack)|, 0, 1
  {
    if name in stack {
      assert (stack + [name])[..|stack|] == stack;
    } else {
      OpenShrinks(prompts, stack, name);
      ExpandedCycleIsReal(prompts, prompts[name], stack + [name]);
    }
  }

  lemma {:induction false} ExpandedCycleIsReal(prompts: Prompts, pieces: seq<Piece>, stack: seq<Name>)
    requires Trail(prompts, stack) && stack[|stack| - 1] in prompts
    requires forall p :: p in pieces ==> p in prompts[stack[|stack| - 1]]
    requires Expand(prompts, pieces, stack).Cycle?
    ensures var trail := Expand(prompts, pieces, stack).trail;
            && stack <= trail && Trail(prompts, trail) && trail[|trail| - 1] in trail[..|trail| - 1]
    decreases |Open(prompts, stack)|, |pieces|, 2
  {
    assert pieces == [pieces[0]] + pieces[1..];
    if pieces[0].Include? && Load(prompts, pieces[0].name, stack).Cycle? {
      var longer := stack + [pieces[0].name];
      assert pieces[0] in pieces;
      forall i | 0 <= i < |longer| - 1
        ensures longer[i] in prompts && Include(longer[i + 1]) in prompts[longer[i]]
      {
        if i < |stack| - 1 {
          assert longer[i] == stack[i] && longer[i + 1] == stack[i + 1];
        }
      }
      ReportedCycleIsReal(prompts, pieces[0].name, stack);
    } else {
      assert forall p :: p in pieces[1..] ==> p in pieces;
      ExpandedCycleIsReal(prompts, pieces[1..], stack);
    }
  }

  lemma TrailCons(prompts: Prompts, name: Name, trail: seq<Name>)
    requires name in prompts && Trail(prompts, trail) && Include(trail[0]) in prompts[name]
    ensures Trail(prompts, [name] + trail)
  {
    var longer := [name] + trail;
    assert forall i :: 1 <= i < |longer| ==> longer[i] == trail[i - 1];
  }

  /** A name reported as unreadable is: it cannot be read, and names that include each other lead to it. */
  lemma {:induction false} ReportedUnreadableIsReal(prompts: Prompts, name: Name, stack: seq<Name>)
      returns (trail: seq<Name>)
    requires Load(prompts, name, stack).Unreadable?
    ensures Trail(prompts, trail) && trail[0] == name
    ensures trail[|trail| - 1] == Load(prompts, name, stack).name && trail[|trail| - 1] !in prompts
    decreases |Open(prompts, stack)|, 0, 1
  {
    if name !in prompts {
      trail := [name];
    } else {
      OpenShrinks(prompts, stack, name);
      var rest := ExpandedUnreadableIsReal(prompts, prompts[name], stack + [name]);
      TrailCons(prompts, name, rest);
      trail := [name] + rest;
    }
  }

  lemma {:induction false} ExpandedUnreadableIsReal(prompts: Prompts, pieces: seq<Piece>, stack: seq<Name>)
      returns (trail: seq<Name>)
    requires Expand(prompts, pieces, stack).Unreadable?
    ensures Trail(prompts, trail) && Include(trail[0]) in pieces
    ensures trail[|trail| - 1] == Expand(prompts, pieces, stack).name && trail[|trail| - 1] !in prompts
    decreases |Open(prompts, stack)|, |pieces|, 2
  {
    assert pieces == [pieces[0]] + pieces[1..];
    if pieces[0].Include? && Load(prompts, pieces[0].name, stack).Unreadable? {
      trail := ReportedUnreadableIsReal(prompts, pieces[0].name, stack);
      assert pieces[0] in pieces;
    } else {
      trail := ExpandedUnreadableIsReal(prompts, pieces[1..], stack);
    }
  }
}
