/** What becomes of a schema's alternatives: when a branch of anyOf or oneOf is used, which one, and what a
    merge does with fields that both sides have. */
module SchemaBranches {
  import opened Sequences
  import MarkdownMemory
  import opened SchemaSanitizer
  import opened SchemaProperties

  // ---------------------------------------------------------------- what a merge does field by field

  ghost predicate DistinctKeys(fields: Fields) {
    forall i, j :: 0 <= i < j < |fields| ==> fields[i].key != fields[j].key
  }

  /** A dictionary's value for a key, once `value` is merged into it: merged too if both are dictionaries,
      replaced otherwise. */
  ghost predicate MergedInto(was: Option<Json>, value: Json, now: Option<Json>, show: Show) {
    if was.Some? && was.value.Obj? && value.Obj? then
      Merge(was.value.fields, value.fields, show).Ok?
      && now == Some(Obj(Merge(was.value.fields, value.fields, show).value))
    else now == Some(value)
  }

  lemma SubMerged(merged: Fields, key: string, value: Json, show: Show)
    requires MergeSub(merged, key, value, show).Ok?
    ensures MergedInto(Get(merged, key), value, Get(MergeSub(merged, key, value, show).value, key), show)
    ensures forall other :: other != key ==> Get(MergeSub(merged, key, value, show).value, other) == Get(merged, other)
  {
    var after := MergeSub(merged, key, value, show).value;
    var v :| after == Put(merged, key, v) && MergedInto(Get(merged, key), value, Some(v), show);
    forall other
      ensures Get(after, other) == if other == key then Some(v) else Get(merged, other)
    {
      GetPut(merged, key, v, other);
    }
  }

  lemma {:induction false} MergeElsewhere(base: Fields, overlay: Fields, show: Show, key: string)
    requires Merge(base, overlay, show).Ok? && Get(overlay, key).None?
    ensures Get(Merge(base, overlay, show).value, key) == Get(base, key)
    decreases |overlay|
  {
    if overlay != [] {
      MergeFieldElsewhere(base, overlay[0], show, key);
      MergeElsewhere(MergeField(base, overlay[0], show).value, overlay[1..], show, key);
    }
  }

  lemma {:induction false} NotAgain(fields: Fields)
    requires DistinctKeys(fields) && fields != []
    ensures DistinctKeys(fields[1..]) && Get(fields[1..], fields[0].key).None?
  {
    KeyIsAbsent(fields[1..], fields[0].key);
  }

  lemma {:induction false} KeyIsAbsent(fields: Fields, key: string)
    requires forall i :: 0 <= i < |fields| ==> fields[i].key != key
    ensures Get(fields, key).None?
  {
    if fields != [] {
      KeyIsAbsent(fields[1..], key);
    }
  }

  /** Schemas of items and of additional properties are merged if both sides have one; a plain value of
      the overlay replaces the base's. */
  lemma {:induction false} ItemsAreMerged(base: Fields, overlay: Fields, show: Show, key: string)
    requires Merge(base, overlay, show).Ok? && DistinctKeys(overlay)
    requires key in {"items", "additionalProperties"} && Get(overlay, key).Some?
    ensures MergedInto(Get(base, key), Get(overlay, key).value, Get(Merge(base, overlay, show).value, key), show)
    decreases |overlay|
  {
    var next := MergeField(base, overlay[0], show).value;
    NotAgain(overlay);
    if overlay[0].key == key {
      SubMerged(base, key, overlay[0].value, show);
      MergeElsewhere(next, overlay[1..], show, key);
    } else {
      MergeFieldElsewhere(base, overlay[0], show, key);
      ItemsAreMerged(next, overlay[1..], show, key);
    }
  }

  /** Merging the overlay's properties in, each property of the overlay is merged into the base's of that
      name or added, and the others stay. */
  lemma {:induction false} PropertiesAreMerged(existing: Fields, value: Fields, show: Show, name: string)
    requires MergeProperties(existing, value, show).Ok? && DistinctKeys(value)
    ensures var now := Get(MergeProperties(existing, value, show).value, name);
            if Get(value, name).None? then now == Get(existing, name)
            else MergedInto(Get(existing, name), Get(value, name).value, now, show)
    decreases |value|
  {
    if value != [] {
      NotAgain(value);
      SubMerged(existing, value[0].key, value[0].value, show);
      PropertiesAreMerged(MergeSub(existing, value[0].key, value[0].value, show).value, value[1..], show, name);
    }
  }

  /** Both tables of properties are merged property by property. */
  lemma {:induction false} TablesAreMerged(base: Fields, overlay: Fields, show: Show, name: string)
    requires Merge(base, overlay, show).Ok? && DistinctKeys(overlay)
    requires DeclaresTable(base) && DeclaresTable(overlay) && DistinctKeys(Table(overlay))
    ensures var merged := Merge(base, overlay, show).value;
            && DeclaresTable(merged)
            && if Get(Table(overlay), name).None? then Get(Table(merged), name) == Get(Table(base), name)
               else MergedInto(Get(Table(base), name), Get(Table(overlay), name).value, Get(Table(merged), name), show)
    decreases |overlay|
  {
    var f, next := overlay[0], MergeField(base, overlay[0], show).value;
    NotAgain(overlay);
    if f.key == "properties" {
      MergeElsewhere(next, overlay[1..], show, "properties");
      PropertiesField(base, f, show);
      PropertiesAreMerged(Table(base), f.value.fields, show, name);
    } else {
      MergeFieldElsewhere(base, f, show, "properties");
      TablesAreMerged(next, overlay[1..], show, name);
    }
  }

  lemma {:induction false} SomethingStays(existing: Fields, value: Fields, show: Show)
    requires MergeProperties(existing, value, show) == Ok([])
    ensures existing == []
    decreases |value|
  {
    if value != [] {
      SomethingStays(MergeSub(existing, value[0].key, value[0].value, show).value, value[1..], show);
    }
  }

  lemma PropertiesField(base: Fields, f: Field, show: Show)
    requires f.key == "properties" && f.value.Obj? && MergeField(base, f, show).Ok? && DeclaresTable(base)
    ensures MergeProperties(Table(base), f.value.fields, show).Ok?
    ensures DeclaresTable(MergeField(base, f, show).value)
    ensures Table(MergeField(base, f, show).value) == MergeProperties(Table(base), f.value.fields, show).value
  {
    assert AsDict(Get(base, "properties")) == Ok(Table(base)) && AsDict(Some(f.value)) == Ok(f.value.fields);
    var properties := MergeProperties(Table(base), f.value.fields, show).value;
    if properties == [] {
      SomethingStays(Table(base), f.value.fields, show);
    }
    GetPut(base, "properties", Obj(properties), "properties");
  }

  /** A blank type is filled in from the overlay. */
  lemma {:induction false} TypeIsFilledIn(base: Fields, overlay: Fields, show: Show)
    requires Merge(base, overlay, show).Ok? && BlankType(Get(base, "type")) && !BlankType(Get(overlay, "type"))
    ensures Get(Merge(base, overlay, show).value, "type") == Get(overlay, "type")
    decreases |overlay|
  {
    var next := MergeField(base, overlay[0], show).value;
    if overlay[0].key == "type" {
      GetPut(base, "type", overlay[0].value, "type");
      MergeKeepsBase(next, overlay[1..], show, "type");
    } else {
      MergeFieldElsewhere(base, overlay[0], show, "type");
      TypeIsFilledIn(next, overlay[1..], show);
    }
  }

  /** A value counts as nothing: absent values aside, these six. */
  predicate Nothing(j: Json) {
    j == Null || j == Bool(false) || j == Num(0.0) || j == Str("") || j == Arr([]) || j == Obj([])
  }

  lemma NothingIsNotTruthy(j: Json)
    ensures Truthy(j) <==> !Nothing(j)
  {
  }

  /** A type that is null or empty is not taken over; one the base has stays unless it counts as nothing or
      is white space. */
  lemma {:induction false} TypeIsKept(base: Fields, overlay: Fields, show: Show)
    requires Merge(base, overlay, show).Ok? && DistinctKeys(overlay)
    ensures var was, more := Get(base, "type"), Get(overlay, "type");
            var blank := was.None? || Nothing(was.value)
                         || (was.value.Str? && MarkdownMemory.Strip(was.value.s) == "");
            Get(Merge(base, overlay, show).value, "type")
            == if blank && more.Some? && more.value != Null && more.value != Str("") then more else was
    decreases |overlay|
  {
    if Get(base, "type").Some? {
      NothingIsNotTruthy(Get(base, "type").value);
    }
    if overlay != [] {
      var next := MergeField(base, overlay[0], show).value;
      NotAgain(overlay);
      if overlay[0].key == "type" {
        GetPut(base, "type", overlay[0].value, "type");
        MergeElsewhere(next, overlay[1..], show, "type");
      } else {
        MergeFieldElsewhere(base, overlay[0], show, "type");
        TypeIsKept(next, overlay[1..], show);
      }
    }
  }

  /** Properties that are neither nothing nor a dictionary, on either side, are an error. */
  lemma PropertiesMustBeTables(base: Fields, f: Field, show: Show)
    requires f.key == "properties"
    requires var was := Get(base, "properties");
             (was.Some? && !Nothing(was.value) && !was.value.Obj?) || (!Nothing(f.value) && !f.value.Obj?)
    ensures MergeField(base, f, show) == Error
  {
    NothingIsNotTruthy(f.value);
    if Get(base, "properties").Some? {
      NothingIsNotTruthy(Get(base, "properties").value);
    }
  }

  // ---------------------------------------------------------------- what a schema's own fields become

  /** The type is a list that admits something else than objects and null, and properties are listed. */
  ghost predicate AdmitsMore(fields: Fields) {
    var kind, table := Get(fields, "type"), Get(fields, "properties");
    && kind.Some? && kind.value.Arr? && table.Some? && table.value.Obj? && table.value != Obj([])
    && exists item :: item in kind.value.items && item != Str("null") && item != Str("object")
  }

  lemma LooseAdmitsMore(fields: Fields)
    ensures Loose(fields) <==> AdmitsMore(fields)
  {
    var kind := Get(fields, "type");
    if kind.Some? && kind.value.Arr? {
      if item :| item in kind.value.items && item != Str("null") && item != Str("object") {
        var i :| 0 <= i < |kind.value.items| && kind.value.items[i] == item;
        assert HasOther(kind.value.items);
      }
      if HasOther(kind.value.items) {
        var i :| 0 <= i < |kind.value.items| && kind.value.items[i] != Str("null")
          && kind.value.items[i] != Str("object");
        assert kind.value.items[i] in kind.value.items;
      }
    }
  }

  /** Such a type is narrowed to objects, or to objects and null if it admits null; all else stays. */
  lemma TightenForm(fields: Fields, key: string)
    ensures Get(Tighten(fields), key)
            == if key != "type" || !AdmitsMore(fields) then Get(fields, key)
               else if Str("null") in Get(fields, "type").value.items then Some(Arr([Str("object"), Str("null")]))
               else Some(Str("object"))
  {
    LooseAdmitsMore(fields);
    if Loose(fields) {
      GetPut(fields, "type", if Str("null") in Get(fields, "type").value.items then Arr([Str("object"), Str("null")])
                             else Str("object"), key);
    }
  }

  /** In a list, objects are sanitized and everything else stays, lists within it too. */
  lemma {:induction false} ListForm(items: seq<Json>, show: Show)
    requires SanitizeItems(items, show).Ok?
    ensures var items' := SanitizeItems(items, show).value;
            |items'| == |items| && forall i :: 0 <= i < |items| ==>
              if items[i].Obj? then Sanitize(items[i], show).Ok? && items'[i] == Obj(Sanitize(items[i], show).value)
              else items'[i] == items[i]
  {
    if items != [] {
      ListForm(items[1..], show);
      var items' := SanitizeItems(items, show).value;
      assert items'[1..] == SanitizeItems(items[1..], show).value;
      assert forall i :: 1 <= i < |items| ==> items[i] == items[1..][i - 1] && items'[i] == items'[1..][i - 1];
    }
  }

  /** The same letter, the second one possibly a capital. */
  predicate LetterOf(lower: char, c: char) {
    c == lower || ('A' <= c <= 'Z' && c as int + 32 == lower as int)
  }

  /** A schema has a type if its type is that name up to case and outer white space. */
  lemma TypeForm(fields: Fields, name: string)
    requires forall i :: 0 <= i < |name| ==> 'a' <= name[i] <= 'z'
    ensures TypeIs(fields, name)
            <==> && Get(fields, "type").Some? && Get(fields, "type").value.Str?
                 && var t := MarkdownMemory.Strip(Get(fields, "type").value.s);
                    |t| == |name| && forall i :: 0 <= i < |t| ==> LetterOf(name[i], t[i])
  {
    if Get(fields, "type").Some? && Get(fields, "type").value.Str? {
      var t := MarkdownMemory.Strip(Get(fields, "type").value.s);
      assert Lower(t) == name <==> |t| == |name| && forall i :: 0 <= i < |t| ==> Lower(t)[i] == name[i];
      if |t| == |name| {
        forall i | 0 <= i < |t|
          ensures Lower(t)[i] == name[i] <==> LetterOf(name[i], t[i])
        {
        }
      }
    }
  }

  // ---------------------------------------------------------------- the names a schema requires

  /** The name an item of a list gives: its text without outer white space, none if nothing is left. */
  function NameGiven(item: Json, show: Show): seq<string> {
    if Nothing(item) then []
    else
      var name := MarkdownMemory.Strip(if item.Str? then item.s else show(item));
      if name == "" then [] else [name]
  }

  lemma {:induction false} NamesInOrder(items: seq<Json>, more: seq<Json>, item: Json, show: Show)
    ensures ItemTexts(items + [item] + more, show)
            == ItemTexts(items, show) + NameGiven(item, show) + ItemTexts(more, show)
  {
    NamesConcat(items + [item], more, show);
    NamesConcat(items, [item], show);
    NothingIsNotTruthy(item);
    assert [item][1..] == [] && ItemTexts([], show) == [];
    assert ItemTexts([item], show) == NameGiven(item, show) + [] == NameGiven(item, show);
  }

  lemma {:induction false} NamesConcat(a: seq<Json>, b: seq<Json>, show: Show)
    ensures ItemTexts(a + b, show) == ItemTexts(a, show) + ItemTexts(b, show)
  {
    if a == [] {
      assert a + b == b && ItemTexts(a, show) == [];
    } else {
      assert (a + b)[1..] == a[1..] + b;
      NamesConcat(a[1..], b, show);
      var name := ItemText(a[0], show);
      Regroup(if name == "" then [] else [name], ItemTexts(a[1..], show), ItemTexts(b, show));
    }
  }

  /** The names in a required value: none if it is absent or nothing; those its items give in order; the keys
      of a dictionary; the characters of a text. Anything else is an error. */
  lemma RequiredForm(v: Json, show: Show)
    ensures RequiredNames(None, show) == Ok([])
    ensures Nothing(v) ==> RequiredNames(Some(v), show) == Ok([])
    ensures v.Arr? ==> RequiredNames(Some(v), show) == Ok(ItemTexts(v.items, show))
    ensures v.Obj? ==> exists keys: seq<Json> ::
                && |keys| == |v.fields| && (forall i :: 0 <= i < |keys| ==> keys[i] == Str(v.fields[i].key))
                && RequiredNames(Some(v), show) == Ok(ItemTexts(keys, show))
    ensures v.Str? ==> exists chars: seq<Json> ::
                && |chars| == |v.s| && (forall i :: 0 <= i < |chars| ==> chars[i] == Str([v.s[i]]))
                && RequiredNames(Some(v), show) == Ok(ItemTexts(chars, show))
    ensures !Nothing(v) && (v.Bool? || v.Num?) ==> RequiredNames(Some(v), show) == Error
  {
    NothingIsNotTruthy(v);
    if v.Obj? {
      var keys := Keys(v.fields);
      assert |keys| == |v.fields| && forall i :: 0 <= i < |keys| ==> keys[i] == Str(v.fields[i].key);
    } else if v.Str? {
      var chars := Chars(v.s);
      assert |chars| == |v.s| && forall i :: 0 <= i < |chars| ==> chars[i] == Str([v.s[i]]);
    }
  }

  // ---------------------------------------------------------------- which branch is best

  /** What a field is worth in a branch. */
  const WORTH: seq<(string, nat)> := [("properties", 50), ("items", 40), ("type", 20), ("additionalProperties", 10)]

  function Worth(fields: Fields, table: seq<(string, nat)>): nat {
    if table == [] then 0
    else (if Get(fields, table[0].0).Some? then table[0].1 else 0) + Worth(fields, table[1..])
  }

  /** The score of a branch: a hundred for an object, thirty for listed values, and what its fields are
      worth. */
  lemma ScoreIsWorth(fields: Fields)
    ensures Score(fields)
            == Worth(fields, WORTH) + (if TypeIs(fields, "object") then 100 else 0)
               + (if Get(fields, "enum") != None || Get(fields, "const") != None then 30 else 0)
  {
    var t1, t2, t3 := WORTH[1..], WORTH[1..][1..], WORTH[1..][1..][1..];
    assert t3[1..] == [];
    assert Worth(fields, t3) == if Get(fields, "additionalProperties").Some? then 10 else 0;
    assert Worth(fields, t2) == (if Get(fields, "type").Some? then 20 else 0) + Worth(fields, t3);
    assert Worth(fields, t1) == (if Get(fields, "items").Some? then 40 else 0) + Worth(fields, t2);
  }

  /** Branch `k` is the first of those with the highest score, and among equal scores with the most fields,
      of the branches whose type is not null. */
  ghost predicate FirstOfTheBest(branches: seq<Fields>, k: nat) {
    && k < |branches| && !TypeIs(branches[k], "null")
    && forall i :: 0 <= i < |branches| && !TypeIs(branches[i], "null") ==>
         || Score(branches[i]) < Score(branches[k])
         || (Score(branches[i]) == Score(branches[k])
             && (|branches[i]| < |branches[k]| || (|branches[i]| == |branches[k]| && k <= i)))
  }

  lemma BestIsFirst(branches: seq<Fields>, k: nat)
    requires IsBest(branches, k)
    ensures FirstOfTheBest(branches, k)
  {
    forall i | 0 <= i < |branches| && !TypeIs(branches[i], "null")
      ensures || Score(branches[i]) < Score(branches[k])
              || (Score(branches[i]) == Score(branches[k])
                  && (|branches[i]| < |branches[k]| || (|branches[i]| == |branches[k]| && k <= i)))
    {
      assert !Better(branches[i], branches[k]) && (i < k ==> Better(branches[k], branches[i]));
    }
  }

  lemma PreferredIsFirstOfTheBest(branches: seq<Fields>)
    requires exists i :: 0 <= i < |branches| && !TypeIs(branches[i], "null")
    ensures exists k: nat :: FirstOfTheBest(branches, k) && branches[k] == Preferred(branches)
  {
    PreferredIsBest(branches);
    var k: nat :| IsBest(branches, k) && branches[k] == Preferred(branches);
    BestIsFirst(branches, k);
  }

  // ---------------------------------------------------------------- when a branch is used

  /** One of the six fields that give a schema a shape is there. */
  predicate Shaped(fields: Fields) {
    || Get(fields, "type").Some? || Get(fields, "properties").Some? || Get(fields, "items").Some?
    || Get(fields, "enum").Some? || Get(fields, "const").Some? || Get(fields, "additionalProperties").Some?
  }

  lemma {:induction false} GetFinds(fields: Fields, key: string)
    ensures Get(fields, key).Some? <==> exists i :: 0 <= i < |fields| && fields[i].key == key
  {
    if fields != [] {
      GetFinds(fields[1..], key);
      if i :| 0 <= i < |fields[1..]| && fields[1..][i].key == key {
        assert fields[i + 1].key == key;
      }
      if i :| 1 <= i < |fields| && fields[i].key == key {
        assert fields[1..][i - 1].key == key;
      }
    }
  }

  lemma ShapeIsShaped(fields: Fields)
    ensures HasShape(fields) <==> Shaped(fields)
  {
    forall key: string
      ensures Get(fields, key).Some? <==> exists i :: 0 <= i < |fields| && fields[i].key == key
    {
      GetFinds(fields, key);
    }
  }

  /** The schema's own fields, sanitized, with all branches of allOf merged in. */
  function Whole(schema: Fields, show: Show): Outcome<Fields> {
    var plain :- SanitizeFields(WithoutCombinators(Tighten(schema)), show);
    MergeBranches(plain, Branches(schema, "allOf"), show)
  }

  /** The alternatives: the objects in anyOf and then those in oneOf, each sanitized. */
  function Alternatives(schema: Fields, show: Show): Outcome<seq<Fields>> {
    var any :- SanitizeBranches(Branches(schema, "anyOf"), show);
    var one :- SanitizeBranches(Branches(schema, "oneOf"), show);
    Ok(any + one)
  }

  lemma SameBranches(schema: Fields, name: string)
    requires name != "type"
    ensures Branches(Tighten(schema), name) == Branches(schema, name)
  {
    TightenedHas(schema, name);
  }

  lemma WithBranchesOpens(plain: Fields, schema: Fields, show: Show)
    ensures var whole := MergeBranches(plain, Branches(schema, "allOf"), show);
            WithBranches(plain, schema, show)
            == if whole.Error? || HasShape(whole.value) then whole
               else
                 var all := Alternatives(schema, show);
                 if all.Error? then Error
                 else if Preferred(all.value) == [] then whole
                 else Merge(whole.value, Preferred(all.value), show)
  {
  }

  lemma SanitizeOpens(schema: Fields, show: Show)
    ensures var whole := Whole(schema, show);
            Sanitize(Obj(schema), show)
            == if whole.Error? || HasShape(whole.value) then whole
               else
                 var all := Alternatives(schema, show);
                 if all.Error? then Error
                 else if Preferred(all.value) == [] then whole
                 else Merge(whole.value, Preferred(all.value), show)
  {
    var plain := SanitizeFields(WithoutCombinators(Tighten(schema)), show);
    assert |"allOf"| == |"anyOf"| == |"oneOf"| == 5 && |"type"| == 4;
    SameBranches(schema, "allOf");
    SameBranches(schema, "anyOf");
    SameBranches(schema, "oneOf");
    if plain.Ok? {
      WithBranchesOpens(plain.value, Tighten(schema), show);
    }
  }

  /** The objects of a list, in order. */
  function Objects(items: seq<Json>): seq<Json> {
    if items == [] then [] else (if items[0].Obj? then [items[0]] else []) + Objects(items[1..])
  }

  /** The branches are the objects of the list, in order, each sanitized. */
  lemma {:induction false} BranchesAreSanitized(items: seq<Json>, show: Show, i: nat)
    requires SanitizeBranches(items, show).Ok?
    ensures |SanitizeBranches(items, show).value| == |Objects(items)|
    ensures i < |Objects(items)| ==> Sanitize(Objects(items)[i], show) == Ok(SanitizeBranches(items, show).value[i])
  {
    if items != [] {
      BranchesAreSanitized(items[1..], show, if items[0].Obj? && i > 0 then i - 1 else i);
    }
  }

  /** A schema that has a shape once allOf is merged in is that, whatever anyOf and oneOf hold. */
  lemma ShapedIgnoresAlternatives(schema: Fields, show: Show)
    requires Whole(schema, show).Ok? && Shaped(Whole(schema, show).value)
    ensures Sanitize(Obj(schema), show) == Whole(schema, show)
  {
    SanitizeOpens(schema, show);
    ShapeIsShaped(Whole(schema, show).value);
  }

  /** Without a shape, the best alternative is merged in, if there is one that is not the null type. Then
      the plain fields it has and the schema has not are the result's, its type too unless it is blank. */
  lemma UnshapedTakesTheBest(schema: Fields, show: Show)
    requires Sanitize(Obj(schema), show).Ok? && Whole(schema, show).Ok? && !Shaped(Whole(schema, show).value)
    ensures Alternatives(schema, show).Ok?
    ensures var whole, all := Whole(schema, show).value, Alternatives(schema, show).value;
            var result := Sanitize(Obj(schema), show).value;
            if forall b :: b in all ==> TypeIs(b, "null") then result == whole
            else
              exists k: nat ::
                && FirstOfTheBest(all, k) && Merge(whole, all[k], show) == Ok(result)
                && (forall key :: key !in DEEP && key != "type" && Get(whole, key).None? ==>
                      Get(result, key) == Get(all[k], key))
                && (!BlankType(Get(all[k], "type")) ==> Get(result, "type") == Get(all[k], "type"))
  {
    SanitizeOpens(schema, show);
    ShapeIsShaped(Whole(schema, show).value);
    var whole, all := Whole(schema, show).value, Alternatives(schema, show).value;
    var result := Sanitize(Obj(schema), show).value;
    if forall b :: b in all ==> TypeIs(b, "null") {
      NullsAreNotPreferred(all);
    } else {
      var b :| b in all && !TypeIs(b, "null");
      var i :| 0 <= i < |all| && all[i] == b;
      PreferredIsFirstOfTheBest(all);
      var k: nat :| FirstOfTheBest(all, k) && all[k] == Preferred(all);
      assert Merge(whole, all[k], show) == Ok(result);
      forall key | key !in DEEP && key != "type" && Get(whole, key).None?
        ensures Get(result, key) == Get(all[k], key)
      {
        MergeFillsIn(whole, all[k], show, key);
      }
      if !BlankType(Get(all[k], "type")) {
        TypeIsFilledIn(whole, all[k], show);
      }
    }
  }

  lemma {:induction false} NullsAreNotPreferred(branches: seq<Fields>)
    requires forall b :: b in branches ==> TypeIs(b, "null")
    ensures Preferred(branches) == []
  {
    if branches != [] {
      assert branches == [branches[0]] + branches[1..] && branches[0] in branches;
      NullsAreNotPreferred(branches[1..]);
    }
  }

  // ---------------------------------------------------------------- an optional field

  const TITLE: Field := Field("title", Str("Name"))
  const STRING_TYPE: Field := Field("type", Str("string"))
  const NULL_TYPE: Field := Field("type", Str("null"))
  const STRING_OR_NULL: Field := Field("anyOf", Arr([Obj([STRING_TYPE]), Obj([NULL_TYPE])]))

  lemma TypesOfOptional()
    ensures !TypeIs([STRING_TYPE], "null") && TypeIs([NULL_TYPE], "null")
  {
    MarkdownMemory.StripOfTrimmed("string");
    MarkdownMemory.StripOfTrimmed("null");
    assert |Lower("string")| == 6 && |"null"| == 4;
    assert Lower("null") == "null";
  }

  lemma OneField(f: Field, show: Show)
    requires f.value.Str? && f.key !in COMBINATORS && f.key != "description"
    ensures SanitizeFields([f], show) == Ok([f]) && WithoutCombinators([f]) == [f] && !Loose([f])
    ensures forall name :: name in COMBINATORS ==> Branches([f], name) == []
  {
    assert [f][1..] == [];
    var none: Fields := [];
    assert SanitizeFields(none, show) == Ok(none) && [f] + none == [f];
    assert Get([f], "properties") == None || Get([f], "properties") == Some(f.value);
  }

  lemma LoneType(f: Field, show: Show)
    requires f.key == "type" && f.value.Str?
    ensures Sanitize(Obj([f]), show) == Ok([f])
  {
    OneField(f, show);
    assert Whole([f], show) == Ok([f]) && Shaped([f]);
    ShapedIgnoresAlternatives([f], show);
  }

  lemma SanitizedCons(first: Json, fields: Fields, rest: seq<Json>, show: Show)
    requires first.Obj? && Sanitize(first, show) == Ok(fields) && SanitizeBranches(rest, show).Ok?
    ensures SanitizeBranches([first] + rest, show) == Ok([fields] + SanitizeBranches(rest, show).value)
  {
    assert ([first] + rest)[1..] == rest;
  }

  lemma AlternativesOfOptional(show: Show)
    ensures SanitizeBranches([Obj([STRING_TYPE]), Obj([NULL_TYPE])], show) == Ok([[STRING_TYPE], [NULL_TYPE]])
  {
    LoneType(STRING_TYPE, show);
    LoneType(NULL_TYPE, show);
    SanitizedCons(Obj([NULL_TYPE]), [NULL_TYPE], [], show);
    SanitizedCons(Obj([STRING_TYPE]), [STRING_TYPE], [Obj([NULL_TYPE])], show);
    assert [Obj([NULL_TYPE])] + [] == [Obj([NULL_TYPE])] && [[NULL_TYPE]] + [] == [[NULL_TYPE]];
    assert [Obj([STRING_TYPE])] + [Obj([NULL_TYPE])] == [Obj([STRING_TYPE]), Obj([NULL_TYPE])];
    assert [[STRING_TYPE]] + [[NULL_TYPE]] == [[STRING_TYPE], [NULL_TYPE]];
  }

  lemma StringIsPreferred()
    ensures Preferred([[STRING_TYPE], [NULL_TYPE]]) == [STRING_TYPE]
  {
    var all := [[STRING_TYPE], [NULL_TYPE]];
    assert all[1..] == [[NULL_TYPE]];
    TypesOfOptional();
    NullsAreNotPreferred(all[1..]);
  }

  lemma NamesDiffer()
    ensures "title" != "anyOf" && "title" != "oneOf" && "title" != "allOf"
    ensures "anyOf" != "oneOf" && "anyOf" != "allOf" && "oneOf" != "allOf"
    ensures "title" != "type" && "anyOf" != "type" && "title" != "description"
  {
    assert "title"[0] == 't' && "anyOf"[0] == 'a' && "oneOf"[0] == 'o' && "allOf"[0] == 'a';
    assert "anyOf"[1] == 'n' && "allOf"[1] == 'l';
    assert |"title"| == |"anyOf"| == 5 && |"type"| == 4 && |"description"| == 11;
  }

  lemma GetOfTwo(f: Field, g: Field, key: string)
    ensures Get([f, g], key) == if f.key == key then Some(f.value) else if g.key == key then Some(g.value) else None
  {
    assert [f, g][1..] == [g] && [g][1..] == [];
  }

  lemma PlainOfOptional(show: Show)
    ensures Tighten([TITLE, STRING_OR_NULL]) == [TITLE, STRING_OR_NULL]
    ensures WithoutCombinators([TITLE, STRING_OR_NULL]) == [TITLE]
    ensures SanitizeFields([TITLE], show) == Ok([TITLE]) && !HasShape([TITLE])
  {
    NamesDiffer();
    var schema := [TITLE, STRING_OR_NULL];
    GetOfTwo(TITLE, STRING_OR_NULL, "type");
    assert schema[1..] == [STRING_OR_NULL] && [STRING_OR_NULL][1..] == [];
    assert WithoutCombinators([STRING_OR_NULL]) == [] && [TITLE] + [] == [TITLE];
    OneField(TITLE, show);
    assert TITLE.key[0] == 't' && |TITLE.key| == 5 && |"items"| == 5 && "items"[0] == 'i' && |"const"| == 5
           && "const"[0] == 'c';
  }

  lemma WholeOfOptional(show: Show)
    ensures Whole([TITLE, STRING_OR_NULL], show) == Ok([TITLE])
    ensures Branches([TITLE, STRING_OR_NULL], "anyOf") == [Obj([STRING_TYPE]), Obj([NULL_TYPE])]
    ensures Branches([TITLE, STRING_OR_NULL], "oneOf") == []
  {
    NamesDiffer();
    PlainOfOptional(show);
    GetOfTwo(TITLE, STRING_OR_NULL, "allOf");
    GetOfTwo(TITLE, STRING_OR_NULL, "anyOf");
    GetOfTwo(TITLE, STRING_OR_NULL, "oneOf");
  }

  lemma TitleWithType(show: Show)
    ensures Merge([TITLE], [STRING_TYPE], show) == Ok([TITLE, STRING_TYPE])
  {
    NamesDiffer();
    assert [STRING_TYPE][1..] == [] && [TITLE][1..] == [] && Get([TITLE], "type") == None;
    assert Put([TITLE], "type", STRING_TYPE.value) == [TITLE, STRING_TYPE];
    assert MergeField([TITLE], STRING_TYPE, show) == Ok([TITLE, STRING_TYPE]);
  }

  /** The usual schema of an optional string keeps the string type. */
  lemma OptionalStringStaysString(show: Show)
    ensures Sanitize(Obj([TITLE, STRING_OR_NULL]), show) == Ok([TITLE, STRING_TYPE])
  {
    var all := [[STRING_TYPE], [NULL_TYPE]];
    WholeOfOptional(show);
    AlternativesOfOptional(show);
    StringIsPreferred();
    assert all + [] == all && Alternatives([TITLE, STRING_OR_NULL], show) == Ok(all);
    PlainOfOptional(show);
    SanitizeOpens([TITLE, STRING_OR_NULL], show);
    TitleWithType(show);
  }
}
