/** Provider schemas: the recursive sanitizer and the merge it uses, on JSON trees. */
module SchemaSanitizer {
  import opened Sequences
  import MarkdownMemory

  datatype Json = Null | Bool(b: bool) | Num(n: real) | Str(s: string) | Arr(items: seq<Json>) | Obj(fields: seq<Field>)

  /** A dictionary is the list of its fields, in order. */
  datatype Field = Field(key: string, value: Json)

  type Fields = seq<Field>

  /** How the program prints a value that is not a string. */
  type Show = Json -> string

  datatype Outcome<+T> = Ok(value: T) | Error {
    predicate IsFailure() {
      Error?
    }

    function PropagateFailure<U>(): Outcome<U>
      requires Error?
    {
      Error
    }

    function Extract(): T
      requires Ok?
    {
      value
    }
  }

  // ---------------------------------------------------------------- trees and dictionaries

  function Size(j: Json): (n: nat)
    ensures n > 0
  {
    match j
    case Arr(items) => 1 + ItemsSize(items)
    case Obj(fields) => 1 + FieldsSize(fields)
    case _ => 1
  }

  function ItemsSize(items: seq<Json>): nat {
    if items == [] then 0 else Size(items[0]) + ItemsSize(items[1..])
  }

  function FieldsSize(fields: Fields): nat {
    if fields == [] then 0 else Size(fields[0].value) + FieldsSize(fields[1..])
  }

  function Get(fields: Fields, key: string): (v: Option<Json>)
    ensures v.Some? ==> Size(v.value) <= FieldsSize(fields)
  {
    if fields == [] then None else if fields[0].key == key then Some(fields[0].value) else Get(fields[1..], key)
  }

  function Put(fields: Fields, key: string, value: Json): Fields {
    if fields == [] then [Field(key, value)]
    else if fields[0].key == key then [Field(key, value)] + fields[1..]
    else [fields[0]] + Put(fields[1..], key, value)
  }

  predicate Truthy(j: Json) {
    match j
    case Null => false
    case Bool(b) => b
    case Num(n) => n != 0.0
    case Str(s) => s != ""
    case Arr(items) => items != []
    case Obj(fields) => fields != []
  }

  /** A dictionary where there should be one; nothing counts as an empty one. */
  function AsDict(v: Option<Json>): (d: Outcome<Fields>)
    ensures v.Some? && d.Ok? ==> FieldsSize(d.value) < Size(v.value)
  {
    if v.None? || !Truthy(v.value) then Ok([])
    else if v.value.Obj? then Ok(v.value.fields)
    else Error
  }

  // ---------------------------------------------------------------- lists of required names

  function ItemText(item: Json, show: Show): string {
    if !Truthy(item) then "" else MarkdownMemory.Strip(if item.Str? then item.s else show(item))
  }

  function ItemTexts(items: seq<Json>, show: Show): seq<string> {
    if items == [] then []
    else (var t := ItemText(items[0], show); if t == "" then [] else [t]) + ItemTexts(items[1..], show)
  }

  function Chars(s: string): seq<Json> {
    seq(|s|, i requires 0 <= i < |s| => Str([s[i]]))
  }

  function Keys(fields: Fields): seq<Json> {
    seq(|fields|, i requires 0 <= i < |fields| => Str(fields[i].key))
  }

  /** The names in a `required` value, stripped, without blanks. */
  function RequiredNames(v: Option<Json>, show: Show): Outcome<seq<string>> {
    if v.None? || !Truthy(v.value) then Ok([])
    else
      match v.value
      case Arr(items) => Ok(ItemTexts(items, show))
      case Obj(fields) => Ok(ItemTexts(Keys(fields), show))
      case Str(s) => Ok(ItemTexts(Chars(s), show))
      case _ => Error
  }

  function Union(base: seq<string>, more: seq<string>): seq<string>
    decreases |more|
  {
    if more == [] then base else Union(if more[0] in base then base else base + [more[0]], more[1..])
  }

  function NamesList(names: seq<string>): Json {
    Arr(seq(|names|, i requires 0 <= i < |names| => Str(names[i])))
  }

  // ---------------------------------------------------------------- merging

  predicate BlankType(v: Option<Json>) {
    v.None? || !Truthy(v.value) || (v.value.Str? && MarkdownMemory.Strip(v.value.s) == "")
  }

  function MergeRequired(merged: Fields, value: Json, show: Show): Outcome<Fields> {
    var base :- RequiredNames(Get(merged, "required"), show);
    var more :- RequiredNames(Some(value), show);
    var names := Union(base, more);
    Ok(if names == [] then merged else Put(merged, "required", NamesList(names)))
  }

  function MergeSub(merged: Fields, key: string, value: Json, show: Show): Outcome<Fields>
    decreases Size(value), 1
  {
    var was := Get(merged, key);
    if was.Some? && was.value.Obj? && value.Obj? then
      var sub :- Merge(was.value.fields, value.fields, show);
      Ok(Put(merged, key, Obj(sub)))
    else Ok(Put(merged, key, value))
  }

  function MergeField(merged: Fields, f: Field, show: Show): Outcome<Fields>
    decreases Size(f.value), 2
  {
    if f.key == "required" then MergeRequired(merged, f.value, show)
    else if f.key == "properties" then
      var existing :- AsDict(Get(merged, "properties"));
      var value :- AsDict(Some(f.value));
      var properties :- MergeProperties(existing, value, show);
      Ok(if properties == [] then merged else Put(merged, "properties", Obj(properties)))
    else if f.key == "items" || f.key == "additionalProperties" then MergeSub(merged, f.key, f.value, show)
    else if f.key == "type" then
      Ok(if BlankType(Get(merged, "type")) && f.value != Null && f.value != Str("")
         then Put(merged, "type", f.value) else merged)
    else Ok(if Get(merged, f.key).None? then Put(merged, f.key, f.value) else merged)
  }

  function MergeProperties(existing: Fields, value: Fields, show: Show): Outcome<Fields>
    decreases FieldsSize(value), 3 + |value|
  {
    if value == [] then Ok(existing)
    else
      var next :- MergeSub(existing, value[0].key, value[0].value, show);
      MergeProperties(next, value[1..], show)
  }

  /** The overlay's fields merged into the base, one by one. */
  function Merge(base: Fields, overlay: Fields, show: Show): Outcome<Fields>
    decreases FieldsSize(overlay), 3 + |overlay|
  {
    if overlay == [] then Ok(base)
    else
      var next :- MergeField(base, overlay[0], show);
      Merge(next, overlay[1..], show)
  }

  // ---------------------------------------------------------------- sanitizing

  const COMBINATORS: set<string> := {"anyOf", "oneOf", "allOf"}

  predicate HasOther(items: seq<Json>) {
    exists i :: 0 <= i < |items| && items[i] != Str("null") && items[i] != Str("object")
  }

  /** A field with declared properties whose type is a list that admits more than objects. */
  predicate Loose(fields: Fields) {
    var t, p := Get(fields, "type"), Get(fields, "properties");
    && t.Some? && t.value.Arr? && p.Some? && p.value.Obj? && p.value.fields != []
    && HasOther(t.value.items)
  }

  function Tighten(fields: Fields): Fields {
    if !Loose(fields) then fields
    else Put(fields, "type", if Str("null") in Get(fields, "type").value.items then Arr([Str("object"), Str("null")])
      else Str("object"))
  }

  function WithoutCombinators(fields: Fields): Fields {
    if fields == [] then []
    else (if fields[0].key in COMBINATORS then [] else [fields[0]]) + WithoutCombinators(fields[1..])
  }

  /** The branches of a combinator: a list, or nothing. */
  function Branches(fields: Fields, name: string): seq<Json> {
    var v := Get(fields, name);
    if v.Some? && v.value.Arr? then v.value.items else []
  }

  predicate HasShape(fields: Fields) {
    exists i :: 0 <= i < |fields|
      && fields[i].key in {"type", "properties", "items", "enum", "const", "additionalProperties"}
  }

  predicate TypeIs(fields: Fields, name: string) {
    var t := Get(fields, "type");
    t.Some? && t.value.Str? && Lower(MarkdownMemory.Strip(t.value.s)) == name
  }

  function Lower(s: string): string {
    seq(|s|, i requires 0 <= i < |s| => if 'A' <= s[i] <= 'Z' then (s[i] as int + 32) as char else s[i])
  }

  function Score(fields: Fields): nat {
    (if TypeIs(fields, "object") then 100 else 0) + (if Get(fields, "properties").Some? then 50 else 0)
    + (if Get(fields, "items").Some? then 40 else 0)
    + (if Get(fields, "enum").Some? || Get(fields, "const").Some? then 30 else 0)
    + (if Get(fields, "type").Some? then 20 else 0) + (if Get(fields, "additionalProperties").Some? then 10 else 0)
  }

  predicate Better(a: Fields, b: Fields) {
    Score(a) > Score(b) || (Score(a) == Score(b) && |a| > |b|)
  }

  /** The first of the best branches that are not the null type; empty if there is none. */
  function Preferred(branches: seq<Fields>): Fields {
    if branches == [] then []
    else
      var rest := Preferred(branches[1..]);
      if TypeIs(branches[0], "null") then rest
      else if NonNull(branches[1..]) && Better(rest, branches[0]) then rest
      else branches[0]
  }

  predicate NonNull(branches: seq<Fields>) {
    exists i :: 0 <= i < |branches| && !TypeIs(branches[i], "null")
  }

  lemma {:induction false} PutSize(fields: Fields, key: string, value: Json)
    requires Get(fields, key).Some? && Size(value) <= Size(Get(fields, key).value)
    ensures FieldsSize(Put(fields, key, value)) <= FieldsSize(fields)
  {
    if fields[0].key != key {
      PutSize(fields[1..], key, value);
      assert Put(fields, key, value)[1..] == Put(fields[1..], key, value);
    } else {
      assert Put(fields, key, value)[1..] == fields[1..];
    }
  }

  lemma {:induction false} ItemsSizeAtLeast(items: seq<Json>)
    ensures ItemsSize(items) >= |items|
  {
    if items != [] {
      ItemsSizeAtLeast(items[1..]);
    }
  }

  lemma TightenSize(fields: Fields)
    ensures FieldsSize(Tighten(fields)) <= FieldsSize(fields)
  {
    if Loose(fields) {
      var items := Get(fields, "type").value.items;
      ItemsSizeAtLeast(items);
      var i :| 0 <= i < |items| && items[i] != Str("null") && items[i] != Str("object");
      if Str("null") in items {
        var j :| 0 <= j < |items| && items[j] == Str("null");
        assert |items| >= 2;
        var a := [Str("object"), Str("null")];
        assert a[1..] == [Str("null")] && a[1..][1..] == [];
      }
      PutSize(fields, "type", if Str("null") in items then Arr([Str("object"), Str("null")]) else Str("object"));
    }
  }

  lemma {:induction false} WithoutCombinatorsSize(fields: Fields)
    ensures FieldsSize(WithoutCombinators(fields)) <= FieldsSize(fields)
  {
    if fields != [] {
      WithoutCombinatorsSize(fields[1..]);
      if fields[0].key !in COMBINATORS {
        assert WithoutCombinators(fields)[1..] == WithoutCombinators(fields[1..]);
      } else {
        assert WithoutCombinators(fields) == WithoutCombinators(fields[1..]);
      }
    }
  }

  lemma ConcatSize(a: seq<Json>, b: seq<Json>)
    ensures ItemsSize(a + b) == ItemsSize(a) + ItemsSize(b)
  {
    if a == [] {
      assert a + b == b;
    } else {
      assert (a + b)[1..] == a[1..] + b;
      ConcatSize(a[1..], b);
    }
  }

  function Sanitize(j: Json, show: Show): Outcome<Fields>
    decreases Size(j), 0
  {
    if !j.Obj? then Ok([])
    else
      TightenSize(j.fields);
      WithoutCombinatorsSize(Tighten(j.fields));
      var payload := Tighten(j.fields);
      var plain :- SanitizeFields(WithoutCombinators(payload), show);
      WithBranches(plain, payload, show)
  }

  /** All the branches of allOf merged in; if that leaves no shape, the preferred other branch too. */
  function WithBranches(plain: Fields, payload: Fields, show: Show): Outcome<Fields>
    decreases FieldsSize(payload), 3
  {
    var whole :- MergeBranches(plain, Branches(payload, "allOf"), show);
    if HasShape(whole) then Ok(whole)
    else
      var any :- SanitizeBranches(Branches(payload, "anyOf"), show);
      var one :- SanitizeBranches(Branches(payload, "oneOf"), show);
      var best := Preferred(any + one);
      if best == [] then Ok(whole) else Merge(whole, best, show)
  }

  function SanitizeValue(v: Json, show: Show): Outcome<Json>
    decreases Size(v), 1
  {
    match v
    case Obj(_) =>
      var fields :- Sanitize(v, show);
      Ok(Obj(fields))
    case Arr(items) =>
      var clean :- SanitizeItems(items, show);
      Ok(Arr(clean))
    case _ => Ok(v)
  }

  function SanitizeItems(items: seq<Json>, show: Show): Outcome<seq<Json>>
    decreases ItemsSize(items), 2
  {
    if items == [] then Ok([])
    else
      var first :- if items[0].Obj? then SanitizeValue(items[0], show) else Ok(items[0]);
      var rest :- SanitizeItems(items[1..], show);
      Ok([first] + rest)
  }

  function SanitizeFields(fields: Fields, show: Show): Outcome<Fields>
    decreases FieldsSize(fields), 2
  {
    if fields == [] then Ok([])
    else if fields[0].key == "description" then SanitizeFields(fields[1..], show)
    else
      var value :- SanitizeValue(fields[0].value, show);
      var rest :- SanitizeFields(fields[1..], show);
      Ok([Field(fields[0].key, value)] + rest)
  }

  function SanitizeBranches(branches: seq<Json>, show: Show): Outcome<seq<Fields>>
    decreases ItemsSize(branches), 2
  {
    if branches == [] then Ok([])
    else if !branches[0].Obj? then SanitizeBranches(branches[1..], show)
    else
      var first :- Sanitize(branches[0], show);
      var rest :- SanitizeBranches(branches[1..], show);
      Ok([first] + rest)
  }

  function MergeBranches(base: Fields, branches: seq<Json>, show: Show): Outcome<Fields>
    decreases ItemsSize(branches), 2
  {
    if branches == [] then Ok(base)
    else if !branches[0].Obj? then MergeBranches(base, branches[1..], show)
    else
      var branch :- Sanitize(branches[0], show);
      var merged :- Merge(base, branch, show);
      MergeBranches(merged, branches[1..], show)
  }

  // ---------------------------------------------------------------- what is gone afterwards

  /** No object reached through object values and objects in lists has a combinator or a
      description. */
  predicate Clean(fields: Fields)
    decreases FieldsSize(fields), 1
  {
    fields == [] || (fields[0].key !in COMBINATORS && fields[0].key != "description" && CleanValue(fields[0].value)
      && Clean(fields[1..]))
  }

  predicate CleanValue(v: Json)
    decreases Size(v), 0
  {
    match v
    case Obj(fields) => Clean(fields)
    case Arr(items) => CleanItems(items)
    case _ => true
  }

  predicate CleanItems(items: seq<Json>)
    decreases ItemsSize(items), 1
  {
    items == [] || ((items[0].Obj? ==> CleanValue(items[0])) && CleanItems(items[1..]))
  }

  lemma {:induction false} CleanGet(fields: Fields, key: string)
    requires Clean(fields)
    ensures Get(fields, key).Some? ==> CleanValue(Get(fields, key).value)
  {
    if fields != [] && fields[0].key != key {
      CleanGet(fields[1..], key);
    }
  }

  lemma {:induction false} CleanPut(fields: Fields, key: string, value: Json)
    requires Clean(fields) && CleanValue(value) && key !in COMBINATORS && key != "description"
    ensures Clean(Put(fields, key, value))
  {
    if fields == [] {
      assert Put(fields, key, value)[1..] == [];
    } else if fields[0].key == key {
      assert Put(fields, key, value)[1..] == fields[1..];
    } else {
      CleanPut(fields[1..], key, value);
      assert Put(fields, key, value)[1..] == Put(fields[1..], key, value);
    }
  }

  lemma {:induction false} NamesAreClean(items: seq<Json>)
    requires forall i :: 0 <= i < |items| ==> items[i].Str?
    ensures CleanItems(items)
  {
    if items != [] {
      NamesAreClean(items[1..]);
    }
  }

  lemma {:induction false} MergeFieldKeepsClean(merged: Fields, f: Field, show: Show)
    requires Clean(merged) && Clean([f])
    ensures MergeField(merged, f, show).Ok? ==> Clean(MergeField(merged, f, show).value)
    decreases Size(f.value), 2
  {
    CleanGet(merged, f.key);
    if f.key == "required" {
      if MergeRequired(merged, f.value, show).Ok? {
        var names := Union(RequiredNames(Get(merged, "required"), show).value,
          RequiredNames(Some(f.value), show).value);
        NamesAreClean(NamesList(names).items);
        CleanPut(merged, "required", NamesList(names));
      }
    } else if f.key == "properties" {
      var existing, value := AsDict(Get(merged, "properties")), AsDict(Some(f.value));
      if existing.Ok? && value.Ok? {
        MergePropertiesKeepsClean(existing.value, value.value, show);
        var properties := MergeProperties(existing.value, value.value, show);
        if properties.Ok? {
          CleanPut(merged, "properties", Obj(properties.value));
        }
      }
    } else if f.key == "items" || f.key == "additionalProperties" {
      MergeSubKeepsClean(merged, f.key, f.value, show);
    } else {
      CleanPut(merged, f.key, f.value);
    }
  }

  lemma {:induction false} MergeSubKeepsClean(merged: Fields, key: string, value: Json, show: Show)
    requires Clean(merged) && CleanValue(value) && key !in COMBINATORS && key != "description"
    ensures MergeSub(merged, key, value, show).Ok? ==> Clean(MergeSub(merged, key, value, show).value)
    decreases Size(value), 1
  {
    CleanGet(merged, key);
    var was := Get(merged, key);
    if was.Some? && was.value.Obj? && value.Obj? {
      MergeKeepsClean(was.value.fields, value.fields, show);
      var sub := Merge(was.value.fields, value.fields, show);
      if sub.Ok? {
        CleanPut(merged, key, Obj(sub.value));
      }
    } else {
      CleanPut(merged, key, value);
    }
  }

  lemma {:induction false} MergePropertiesKeepsClean(existing: Fields, value: Fields, show: Show)
    requires Clean(existing) && Clean(value)
    ensures MergeProperties(existing, value, show).Ok? ==> Clean(MergeProperties(existing, value, show).value)
    decreases FieldsSize(value), 3 + |value|
  {
    if value != [] {
      MergeSubKeepsClean(existing, value[0].key, value[0].value, show);
      var next := MergeSub(existing, value[0].key, value[0].value, show);
      if next.Ok? {
        MergePropertiesKeepsClean(next.value, value[1..], show);
      }
    }
  }

  /** A merge of clean schemas is clean. */
  lemma {:induction false} MergeKeepsClean(base: Fields, overlay: Fields, show: Show)
    requires Clean(base) && Clean(overlay)
    ensures Merge(base, overlay, show).Ok? ==> Clean(Merge(base, overlay, show).value)
    decreases FieldsSize(overlay), 3 + |overlay|
  {
    if overlay != [] {
      assert [overlay[0]][1..] == [];
      MergeFieldKeepsClean(base, overlay[0], show);
      var next := MergeField(base, overlay[0], show);
      if next.Ok? {
        MergeKeepsClean(next.value, overlay[1..], show);
      }
    }
  }

  lemma {:induction false} PreferredIsAmong(branches: seq<Fields>)
    requires forall i :: 0 <= i < |branches| ==> Clean(branches[i])
    ensures Clean(Preferred(branches))
  {
    if branches != [] {
      assert forall i :: 0 <= i < |branches[1..]| ==> branches[1..][i] == branches[i + 1];
      PreferredIsAmong(branches[1..]);
    }
  }

  lemma {:induction false} NoCombinators(fields: Fields)
    ensures forall i :: 0 <= i < |WithoutCombinators(fields)| ==> WithoutCombinators(fields)[i].key !in COMBINATORS
  {
    if fields != [] {
      NoCombinators(fields[1..]);
    }
  }

  lemma {:induction false} BranchesAreClean(branches: seq<Json>, show: Show)
    ensures SanitizeBranches(branches, show).Ok? ==> forall b :: b in SanitizeBranches(branches, show).value ==>
            Clean(b)
    decreases ItemsSize(branches), 2
  {
    if branches != [] {
      BranchesAreClean(branches[1..], show);
      if branches[0].Obj? {
        SanitizedIsClean(branches[0], show);
      }
    }
  }

  lemma {:induction false} MergedBranchesAreClean(base: Fields, branches: seq<Json>, show: Show)
    requires Clean(base)
    ensures MergeBranches(base, branches, show).Ok? ==> Clean(MergeBranches(base, branches, show).value)
    decreases ItemsSize(branches), 2
  {
    if branches != [] {
      if branches[0].Obj? {
        SanitizedIsClean(branches[0], show);
        var branch := Sanitize(branches[0], show);
        if branch.Ok? {
          MergeKeepsClean(base, branch.value, show);
          var merged := Merge(base, branch.value, show);
          if merged.Ok? {
            MergedBranchesAreClean(merged.value, branches[1..], show);
          }
        }
      } else {
        MergedBranchesAreClean(base, branches[1..], show);
      }
    }
  }

  lemma {:induction false} SanitizedItemsAreClean(items: seq<Json>, show: Show)
    ensures SanitizeItems(items, show).Ok? ==> CleanItems(SanitizeItems(items, show).value)
    decreases ItemsSize(items), 2
  {
    if items != [] {
      SanitizedItemsAreClean(items[1..], show);
      if items[0].Obj? {
        SanitizedIsClean(items[0], show);
      }
    }
  }

  lemma {:induction false} SanitizedFieldsAreClean(fields: Fields, show: Show)
    requires forall i :: 0 <= i < |fields| ==> fields[i].key !in COMBINATORS
    ensures SanitizeFields(fields, show).Ok? ==> Clean(SanitizeFields(fields, show).value)
    decreases FieldsSize(fields), 2
  {
    if fields != [] {
      SanitizedFieldsAreClean(fields[1..], show);
      if fields[0].key != "description" && SanitizeFields(fields, show).Ok? {
        SanitizedValueIsClean(fields[0].value, show);
        var r := SanitizeFields(fields, show).value;
        assert r[1..] == SanitizeFields(fields[1..], show).value;
      }
    }
  }

  lemma {:induction false} SanitizedValueIsClean(v: Json, show: Show)
    ensures SanitizeValue(v, show).Ok? ==> CleanValue(SanitizeValue(v, show).value)
    decreases Size(v), 1
  {
    match v
    case Obj(_) => SanitizedIsClean(v, show);
    case Arr(items) => SanitizedItemsAreClean(items, show);
    case _ =>
  }

  /** Whatever the tree, the sanitized schema has no combinator and no description in any object
      reached through object values and objects in lists, also after the merges. */
  lemma {:induction false} SanitizedIsClean(j: Json, show: Show)
    ensures Sanitize(j, show).Ok? ==> Clean(Sanitize(j, show).value)
    decreases Size(j), 0
  {
    if j.Obj? {
      var payload := Tighten(j.fields);
      TightenSize(j.fields);
      WithoutCombinatorsSize(payload);
      NoCombinators(payload);
      SanitizedFieldsAreClean(WithoutCombinators(payload), show);
      var plain := SanitizeFields(WithoutCombinators(payload), show);
      if plain.Ok? {
        WithBranchesIsClean(plain.value, payload, show);
      }
    }
  }

  lemma {:induction false} WithBranchesIsClean(plain: Fields, payload: Fields, show: Show)
    requires Clean(plain)
    ensures WithBranches(plain, payload, show).Ok? ==> Clean(WithBranches(plain, payload, show).value)
    decreases FieldsSize(payload), 3
  {
    MergedBranchesAreClean(plain, Branches(payload, "allOf"), show);
    BranchesAreClean(Branches(payload, "anyOf"), show);
    BranchesAreClean(Branches(payload, "oneOf"), show);
    var whole := MergeBranches(plain, Branches(payload, "allOf"), show);
    var any, one := SanitizeBranches(Branches(payload, "anyOf"), show),
      SanitizeBranches(Branches(payload, "oneOf"), show);
    if whole.Ok? && any.Ok? && one.Ok? {
      PreferredMergesClean(whole.value, any.value, one.value, show);
    }
  }

  lemma PreferredMergesClean(whole: Fields, any: seq<Fields>, one: seq<Fields>, show: Show)
    requires Clean(whole) && (forall b :: b in any ==> Clean(b)) && (forall b :: b in one ==> Clean(b))
    ensures Merge(whole, Preferred(any + one), show).Ok? ==> Clean(Merge(whole, Preferred(any + one), show).value)
  {
    var all := any + one;
    assert forall i :: 0 <= i < |all| ==> all[i] in all;
    PreferredIsAmong(all);
    MergeKeepsClean(whole, Preferred(all), show);
  }

  // ---------------------------------------------------------------- required lists

  /** Merging two `required` lists gives their names in order: the base's as they were, then the
      overlay's new ones, each once; no name twice if the base had none twice. */
  lemma {:induction false} UnionIsOrdered(base: seq<string>, more: seq<string>)
    ensures var u := Union(base, more);
            && |base| <= |u| && u[..|base|] == base
            && (forall n :: n in u <==> n in base || n in more)
            && (forall i :: |base| <= i < |u| ==> u[i] !in base)
            && (forall i, j :: |base| <= i < j < |u| ==> u[i] != u[j])
            && (Distinct(base) ==> Distinct(u))
    decreases |more|
  {
    if more != [] {
      assert more == [more[0]] + more[1..];
      var base' := if more[0] in base then base else base + [more[0]];
      UnionIsOrdered(base', more[1..]);
      var u := Union(base, more);
      assert u[..|base|] == u[..|base'|][..|base|] == base;
      if more[0] !in base {
        assert u[|base|] == u[..|base'|][|base|] == more[0];
        forall i | |base| <= i < |u|
          ensures u[i] !in base && (i > |base| ==> u[i] != more[0])
        {
          if i > |base| {
            assert u[i] !in base' && more[0] in base';
          }
        }
      }
    }
  }

  /** The order of the new names is that of the overlay. */
  lemma {:induction false} UnionKeepsOrder(base: seq<string>, more: seq<string>, i: nat, j: nat)
    requires |base| <= i < j < |Union(base, more)|
    ensures exists k, l :: 0 <= k < l < |more| && more[k] == Union(base, more)[i] && more[l] == Union(base, more)[j]
    decreases |more|
  {
    var rest := more[1..];
    var base' := if more[0] in base then base else base + [more[0]];
    UnionIsOrdered(base', rest);
    var u := Union(base, more);
    if i < |base'| {
      assert u[i] == u[..|base'|][i] == more[0];
      UnionFindsLater(base', rest, j);
      var l :| 0 <= l < |rest| && rest[l] == u[j];
      assert more[0] == u[i] && more[l + 1] == u[j];
    } else {
      UnionKeepsOrder(base', rest, i, j);
      var k, l :| 0 <= k < l < |rest| && rest[k] == u[i] && rest[l] == u[j];
      assert more[k + 1] == u[i] && more[l + 1] == u[j];
    }
  }

  lemma UnionFindsLater(base: seq<string>, more: seq<string>, j: nat)
    requires |base| <= j < |Union(base, more)|
    ensures exists l :: 0 <= l < |more| && more[l] == Union(base, more)[j]
  {
    UnionIsOrdered(base, more);
    var n := Union(base, more)[j];
    assert n !in base && n in Union(base, more);
  }

  lemma {:induction false} GetPut(fields: Fields, key: string, value: Json, other: string)
    ensures Get(Put(fields, key, value), other) == if other == key then Some(value) else Get(fields, other)
  {
    if fields != [] {
      if fields[0].key == key {
        assert Put(fields, key, value)[1..] == fields[1..];
      } else {
        GetPut(fields[1..], key, value, other);
        assert Put(fields, key, value)[1..] == Put(fields[1..], key, value);
      }
    }
  }

  /** What a merge does to `required`: the union of the two lists, and no other field changes. */
  lemma MergedRequired(merged: Fields, value: Json, show: Show, other: string)
    requires RequiredNames(Get(merged, "required"), show).Ok? && RequiredNames(Some(value), show).Ok?
    ensures var names := Union(RequiredNames(Get(merged, "required"), show).value,
            RequiredNames(Some(value), show).value);
            var r := MergeRequired(merged, value, show);
            && r.Ok?
            && (names != [] ==> Get(r.value, "required") == Some(NamesList(names)))
            && (other != "required" || names == [] ==> Get(r.value, other) == Get(merged, other))
  {
    var names := Union(RequiredNames(Get(merged, "required"), show).value, RequiredNames(Some(value), show).value);
    GetPut(merged, "required", NamesList(names), other);
    GetPut(merged, "required", NamesList(names), "required");
  }

  // ---------------------------------------------------------------- what a merge and a choice decide

  /** The fields a merge goes into instead of deciding between two values. */
  const DEEP: set<string> := {"required", "properties", "items", "additionalProperties"}

  lemma MergeFieldElsewhere(merged: Fields, f: Field, show: Show, key: string)
    requires key != f.key && MergeField(merged, f, show).Ok?
    ensures Get(MergeField(merged, f, show).value, key) == Get(merged, key)
  {
    var after := MergeField(merged, f, show).value;
    assert after == merged || exists v :: after == Put(merged, f.key, v);
    if after != merged {
      var v :| after == Put(merged, f.key, v);
      GetPut(merged, f.key, v, key);
    }
  }

  /** The base decides: a field it has keeps its value, a type only if it is not blank. */
  lemma {:induction false} MergeKeepsBase(base: Fields, overlay: Fields, show: Show, key: string)
    requires Merge(base, overlay, show).Ok? && key !in DEEP && Get(base, key).Some?
    requires key == "type" ==> !BlankType(Get(base, "type"))
    ensures Get(Merge(base, overlay, show).value, key) == Get(base, key)
    decreases |overlay|
  {
    if overlay != [] {
      var next := MergeField(base, overlay[0], show).value;
      if overlay[0].key != key {
        MergeFieldElsewhere(base, overlay[0], show, key);
      }
      MergeKeepsBase(next, overlay[1..], show, key);
    }
  }

  /** The overlay fills in what the base does not have. */
  lemma {:induction false} MergeFillsIn(base: Fields, overlay: Fields, show: Show, key: string)
    requires Merge(base, overlay, show).Ok? && key !in DEEP && key != "type" && Get(base, key).None?
    ensures Get(Merge(base, overlay, show).value, key) == Get(overlay, key)
    decreases |overlay|
  {
    if overlay != [] {
      var next := MergeField(base, overlay[0], show).value;
      if overlay[0].key == key {
        GetPut(base, key, overlay[0].value, key);
        MergeKeepsBase(next, overlay[1..], show, key);
      } else {
        MergeFieldElsewhere(base, overlay[0], show, key);
        MergeFillsIn(next, overlay[1..], show, key);
      }
    }
  }

  /** A non-null branch, none better, and those before it worse. */
  predicate IsBest(branches: seq<Fields>, k: nat) {
    && k < |branches| && !TypeIs(branches[k], "null")
    && (forall i :: 0 <= i < |branches| && !TypeIs(branches[i], "null") ==> !Better(branches[i], branches[k]))
    && (forall i :: 0 <= i < k && !TypeIs(branches[i], "null") ==> Better(branches[k], branches[i]))
  }

  lemma BestOfTail(branches: seq<Fields>, k: nat)
    requires branches != [] && IsBest(branches[1..], k)
    requires TypeIs(branches[0], "null") || Better(branches[1..][k], branches[0])
    ensures IsBest(branches, k + 1)
  {
    var rest := branches[1..];
    assert branches[k + 1] == rest[k];
    forall i | 1 <= i < |branches| && !TypeIs(branches[i], "null")
      ensures !Better(branches[i], rest[k]) && (i < k + 1 ==> Better(rest[k], branches[i]))
    {
      assert rest[i - 1] == branches[i];
    }
  }

  lemma HeadIsBest(branches: seq<Fields>, k: nat)
    requires branches != [] && !TypeIs(branches[0], "null")
    requires IsBest(branches[1..], k) && !Better(branches[1..][k], branches[0])
    ensures IsBest(branches, 0)
  {
    var rest := branches[1..];
    forall i | 0 <= i < |branches| && !TypeIs(branches[i], "null")
      ensures !Better(branches[i], branches[0])
    {
      if i > 0 {
        assert rest[i - 1] == branches[i];
        assert !Better(rest[i - 1], rest[k]);
      }
    }
  }

  lemma OnlyHead(branches: seq<Fields>)
    requires branches != [] && !TypeIs(branches[0], "null") && !NonNull(branches[1..])
    ensures IsBest(branches, 0)
  {
    assert forall i :: 0 <= i < |branches[1..]| ==> branches[1..][i] == branches[i + 1];
    forall i | 1 <= i < |branches|
      ensures TypeIs(branches[i], "null")
    {
      assert TypeIs(branches[1..][i - 1], "null");
    }
  }

  lemma PreferredSteps(branches: seq<Fields>)
    requires branches != []
    ensures var rest := Preferred(branches[1..]);
            Preferred(branches)
            == if TypeIs(branches[0], "null") || (NonNull(branches[1..]) && Better(rest, branches[0])) then rest
               else branches[0]
  {
  }

  /** The preferred branch is the first of the best. */
  lemma {:induction false} PreferredIsBest(branches: seq<Fields>)
    requires NonNull(branches)
    ensures exists k: nat :: IsBest(branches, k) && branches[k] == Preferred(branches)
  {
    var rest := branches[1..];
    PreferredSteps(branches);
    if NonNull(rest) {
      PreferredIsBest(rest);
      var k: nat :| IsBest(rest, k) && rest[k] == Preferred(rest);
      if TypeIs(branches[0], "null") || Better(rest[k], branches[0]) {
        BestOfTail(branches, k);
        assert IsBest(branches, k + 1) && branches[k + 1] == Preferred(branches);
      } else {
        HeadIsBest(branches, k);
        assert IsBest(branches, 0) && branches[0] == Preferred(branches);
      }
    } else {
      assert !TypeIs(branches[0], "null") by {
        assert forall i :: 1 <= i < |branches| ==> branches[i] == rest[i - 1];
      }
      OnlyHead(branches);
      assert IsBest(branches, 0) && branches[0] == Preferred(branches);
    }
  }

  // ---------------------------------------------------------------- clean schemas

  /** Nothing to tighten in any object reached. */
  predicate Tight(fields: Fields)
    decreases FieldsSize(fields), 2
  {
    !Loose(fields) && TightBelow(fields)
  }

  predicate TightBelow(fields: Fields)
    decreases FieldsSize(fields), 1
  {
    fields == [] || (TightValue(fields[0].value) && TightBelow(fields[1..]))
  }

  predicate TightValue(v: Json)
    decreases Size(v), 0
  {
    match v
    case Obj(fields) => Tight(fields)
    case Arr(items) => TightItems(items)
    case _ => true
  }

  predicate TightItems(items: seq<Json>)
    decreases ItemsSize(items), 1
  {
    items == [] || ((items[0].Obj? ==> TightValue(items[0])) && TightItems(items[1..]))
  }

  lemma {:induction false} NoBranches(fields: Fields)
    requires forall i :: 0 <= i < |fields| ==> fields[i].key !in COMBINATORS
    ensures WithoutCombinators(fields) == fields
    ensures forall name :: name in COMBINATORS ==> Get(fields, name).None?
  {
    if fields != [] {
      NoBranches(fields[1..]);
    }
  }

  lemma {:induction false} CleanHasNoBranches(fields: Fields)
    requires Clean(fields)
    ensures WithoutCombinators(fields) == fields
    ensures forall name :: name in COMBINATORS ==> Get(fields, name).None?
  {
    if fields != [] {
      CleanHasNoBranches(fields[1..]);
    }
  }

  lemma {:induction false} CleanItemsStay(items: seq<Json>, show: Show)
    requires CleanItems(items)
    ensures SanitizeItems(items, show).Ok? && (SanitizeItems(items, show).value == items <==> TightItems(items))
    decreases ItemsSize(items), 2
  {
    if items != [] {
      CleanItemsStay(items[1..], show);
      if items[0].Obj? {
        CleanValueStays(items[0], show);
      }
      var r := SanitizeItems(items, show).value;
      assert r[1..] == SanitizeItems(items[1..], show).value && items == [items[0]] + items[1..];
    }
  }

  lemma {:induction false} CleanValueStays(v: Json, show: Show)
    requires CleanValue(v)
    ensures SanitizeValue(v, show).Ok? && (SanitizeValue(v, show).value == v <==> TightValue(v))
    decreases Size(v), 1
  {
    match v
    case Obj(fields) => CleanSchemaStays(fields, show);
    case Arr(items) => CleanItemsStay(items, show);
    case _ =>
  }

  lemma {:induction false} CleanFieldsStay(fields: Fields, show: Show)
    requires Clean(fields)
    ensures SanitizeFields(fields, show).Ok? && (SanitizeFields(fields, show).value == fields <==> TightBelow(fields))
    decreases FieldsSize(fields), 2
  {
    if fields != [] {
      CleanFieldsStay(fields[1..], show);
      CleanValueStays(fields[0].value, show);
      var r := SanitizeFields(fields, show).value;
      assert r[1..] == SanitizeFields(fields[1..], show).value && fields == [fields[0]] + fields[1..];
    }
  }

  lemma {:induction false} SanitizedGet(fields: Fields, key: string, show: Show)
    requires SanitizeFields(fields, show).Ok? && key != "description" && Get(fields, key).Some?
    ensures SanitizeValue(Get(fields, key).value, show).Ok?
    ensures Get(SanitizeFields(fields, show).value, key) == Some(SanitizeValue(Get(fields, key).value, show).value)
  {
    if fields[0].key == "description" {
      SanitizedGet(fields[1..], key, show);
    } else if fields[0].key != key {
      SanitizedGet(fields[1..], key, show);
      assert SanitizeFields(fields, show).value[1..] == SanitizeFields(fields[1..], show).value;
    }
  }

  /** Without combinators a schema is sanitized field by field. */
  lemma PlainSanitize(fields: Fields, show: Show)
    requires var payload := Tighten(fields);
             && WithoutCombinators(payload) == payload
                  && (forall name :: name in COMBINATORS ==> Get(payload, name).None?)
             && SanitizeFields(payload, show).Ok?
    ensures Sanitize(Obj(fields), show) == SanitizeFields(Tighten(fields), show)
  {
    var payload := Tighten(fields);
    var plain := SanitizeFields(payload, show);
    assert "allOf" in COMBINATORS && "anyOf" in COMBINATORS && "oneOf" in COMBINATORS;
    assert Branches(payload, "allOf") == [] && Branches(payload, "anyOf") == [] && Branches(payload, "oneOf") == [];
    var none: seq<Fields> := [];
    assert none + none == none && Preferred(none) == [];
    assert WithBranches(plain.value, payload, show) == plain;
  }

  lemma {:induction false} NamesStay(items: seq<Json>, show: Show)
    requires forall i :: 0 <= i < |items| ==> items[i].Str?
    ensures SanitizeItems(items, show) == Ok(items)
  {
    if items != [] {
      NamesStay(items[1..], show);
      assert items == [items[0]] + items[1..];
    }
  }

  /** What tightening puts in the place of a loose type is a different type, and stays. */
  lemma TightenedTypeStays(fields: Fields, show: Show)
    requires Loose(fields)
    ensures var t := Get(Tighten(fields), "type");
            && t.Some? && Tighten(fields) == Put(fields, "type", t.value)
            && t != Get(fields, "type") && CleanValue(t.value) && SanitizeValue(t.value, show) == Ok(t.value)
  {
    var both := [Str("object"), Str("null")];
    var t := if Str("null") in Get(fields, "type").value.items then Arr(both) else Str("object");
    GetPut(fields, "type", t, "type");
    NamesAreClean(both);
    NamesStay(both, show);
    assert !HasOther(both);
  }

  /** A clean schema is always accepted, and comes back as it is exactly when no object in it has a
      loose type. So sanitizing twice is sanitizing once exactly for the results that are tight. */
  lemma {:induction false} CleanSchemaStays(fields: Fields, show: Show)
    requires Clean(fields)
    ensures Sanitize(Obj(fields), show).Ok? && (Sanitize(Obj(fields), show).value == fields <==> Tight(fields))
    decreases Size(Obj(fields)), 0
  {
    var payload := Tighten(fields);
    TightenSize(fields);
    if Loose(fields) {
      TightenedTypeStays(fields, show);
      CleanPut(fields, "type", Get(payload, "type").value);
    }
    CleanHasNoBranches(payload);
    CleanFieldsStay(payload, show);
    PlainSanitize(fields, show);
    if Loose(fields) {
      SanitizedGet(payload, "type", show);
    }
  }

  lemma SanitizingTwice(j: Json, show: Show)
    requires Sanitize(j, show).Ok?
    ensures Sanitize(Obj(Sanitize(j, show).value), show) == Sanitize(j, show) <==> Tight(Sanitize(j, show).value)
  {
    SanitizedIsClean(j, show);
    CleanSchemaStays(Sanitize(j, show).value, show);
  }
}
