/** Which declared properties a sanitized schema still has. The sanitizer treats the table of properties
    like a schema, so it also drops properties that have the name of a field it drops. */
module SchemaProperties {
  import opened Sequences
  import opened SchemaSanitizer

  /** The names the sanitizer never keeps, whatever they stand for. */
  const LOST: set<string> := COMBINATORS + {"description"}

  predicate Has(fields: Fields, key: string) {
    Get(fields, key).Some?
  }

  // ---------------------------------------------------------------- one step at a time

  lemma {:induction false} WithoutCombinatorsGet(fields: Fields, key: string)
    ensures Get(WithoutCombinators(fields), key) == if key in COMBINATORS then None else Get(fields, key)
  {
    if fields != [] {
      WithoutCombinatorsGet(fields[1..], key);
      var rest := WithoutCombinators(fields[1..]);
      assert ([fields[0]] + rest)[1..] == rest && [] + rest == rest;
    }
  }

  lemma {:induction false} SanitizedHas(fields: Fields, show: Show, key: string)
    requires SanitizeFields(fields, show).Ok?
    ensures Has(SanitizeFields(fields, show).value, key) <==> key != "description" && Has(fields, key)
  {
    if fields != [] {
      SanitizedHas(fields[1..], show, key);
      if fields[0].key != "description" {
        assert SanitizeFields(fields, show).value[1..] == SanitizeFields(fields[1..], show).value;
      }
    }
  }

  lemma TightenedHas(fields: Fields, key: string)
    ensures Has(Tighten(fields), key) <==> Has(fields, key)
    ensures key != "type" ==> Get(Tighten(fields), key) == Get(fields, key)
  {
    if Loose(fields) {
      var t := if Str("null") in Get(fields, "type").value.items then Arr([Str("object"), Str("null")])
        else Str("object");
      GetPut(fields, "type", t, key);
    }
  }

  lemma MergeFieldHas(base: Fields, f: Field, show: Show, key: string)
    requires MergeField(base, f, show).Ok?
    ensures Has(base, key) ==> Has(MergeField(base, f, show).value, key)
    ensures Has(MergeField(base, f, show).value, key) ==> Has(base, key) || f.key == key
  {
    var after := MergeField(base, f, show).value;
    assert after == base || exists v :: after == Put(base, f.key, v);
    if after != base {
      var v :| after == Put(base, f.key, v);
      GetPut(base, f.key, v, key);
    }
  }

  /** A merge takes no name away, and adds only names of the overlay. */
  lemma {:induction false} MergeHas(base: Fields, overlay: Fields, show: Show, key: string)
    requires Merge(base, overlay, show).Ok?
    ensures Has(base, key) ==> Has(Merge(base, overlay, show).value, key)
    ensures Has(Merge(base, overlay, show).value, key) ==> Has(base, key) || Has(overlay, key)
    decreases |overlay|
  {
    if overlay != [] {
      MergeFieldHas(base, overlay[0], show, key);
      MergeHas(MergeField(base, overlay[0], show).value, overlay[1..], show, key);
    }
  }

  /** Some object among the branches of a combinator has this name after sanitizing. */
  ghost predicate Brings(branches: seq<Json>, show: Show, key: string) {
    exists b :: b in branches && b.Obj? && Sanitize(b, show).Ok? && Has(Sanitize(b, show).value, key)
  }

  lemma {:induction false} MergeBranchesHas(base: Fields, branches: seq<Json>, show: Show, key: string)
    requires MergeBranches(base, branches, show).Ok?
    ensures Has(base, key) ==> Has(MergeBranches(base, branches, show).value, key)
    ensures Has(MergeBranches(base, branches, show).value, key) ==> Has(base, key) || Brings(branches, show, key)
    decreases |branches|
  {
    if branches != [] {
      var next := base;
      if branches[0].Obj? {
        MergeHas(base, Sanitize(branches[0], show).value, show, key);
        next := Merge(base, Sanitize(branches[0], show).value, show).value;
      }
      MergeBranchesHas(next, branches[1..], show, key);
      assert branches == [branches[0]] + branches[1..];
    }
  }

  lemma {:induction false} PreferredIsOne(branches: seq<Fields>)
    ensures Preferred(branches) == [] || Preferred(branches) in branches
  {
    if branches != [] {
      PreferredIsOne(branches[1..]);
    }
  }

  lemma {:induction false} SanitizedBranches(branches: seq<Json>, show: Show, key: string)
    requires SanitizeBranches(branches, show).Ok?
    ensures (exists b :: b in SanitizeBranches(branches, show).value && Has(b, key)) ==> Brings(branches, show, key)
  {
    if branches != [] {
      SanitizedBranches(branches[1..], show, key);
      assert branches == [branches[0]] + branches[1..];
    }
  }

  lemma WithBranchesHas(plain: Fields, payload: Fields, show: Show, key: string)
    requires WithBranches(plain, payload, show).Ok?
    ensures Has(plain, key) ==> Has(WithBranches(plain, payload, show).value, key)
    ensures Has(WithBranches(plain, payload, show).value, key) ==>
              Has(plain, key) || exists name :: name in COMBINATORS && Brings(Branches(payload, name), show, key)
  {
    MergeBranchesHas(plain, Branches(payload, "allOf"), show, key);
    var whole := MergeBranches(plain, Branches(payload, "allOf"), show).value;
    assert "allOf" in COMBINATORS && "anyOf" in COMBINATORS && "oneOf" in COMBINATORS;
    if !HasShape(whole) {
      var any := SanitizeBranches(Branches(payload, "anyOf"), show).value;
      var one := SanitizeBranches(Branches(payload, "oneOf"), show).value;
      SanitizedBranches(Branches(payload, "anyOf"), show, key);
      SanitizedBranches(Branches(payload, "oneOf"), show, key);
      PreferredIsOne(any + one);
      var best := Preferred(any + one);
      if best != [] {
        MergeHas(whole, best, show, key);
      }
    }
  }

  lemma {:induction false} CleanHasNotLost(fields: Fields, key: string)
    requires Clean(fields) && key in LOST
    ensures !Has(fields, key)
  {
    if fields != [] {
      CleanHasNotLost(fields[1..], key);
    }
  }

  // ---------------------------------------------------------------- a table of properties

  /** Of the declared names exactly those not called "description", "anyOf", "oneOf" or "allOf"
      survive. A name that was not declared appears only if the table has a combinator name whose
      value is a list, and an object of that list has the name. */
  lemma NamesThatSurvive(fields: Fields, show: Show, key: string)
    requires Sanitize(Obj(fields), show).Ok?
    ensures var after := Sanitize(Obj(fields), show).value;
            && (key in LOST ==> !Has(after, key))
            && (key !in LOST && Has(fields, key) ==> Has(after, key))
            && (Has(after, key) && !Has(fields, key) ==>
                  exists name :: name in COMBINATORS && Brings(Branches(fields, name), show, key))
  {
    var payload := Tighten(fields);
    var plain := SanitizeFields(WithoutCombinators(payload), show).value;
    SanitizedIsClean(Obj(fields), show);
    if key in LOST {
      CleanHasNotLost(Sanitize(Obj(fields), show).value, key);
    } else {
      SanitizedHas(WithoutCombinators(payload), show, key);
      WithoutCombinatorsGet(payload, key);
      TightenedHas(fields, key);
      WithBranchesHas(plain, payload, show, key);
      forall name | name in COMBINATORS
        ensures Branches(payload, name) == Branches(fields, name)
      {
        TightenedHas(fields, name);
      }
    }
  }

  // ---------------------------------------------------------------- the properties of a schema

  ghost predicate DeclaresTable(fields: Fields) {
    Has(fields, "properties") && Get(fields, "properties").value.Obj?
  }

  /** The declared properties of a schema. */
  function Table(fields: Fields): Fields {
    var p := Get(fields, "properties");
    if p.Some? && p.value.Obj? then p.value.fields else []
  }

  lemma {:induction false} MergePropertiesHas(existing: Fields, value: Fields, show: Show, key: string)
    requires MergeProperties(existing, value, show).Ok? && Has(existing, key)
    ensures Has(MergeProperties(existing, value, show).value, key)
    decreases |value|
  {
    if value != [] {
      var next := MergeSub(existing, value[0].key, value[0].value, show).value;
      assert exists v :: next == Put(existing, value[0].key, v);
      var v :| next == Put(existing, value[0].key, v);
      GetPut(existing, value[0].key, v, key);
      MergePropertiesHas(next, value[1..], show, key);
    }
  }

  lemma MergeFieldKeepsTable(base: Fields, f: Field, show: Show, key: string)
    requires MergeField(base, f, show).Ok? && DeclaresTable(base)
    ensures DeclaresTable(MergeField(base, f, show).value)
    ensures Has(Table(base), key) ==> Has(Table(MergeField(base, f, show).value), key)
  {
    if f.key == "properties" {
      var existing, value := AsDict(Get(base, "properties")).value, AsDict(Some(f.value)).value;
      assert existing == Table(base);
      var properties := MergeProperties(existing, value, show).value;
      GetPut(base, "properties", Obj(properties), "properties");
      if Has(existing, key) {
        MergePropertiesHas(existing, value, show, key);
      }
    } else {
      MergeFieldElsewhere(base, f, show, "properties");
    }
  }

  lemma {:induction false} MergeKeepsTable(base: Fields, overlay: Fields, show: Show, key: string)
    requires Merge(base, overlay, show).Ok? && DeclaresTable(base)
    ensures DeclaresTable(Merge(base, overlay, show).value)
    ensures Has(Table(base), key) ==> Has(Table(Merge(base, overlay, show).value), key)
    decreases |overlay|
  {
    if overlay != [] {
      MergeFieldKeepsTable(base, overlay[0], show, key);
      MergeKeepsTable(MergeField(base, overlay[0], show).value, overlay[1..], show, key);
    }
  }

  lemma {:induction false} MergeBranchesKeepsTable(base: Fields, branches: seq<Json>, show: Show, key: string)
    requires MergeBranches(base, branches, show).Ok? && DeclaresTable(base)
    ensures DeclaresTable(MergeBranches(base, branches, show).value)
    ensures Has(Table(base), key) ==> Has(Table(MergeBranches(base, branches, show).value), key)
    decreases |branches|
  {
    if branches != [] {
      var next := base;
      if branches[0].Obj? {
        MergeKeepsTable(base, Sanitize(branches[0], show).value, show, key);
        next := Merge(base, Sanitize(branches[0], show).value, show).value;
      }
      MergeBranchesKeepsTable(next, branches[1..], show, key);
    }
  }

  lemma {:induction false} TableIsShape(fields: Fields)
    requires DeclaresTable(fields)
    ensures HasShape(fields)
  {
    if fields[0].key != "properties" {
      TableIsShape(fields[1..]);
      var i :| 0 <= i < |fields[1..]|
        && fields[1..][i].key in {"type", "properties", "items", "enum", "const", "additionalProperties"};
      assert fields[i + 1].key == fields[1..][i].key;
    } else {
      assert fields[0].key in {"type", "properties", "items", "enum", "const", "additionalProperties"};
    }
  }

  /** Sanitizing a schema keeps its table of properties, and of the properties it declared exactly
      those whose names are not lost, whatever combinators the schema has. */
  lemma PropertiesThatSurvive(schema: Fields, show: Show, key: string)
    requires Sanitize(Obj(schema), show).Ok? && DeclaresTable(schema) && Has(Table(schema), key)
    ensures var after := Sanitize(Obj(schema), show).value;
            DeclaresTable(after) && (Has(Table(after), key) <==> key !in LOST)
  {
    var payload := Tighten(schema);
    var plain := SanitizeFields(WithoutCombinators(payload), show).value;
    var after := Sanitize(Obj(schema), show).value;
    var table := Get(schema, "properties").value;
    TightenedHas(schema, "properties");
    WithoutCombinatorsGet(payload, "properties");
    SanitizedGet(WithoutCombinators(payload), "properties", show);
    assert Get(plain, "properties") == Some(Obj(Sanitize(table, show).value));
    NamesThatSurvive(Table(schema), show, key);
    MergeBranchesKeepsTable(plain, Branches(payload, "allOf"), show, key);
    TableIsShape(MergeBranches(plain, Branches(payload, "allOf"), show).value);
    if key in LOST {
      SanitizedIsClean(Obj(schema), show);
      CleanGet(after, "properties");
      CleanHasNotLost(Table(after), key);
    }
  }

  lemma ShapedStays(plain: Fields, payload: Fields, show: Show)
    requires DeclaresTable(plain) && Branches(payload, "allOf") == []
    ensures WithBranches(plain, payload, show) == Ok(plain)
  {
    TableIsShape(plain);
  }

  /** What sanitizing leaves of one field that is not tightened. */
  lemma PlainField(schema: Fields, show: Show, key: string)
    requires Sanitize(Obj(schema), show).Ok? && key !in LOST && key != "type" && Has(schema, key)
    ensures var plain := SanitizeFields(WithoutCombinators(Tighten(schema)), show);
            plain.Ok? && SanitizeValue(Get(schema, key).value, show).Ok?
            && Get(plain.value, key) == Some(SanitizeValue(Get(schema, key).value, show).value)
  {
    TightenedHas(schema, key);
    WithoutCombinatorsGet(Tighten(schema), key);
    SanitizedGet(WithoutCombinators(Tighten(schema)), key, show);
  }

  /** Without branches of allOf, a schema with declared properties is its plain fields. */
  lemma PlainIsAll(schema: Fields, show: Show)
    requires Sanitize(Obj(schema), show).Ok? && DeclaresTable(schema) && Branches(schema, "allOf") == []
    ensures SanitizeFields(WithoutCombinators(Tighten(schema)), show) == Sanitize(Obj(schema), show)
  {
    var plain := SanitizeFields(WithoutCombinators(Tighten(schema)), show);
    PlainField(schema, show, "properties");
    TightenedHas(schema, "allOf");
    ShapedStays(plain.value, Tighten(schema), show);
  }

  /** Unless allOf merges more in, a schema with declared properties requires the names it required,
      those of lost properties included. */
  lemma LostPropertyStaysRequired(schema: Fields, show: Show, names: seq<Json>)
    requires Sanitize(Obj(schema), show).Ok? && DeclaresTable(schema) && Branches(schema, "allOf") == []
    requires Get(schema, "required") == Some(Arr(names)) && forall i :: 0 <= i < |names| ==> names[i].Str?
    ensures Get(Sanitize(Obj(schema), show).value, "required") == Some(Arr(names))
  {
    PlainField(schema, show, "required");
    PlainIsAll(schema, show);
    NamesStay(names, show);
  }

  lemma LoneLostTable(key: string, show: Show)
    requires key in LOST
    ensures Sanitize(Obj([Field(key, Obj([]))]), show) == Ok([])
  {
    var table := [Field(key, Obj([]))];
    assert table[1..] == [] && !Loose(table);
    assert SanitizeFields(WithoutCombinators(table), show) == Ok([]) by {
      assert WithoutCombinators(table) == if key in COMBINATORS then [] else table;
    }
    assert Branches(table, "allOf") == [] && Branches(table, "anyOf") == [] && Branches(table, "oneOf") == [];
    var none: seq<Fields> := [];
    assert none + none == none && Preferred(none) == [];
    assert MergeBranches([], [], show) == Ok([]) && WithBranches([], table, show) == Ok([]);
  }

  /** A required property with any of the four names is gone, and still required. */
  lemma RequiredPropertyIsLost(key: string, show: Show)
    requires key in LOST
    ensures var required := Field("required", Arr([Str(key)]));
            Sanitize(Obj([Field("properties", Obj([Field(key, Obj([]))])), required]), show)
            == Ok([Field("properties", Obj([])), required])
  {
    var required := Field("required", Arr([Str(key)]));
    var schema := [Field("properties", Obj([Field(key, Obj([]))])), required];
    assert schema[1..] == [required] && [required][1..] == [];
    LoneLostTable(key, show);
    NamesStay([Str(key)], show);
    NoBranches(schema);
    assert SanitizeFields([required], show) == Ok([required]);
    var table := Field("properties", Obj([]));
    assert SanitizeFields(schema, show) == Ok([table] + [required]) && [table] + [required] == [table, required];
    assert Get(schema, "type").None?;
    PlainSanitize(schema, show);
  }
}
