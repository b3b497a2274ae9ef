/** When sanitizing a second time changes nothing, decided from the schema before the first time. */
module SchemaIdempotence {
  import opened Sequences
  import opened SchemaSanitizer
  import opened SchemaProperties

  // ---------------------------------------------------------------- schemas without branches

  /** No object reached has a combinator with a list of branches. */
  predicate BranchFree(fields: Fields)
    decreases FieldsSize(fields), 2
  {
    (forall name :: name in COMBINATORS ==> Branches(fields, name) == []) && BranchFreeBelow(fields)
  }

  predicate BranchFreeBelow(fields: Fields)
    decreases FieldsSize(fields), 1
  {
    fields == [] || (BranchFreeValue(fields[0].value) && BranchFreeBelow(fields[1..]))
  }

  predicate BranchFreeValue(v: Json)
    decreases Size(v), 0
  {
    match v
    case Obj(fields) => BranchFree(fields)
    case Arr(items) => BranchFreeItems(items)
    case _ => true
  }

  predicate BranchFreeItems(items: seq<Json>)
    decreases ItemsSize(items), 1
  {
    items == [] || ((items[0].Obj? ==> BranchFreeValue(items[0])) && BranchFreeItems(items[1..]))
  }

  lemma {:induction false} BranchFreePut(fields: Fields, key: string, value: Json)
    requires BranchFreeBelow(fields) && BranchFreeValue(value)
    ensures BranchFreeBelow(Put(fields, key, value))
  {
    if fields == [] {
      assert Put(fields, key, value)[1..] == [];
    } else if fields[0].key == key {
      assert Put(fields, key, value)[1..] == fields[1..];
    } else {
      BranchFreePut(fields[1..], key, value);
      assert Put(fields, key, value)[1..] == Put(fields[1..], key, value);
    }
  }

  lemma {:induction false} BranchFreeWithout(fields: Fields)
    requires BranchFreeBelow(fields)
    ensures BranchFreeBelow(WithoutCombinators(fields))
  {
    if fields != [] {
      BranchFreeWithout(fields[1..]);
      var rest := WithoutCombinators(fields[1..]);
      assert ([fields[0]] + rest)[1..] == rest && [] + rest == rest;
    }
  }

  lemma TightenedIsBranchFree(fields: Fields)
    requires BranchFree(fields)
    ensures BranchFree(Tighten(fields)) && !Loose(Tighten(fields))
  {
    var both := [Str("object"), Str("null")];
    forall name | name in COMBINATORS
      ensures Branches(Tighten(fields), name) == []
    {
      TightenedHas(fields, name);
    }
    if Loose(fields) {
      var t := if Str("null") in Get(fields, "type").value.items then Arr(both) else Str("object");
      assert both[1..] == [Str("null")] && both[1..][1..] == [];
      BranchFreePut(fields, "type", t);
      GetPut(fields, "type", t, "type");
      assert !HasOther(both);
    }
  }

  /** Without branches a schema is sanitized field by field. */
  lemma BranchFreeSanitize(fields: Fields, show: Show)
    requires BranchFree(fields) && Sanitize(Obj(fields), show).Ok?
    ensures Sanitize(Obj(fields), show) == SanitizeFields(WithoutCombinators(Tighten(fields)), show)
  {
    var payload := Tighten(fields);
    TightenedIsBranchFree(fields);
    assert "allOf" in COMBINATORS && "anyOf" in COMBINATORS && "oneOf" in COMBINATORS;
    assert Branches(payload, "allOf") == [] && Branches(payload, "anyOf") == [] && Branches(payload, "oneOf") == [];
    var none: seq<Fields> := [];
    assert none + none == none && Preferred(none) == [];
    var plain := SanitizeFields(WithoutCombinators(payload), show);
    assert MergeBranches(plain.value, [], show) == plain && SanitizeBranches([], show) == Ok([]);
    assert WithBranches(plain.value, payload, show) == plain;
  }

  lemma {:induction false} OthersStayOther(items: seq<Json>, show: Show)
    requires SanitizeItems(items, show).Ok?
    ensures HasOther(SanitizeItems(items, show).value) ==> HasOther(items)
  {
    if items != [] {
      OthersStayOther(items[1..], show);
      var r := SanitizeItems(items, show).value;
      assert r[1..] == SanitizeItems(items[1..], show).value;
      if HasOther(r) {
        var i :| 0 <= i < |r| && r[i] != Str("null") && r[i] != Str("object");
        if i > 0 {
          assert r[1..][i - 1] == r[i];
          var j :| 0 <= j < |items[1..]| && items[1..][j] != Str("null") && items[1..][j] != Str("object");
          assert items[j + 1] == items[1..][j];
        } else {
          assert items[0] != Str("null") && items[0] != Str("object");
        }
      }
    }
  }

  lemma EmptyStaysEmpty(show: Show)
    ensures Sanitize(Obj([]), show) == Ok([])
  {
    CleanSchemaStays([], show);
  }

  /** Sanitizing field by field makes no object loose that was not. */
  lemma StaysTight(fields: Fields, show: Show)
    requires !Loose(fields) && SanitizeFields(fields, show).Ok?
    ensures !Loose(SanitizeFields(fields, show).value)
  {
    var plain := SanitizeFields(fields, show).value;
    SanitizedHas(fields, show, "type");
    SanitizedHas(fields, show, "properties");
    if Has(fields, "type") && Has(fields, "properties") {
      var t, p := Get(fields, "type").value, Get(fields, "properties").value;
      SanitizedGet(fields, "type", show);
      SanitizedGet(fields, "properties", show);
      if t.Arr? {
        OthersStayOther(t.items, show);
      }
      EmptyStaysEmpty(show);
    }
  }

  lemma {:induction false} ItemsGetTight(items: seq<Json>, show: Show)
    requires BranchFreeItems(items) && SanitizeItems(items, show).Ok?
    ensures TightItems(SanitizeItems(items, show).value)
    decreases ItemsSize(items), 2
  {
    if items != [] {
      ItemsGetTight(items[1..], show);
      if items[0].Obj? {
        ValueGetsTight(items[0], show);
      }
      assert SanitizeItems(items, show).value[1..] == SanitizeItems(items[1..], show).value;
    }
  }

  lemma {:induction false} ValueGetsTight(v: Json, show: Show)
    requires BranchFreeValue(v) && SanitizeValue(v, show).Ok?
    ensures TightValue(SanitizeValue(v, show).value)
    decreases Size(v), 1
  {
    match v
    case Obj(fields) => BranchFreeGetsTight(fields, show);
    case Arr(items) => ItemsGetTight(items, show);
    case _ =>
  }

  lemma {:induction false} FieldsGetTight(fields: Fields, show: Show)
    requires BranchFreeBelow(fields) && SanitizeFields(fields, show).Ok?
    ensures TightBelow(SanitizeFields(fields, show).value)
    decreases FieldsSize(fields), 2
  {
    if fields != [] {
      FieldsGetTight(fields[1..], show);
      if fields[0].key != "description" {
        ValueGetsTight(fields[0].value, show);
        assert SanitizeFields(fields, show).value[1..] == SanitizeFields(fields[1..], show).value;
      }
    }
  }

  lemma WithoutKeepsTight(fields: Fields)
    requires !Loose(fields)
    ensures !Loose(WithoutCombinators(fields))
  {
    WithoutCombinatorsGet(fields, "type");
    WithoutCombinatorsGet(fields, "properties");
  }

  /** What comes out of a schema without branches has no loose type anywhere. */
  lemma {:induction false} BranchFreeGetsTight(fields: Fields, show: Show)
    requires BranchFree(fields) && Sanitize(Obj(fields), show).Ok?
    ensures Tight(Sanitize(Obj(fields), show).value)
    decreases Size(Obj(fields)), 0
  {
    var payload := Tighten(fields);
    TightenSize(fields);
    WithoutCombinatorsSize(payload);
    TightenedIsBranchFree(fields);
    BranchFreeWithout(payload);
    WithoutKeepsTight(payload);
    BranchFreeSanitize(fields, show);
    StaysTight(WithoutCombinators(payload), show);
    FieldsGetTight(WithoutCombinators(payload), show);
  }

  /** Sanitizing a schema without branches twice is sanitizing it once. */
  lemma BranchFreeTwice(fields: Fields, show: Show)
    requires BranchFree(fields) && Sanitize(Obj(fields), show).Ok?
    ensures Sanitize(Obj(Sanitize(Obj(fields), show).value), show) == Sanitize(Obj(fields), show)
  {
    BranchFreeGetsTight(fields, show);
    SanitizingTwice(Obj(fields), show);
  }

  // ---------------------------------------------------------------- a schema with a branch

  const UNION_TYPE: Field := Field("type", Arr([Str("object"), Str("string")]))
  const ONE_PROPERTY: Field := Field("properties", Obj([Field("a", Obj([]))]))

  lemma BranchStays(show: Show)
    ensures Sanitize(Obj([ONE_PROPERTY]), show) == Ok([ONE_PROPERTY])
  {
    var table := [Field("a", Obj([]))];
    assert table[1..] == [] && [ONE_PROPERTY][1..] == [] && |ONE_PROPERTY.key| == 10;
    assert Clean(table) && !Loose(table) && Tight(table);
    var rest: Fields := [];
    assert [ONE_PROPERTY][1..] == rest && Get(rest, "type").None? && |"type"| == 4;
    assert Get([ONE_PROPERTY], "type").None?;
    assert Clean([ONE_PROPERTY]) && Tight([ONE_PROPERTY]);
    CleanSchemaStays([ONE_PROPERTY], show);
  }

  lemma UnionStays(show: Show)
    ensures SanitizeFields([UNION_TYPE], show) == Ok([UNION_TYPE])
  {
    NamesStay([Str("object"), Str("string")], show);
    var rest: Fields := [];
    assert [UNION_TYPE][1..] == rest && |UNION_TYPE.key| == 4 && SanitizeFields(rest, show) == Ok(rest);
    assert [UNION_TYPE] + rest == [UNION_TYPE] && Field(UNION_TYPE.key, UNION_TYPE.value) == UNION_TYPE;
  }

  /** The union type and the branch, merged, are a loose type. */
  lemma UnionMerged(show: Show)
    ensures Merge([UNION_TYPE], [ONE_PROPERTY], show) == Ok([UNION_TYPE, ONE_PROPERTY])
    ensures HasShape([UNION_TYPE, ONE_PROPERTY]) && Loose([UNION_TYPE, ONE_PROPERTY])
  {
    var result, table := [UNION_TYPE, ONE_PROPERTY], [Field("a", Obj([]))];
    assert [UNION_TYPE][1..] == [] && [ONE_PROPERTY][1..] == [] && table[1..] == [];
    assert |UNION_TYPE.key| == 4 && |ONE_PROPERTY.key| == 10;
    assert MergeProperties([], table, show) == Ok(table);
    assert Get([UNION_TYPE], "properties").None?;
    assert Put([UNION_TYPE], "properties", Obj(table)) == result;
    assert MergeField([UNION_TYPE], ONE_PROPERTY, show) == Ok(result);
    assert Merge([UNION_TYPE], [ONE_PROPERTY], show) == Merge(result, [], show) == Ok(result);
    assert result[0].key == "type";
    var items := [Str("object"), Str("string")];
    assert items[1] != Str("null") && items[1] != Str("object") && HasOther(items);
  }

  /** The combinator is taken off, and its branch is all there is to merge. */
  lemma UnionTakenApart()
    ensures var schema := [UNION_TYPE, Field("allOf", Arr([Obj([ONE_PROPERTY])]))];
            && !Loose(schema) && WithoutCombinators(schema) == [UNION_TYPE]
            && Branches(schema, "allOf") == [Obj([ONE_PROPERTY])]
  {
    var all := Field("allOf", Arr([Obj([ONE_PROPERTY])]));
    var schema := [UNION_TYPE, all];
    assert schema[1..] == [all] && [all][1..] == [];
    assert |UNION_TYPE.key| == 4 && |all.key| == 5;
    assert Get(schema, "properties").None?;
    assert WithoutCombinators([all]) == [];
    assert WithoutCombinators(schema) == [UNION_TYPE] + [];
    assert Get(schema, "allOf") == Get([all], "allOf");
  }

  /** Without that the second time can differ: a union type gets properties from allOf, and is made an
      object only when the result is sanitized again. */
  lemma UnionThroughAllOf(show: Show)
    ensures var schema := [UNION_TYPE, Field("allOf", Arr([Obj([ONE_PROPERTY])]))];
            Sanitize(Obj(schema), show) == Ok([UNION_TYPE, ONE_PROPERTY])
            && Sanitize(Obj([UNION_TYPE, ONE_PROPERTY]), show) != Ok([UNION_TYPE, ONE_PROPERTY])
  {
    var schema := [UNION_TYPE, Field("allOf", Arr([Obj([ONE_PROPERTY])]))];
    var result, branches := [UNION_TYPE, ONE_PROPERTY], [Obj([ONE_PROPERTY])];
    UnionTakenApart();
    UnionStays(show);
    BranchStays(show);
    UnionMerged(show);
    assert branches[1..] == [] && MergeBranches([UNION_TYPE], branches, show) == Ok(result);
    assert WithBranches([UNION_TYPE], schema, show) == Ok(result);
    SanitizingTwice(Obj(schema), show);
  }
}
