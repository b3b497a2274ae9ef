/** The sanitizer and the merge as the program runs them: fresh dictionaries and lists, filled in
    loops. */
module SchemaSanitizerLoops {
  import opened Sequences
  import opened SchemaSanitizer

  lemma {:induction false} FieldSize(fields: Fields, i: nat)
    requires i < |fields|
    ensures Size(fields[i].value) <= FieldsSize(fields)
  {
    if i > 0 {
      FieldSize(fields[1..], i - 1);
    }
  }

  lemma {:induction false} ItemSize(items: seq<Json>, i: nat)
    requires i < |items|
    ensures Size(items[i]) <= ItemsSize(items)
  {
    if i > 0 {
      ItemSize(items[1..], i - 1);
    }
  }

  // ---------------------------------------------------------------- merging

  method MergeSubDict(merged: Fields, key: string, value: Json, show: Show) returns (r: Outcome<Fields>)
    ensures r == MergeSub(merged, key, value, show)
    decreases Size(value), 1
  {
    var was := Get(merged, key);
    if was.Some? && was.value.Obj? && value.Obj? {
      var sub := MergeProviderSchemaDicts(was.value.fields, value.fields, show);
      if sub.Error? {
        return Error;
      }
      return Ok(Put(merged, key, Obj(sub.value)));
    }
    return Ok(Put(merged, key, value));
  }

  method MergeProviderSchemaDicts(base: Fields, overlay: Fields, show: Show) returns (r: Outcome<Fields>)
    ensures r == Merge(base, overlay, show)
    decreases FieldsSize(overlay), 3
  {
    var merged := base;
    for i := 0 to |overlay|
      invariant Merge(merged, overlay[i..], show) == Merge(base, overlay, show)
    {
      var f := overlay[i];
      assert overlay[i..][0] == f && overlay[i..][1..] == overlay[i + 1..];
      FieldSize(overlay, i);
      var next;
      if f.key == "required" {
        next := MergeRequired(merged, f.value, show);
      } else if f.key == "properties" {
        next := MergePropertiesInto(merged, f.value, show);
      } else if f.key == "items" || f.key == "additionalProperties" {
        next := MergeSubDict(merged, f.key, f.value, show);
      } else if f.key == "type" {
        next := Ok(if BlankType(Get(merged, "type")) && f.value != Null && f.value != Str("")
                   then Put(merged, "type", f.value) else merged);
      } else {
        next := Ok(if Get(merged, f.key).None? then Put(merged, f.key, f.value) else merged);
      }
      assert next == MergeField(merged, f, show);
      if next.Error? {
        return Error;
      }
      merged := next.value;
    }
    assert overlay[|overlay|..] == [];
    r := Ok(merged);
  }

  method MergePropertiesInto(merged: Fields, value: Json, show: Show) returns (r: Outcome<Fields>)
    ensures r == MergeField(merged, Field("properties", value), show)
    decreases Size(value), 2
  {
    var existing, properties := AsDict(Get(merged, "properties")), AsDict(Some(value));
    if existing.Error? || properties.Error? {
      return Error;
    }
    var all := existing.value;
    for i := 0 to |properties.value|
      invariant MergeProperties(all, properties.value[i..], show)
                == MergeProperties(existing.value, properties.value, show)
    {
      var p := properties.value[i];
      assert properties.value[i..][0] == p && properties.value[i..][1..] == properties.value[i + 1..];
      FieldSize(properties.value, i);
      var next := MergeSubDict(all, p.key, p.value, show);
      if next.Error? {
        return Error;
      }
      all := next.value;
    }
    assert properties.value[|properties.value|..] == [];
    r := Ok(if all == [] then merged else Put(merged, "properties", Obj(all)));
  }

  // ---------------------------------------------------------------- sanitizing

  /** Results collected before those still to come. */
  function After<T>(done: seq<T>, rest: Outcome<seq<T>>): Outcome<seq<T>> {
    if rest.Ok? then Ok(done + rest.value) else Error
  }

  lemma AfterOne<T>(done: seq<T>, x: T, rest: Outcome<seq<T>>)
    ensures After(done, After([x], rest)) == After(done + [x], rest)
  {
    if rest.Ok? {
      assert done + ([x] + rest.value) == (done + [x]) + rest.value;
    }
  }

  lemma AfterNone<T>(rest: Outcome<seq<T>>)
    ensures After([], rest) == rest
  {
    if rest.Ok? {
      assert [] + rest.value == rest.value;
    }
  }

  lemma AfterAll<T>(done: seq<T>)
    ensures After(done, Ok([])) == Ok(done)
  {
    assert done + [] == done;
  }

  method SanitizeProviderSchema(j: Json, show: Show) returns (r: Outcome<Fields>)
    ensures r == Sanitize(j, show)
    decreases Size(j), 7
  {
    if !j.Obj? {
      return Ok([]);
    }
    var payload := Tighten(j.fields);
    TightenSize(j.fields);
    WithoutCombinatorsSize(payload);
    var sanitized := SanitizeEachField(WithoutCombinators(payload), show);
    if sanitized.Error? {
      return Error;
    }
    r := AddBranches(sanitized.value, payload, show);
  }

  method SanitizeEachField(fields: Fields, show: Show) returns (r: Outcome<Fields>)
    ensures r == SanitizeFields(fields, show)
    decreases FieldsSize(fields), 9
  {
    var sanitized: Fields := [];
    AfterNone(SanitizeFields(fields, show));
    assert fields[0..] == fields;
    for i := 0 to |fields|
      invariant After(sanitized, SanitizeFields(fields[i..], show)) == SanitizeFields(fields, show)
    {
      assert fields[i..][0] == fields[i] && fields[i..][1..] == fields[i + 1..];
      if fields[i].key == "description" {
        continue;
      }
      FieldSize(fields, i);
      var value := SanitizeFieldValue(fields[i].value, show);
      if value.Error? {
        return Error;
      }
      AfterOne(sanitized, Field(fields[i].key, value.value), SanitizeFields(fields[i + 1..], show));
      sanitized := sanitized + [Field(fields[i].key, value.value)];
    }
    assert fields[|fields|..] == [];
    AfterAll(sanitized);
    r := Ok(sanitized);
  }

  method SanitizeFieldValue(v: Json, show: Show) returns (r: Outcome<Json>)
    ensures r == SanitizeValue(v, show)
    decreases Size(v), 8
  {
    if v.Obj? {
      var fields := SanitizeProviderSchema(v, show);
      return if fields.Ok? then Ok(Obj(fields.value)) else Error;
    } else if v.Arr? {
      var clean := SanitizeEachItem(v.items, show);
      return if clean.Ok? then Ok(Arr(clean.value)) else Error;
    }
    return Ok(v);
  }

  method SanitizeEachItem(items: seq<Json>, show: Show) returns (r: Outcome<seq<Json>>)
    ensures r == SanitizeItems(items, show)
    decreases ItemsSize(items), 9
  {
    var clean: seq<Json> := [];
    AfterNone(SanitizeItems(items, show));
    assert items[0..] == items;
    for i := 0 to |items|
      invariant After(clean, SanitizeItems(items[i..], show)) == SanitizeItems(items, show)
    {
      var item := items[i];
      assert items[i..][0] == item && items[i..][1..] == items[i + 1..];
      ItemSize(items, i);
      if item.Obj? {
        var fields := SanitizeProviderSchema(item, show);
        if fields.Error? {
          return Error;
        }
        item := Obj(fields.value);
      }
      AfterOne(clean, item, SanitizeItems(items[i + 1..], show));
      clean := clean + [item];
    }
    assert items[|items|..] == [];
    AfterAll(clean);
    r := Ok(clean);
  }

  method SanitizeEach(branches: seq<Json>, show: Show) returns (r: Outcome<seq<Fields>>)
    ensures r == SanitizeBranches(branches, show)
    decreases ItemsSize(branches), 8
  {
    var all: seq<Fields> := [];
    AfterNone(SanitizeBranches(branches, show));
    assert branches[0..] == branches;
    for i := 0 to |branches|
      invariant After(all, SanitizeBranches(branches[i..], show)) == SanitizeBranches(branches, show)
    {
      assert branches[i..][0] == branches[i] && branches[i..][1..] == branches[i + 1..];
      ItemSize(branches, i);
      if branches[i].Obj? {
        var fields := SanitizeProviderSchema(branches[i], show);
        if fields.Error? {
          return Error;
        }
        AfterOne(all, fields.value, SanitizeBranches(branches[i + 1..], show));
        all := all + [fields.value];
      }
    }
    assert branches[|branches|..] == [];
    AfterAll(all);
    r := Ok(all);
  }

  method AddBranches(plain: Fields, payload: Fields, show: Show) returns (r: Outcome<Fields>)
    ensures r == WithBranches(plain, payload, show)
    decreases FieldsSize(payload), 10
  {
    var sanitized := plain;
    var branches := Branches(payload, "allOf");
    for i := 0 to |branches|
      invariant MergeBranches(sanitized, branches[i..], show) == MergeBranches(plain, branches, show)
    {
      assert branches[i..][0] == branches[i] && branches[i..][1..] == branches[i + 1..];
      ItemSize(branches, i);
      if branches[i].Obj? {
        var branch := SanitizeProviderSchema(branches[i], show);
        if branch.Error? {
          return Error;
        }
        var merged := MergeProviderSchemaDicts(sanitized, branch.value, show);
        if merged.Error? {
          return Error;
        }
        sanitized := merged.value;
      }
    }
    assert branches[|branches|..] == [];
    if HasShape(sanitized) {
      return Ok(sanitized);
    }
    var any := SanitizeEach(Branches(payload, "anyOf"), show);
    var one := SanitizeEach(Branches(payload, "oneOf"), show);
    if any.Error? || one.Error? {
      return Error;
    }
    var best := Preferred(any.value + one.value);
    if best == [] {
      return Ok(sanitized);
    }
    r := MergeProviderSchemaDicts(sanitized, best, show);
  }
}
