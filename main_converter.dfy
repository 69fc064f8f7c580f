/**
 * The merge engine of the converter service in src/main (the copy whose Gson
 * instance serialises nulls and skips fields tagged `@ExcludeFromJson`).
 *
 * `merge(to, from, ignored...)` encodes `from`, decodes the text to a generic
 * tree, collects every map key of that tree, and for each key not in the
 * (sorted) ignore array resolves a field of that name on `to`'s class and on
 * `from`'s class and copies `from`'s value into `to`.
 *
 * The decoded tree is a parameter of the entry points: Gson itself is not part
 * of this model. What its settings promise about the tree appears as the
 * hypothesis EncodesFields of the lemmas that need it.
 */
module MainConverter {
  import opened Wrappers
  import opened Reflection
  import opened JsonKeys
  import opened IgnoreArray
  import JavaStrings

  // ---------------------------------------------------------------------------
  // Field resolution
  // ---------------------------------------------------------------------------

  /** What this copy's `findField` yields: the walk does not stop at a hit, so
      the declaration in the most distant ancestor that declares `name` wins. */
  function LastDeclaration(t: ClassTable, c: ClassId, name: string): (r: Option<Field>)
    requires ValidTable(t) && c in t
    ensures r.Some? ==> r.value.name == name && IsDeclaredField(t, c, r.value)
    decreases c
  {
    var above := match t[c].super
      case None => None
      case Some(s) => LastDeclaration(t, s, name);
    if above.Some? then above
    else if name in t[c].declared then Some(Field(c, name))
    else None
  }

  /** No field is found exactly when no class on the chain declares the name. */
  lemma {:induction false} LastDeclarationNone(t: ClassTable, c: ClassId, name: string)
    requires ValidTable(t) && c in t
    ensures LastDeclaration(t, c, name).None? <==> forall x :: x in Chain(t, c) ==> name !in t[x].declared
    decreases c
  {
    match t[c].super
    case None =>
    case Some(s) =>
      LastDeclarationNone(t, s, name);
      assert Chain(t, c) == [c] + Chain(t, s);
  }

  /** The field found is declared by a class that no other declaring class on
      the chain is an ancestor of (ancestors carry smaller numbers). */
  lemma {:induction false} LastDeclarationMostDistant(t: ClassTable, c: ClassId, name: string)
    requires ValidTable(t) && c in t
    requires LastDeclaration(t, c, name).Some?
    ensures forall x :: x in Chain(t, c) && x < LastDeclaration(t, c, name).value.owner ==> name !in t[x].declared
    decreases c
  {
    var f := LastDeclaration(t, c, name).value;
    match t[c].super
    case None =>
    case Some(s) =>
      assert Chain(t, c) == [c] + Chain(t, s);
      if LastDeclaration(t, s, name).Some? {
        LastDeclarationMostDistant(t, s, name);
      } else {
        LastDeclarationNone(t, s, name);
      }
  }

  /** When no other class on the chain declares a field's name, the field found
      for that name is that field. */
  lemma LastDeclarationUnique(t: ClassTable, c: ClassId, f: Field)
    requires ValidTable(t) && c in t && IsDeclaredField(t, c, f) && DeclaredAtMostOnce(t, c, f.name)
    ensures LastDeclaration(t, c, f.name) == Some(f)
  {
    LastDeclarationNone(t, c, f.name);
    var g := LastDeclaration(t, c, f.name).value;
    var ch := Chain(t, c);
    var i :| 0 <= i < |ch| && ch[i] == f.owner;
    var j :| 0 <= j < |ch| && ch[j] == g.owner;
    assert f.name in t[ch[i]].declared && f.name in t[ch[j]].declared;
    assert i == j;
  }

  /** `findField(clazz, fieldName)`: walks `clazz` and its superclasses,
      remembering each declaration met, and returns the last one (or `null`). */
  method FindField(t: ClassTable, clazz: ClassId, fieldName: string) returns (field: Option<Field>)
    requires ValidTable(t) && clazz in t
    ensures field == LastDeclaration(t, clazz, fieldName)
    ensures field.None? <==> forall x :: x in Chain(t, clazz) ==> fieldName !in t[x].declared
    ensures field.Some? ==> field.value.name == fieldName && IsDeclaredField(t, clazz, field.value)
    ensures field.Some? ==>
      forall x :: x in Chain(t, clazz) && x < field.value.owner ==> fieldName !in t[x].declared
  {
    field := None;
    var current: Option<ClassId> := Some(clazz);
    while current.Some?
      invariant current.Some? ==> current.value in t
      invariant LastDeclaration(t, clazz, fieldName) ==
        if current.Some? && LastDeclaration(t, current.value, fieldName).Some?
        then LastDeclaration(t, current.value, fieldName) else field
      decreases if current.Some? then current.value + 1 else 0
    {
      if fieldName in t[current.value].declared {
        field := Some(Field(current.value, fieldName));
      }
      current := t[current.value].super;
    }
    LastDeclarationNone(t, clazz, fieldName);
    if field.Some? {
      LastDeclarationMostDistant(t, clazz, fieldName);
    }
  }

  // ---------------------------------------------------------------------------
  // The merge, as a function of the field maps
  // ---------------------------------------------------------------------------

  /** One processed key applied to `to`'s fields `m` (`setFieldValues`): when
      both classes resolve `k`, `to`'s field takes `from`'s value, null or not;
      otherwise `m` stays as it is. */
  function CopyKey(t: ClassTable, toCls: ClassId, fromCls: ClassId, fromFields: map<Field, Value>,
                   m: map<Field, Value>, k: string): (r: map<Field, Value>)
    requires Instance(t, toCls, m) && Instance(t, fromCls, fromFields)
    ensures r.Keys == m.Keys
  {
    match LastDeclaration(t, toCls, k)
    case None => m
    case Some(fieldTo) =>
      match LastDeclaration(t, fromCls, k)
      case None => m
      case Some(fieldFrom) => m[fieldTo := fromFields[fieldFrom]]
  }

  /** `to`'s fields after the loop of `mergeValues` has handled `keys` in order,
      starting from `m`. */
  function MergedFields(t: ClassTable, toCls: ClassId, fromCls: ClassId, fromFields: map<Field, Value>,
                        ignored: Option<seq<string>>, m: map<Field, Value>, keys: seq<string>): (r: map<Field, Value>)
    requires Instance(t, toCls, m) && Instance(t, fromCls, fromFields)
    ensures r.Keys == m.Keys
    decreases |keys|
  {
    if keys == [] then m
    else
      var prev := MergedFields(t, toCls, fromCls, fromFields, ignored, m, keys[..|keys| - 1]);
      var k := keys[|keys| - 1];
      if Processed(ignored, k) then CopyKey(t, toCls, fromCls, fromFields, prev, k) else prev
  }

  /** Field `f` of `to` is overwritten by the merge: its name is a processed key
      and resolves to `f` on `to`'s class and to some field on `from`'s class. */
  ghost predicate Written(t: ClassTable, toCls: ClassId, fromCls: ClassId,
                          ignored: Option<seq<string>>, keys: seq<string>, f: Field)
    requires ValidTable(t) && toCls in t && fromCls in t
  {
    && f.name in keys
    && Processed(ignored, f.name)
    && LastDeclaration(t, toCls, f.name) == Some(f)
    && LastDeclaration(t, fromCls, f.name).Some?
  }

  /** The outcome of the merge, independent of key order and repetitions: a
      written field holds `from`'s value of the field of that name, every other
      field keeps its value. */
  lemma {:induction false} MergedFieldsClosedForm(t: ClassTable, toCls: ClassId, fromCls: ClassId,
                                                  fromFields: map<Field, Value>, ignored: Option<seq<string>>,
                                                  m: map<Field, Value>, keys: seq<string>)
    requires Instance(t, toCls, m) && Instance(t, fromCls, fromFields)
    ensures forall f :: f in m ==>
      MergedFields(t, toCls, fromCls, fromFields, ignored, m, keys)[f] ==
        if Written(t, toCls, fromCls, ignored, keys, f)
        then fromFields[LastDeclaration(t, fromCls, f.name).value]
        else m[f]
    decreases |keys|
  {
    if keys != [] {
      var init := keys[..|keys| - 1];
      var k := keys[|keys| - 1];
      MergedFieldsClosedForm(t, toCls, fromCls, fromFields, ignored, m, init);
      assert keys == init + [k];
      forall f | f in m
        ensures f.name in keys <==> f.name in init || f.name == k
      {
      }
    }
  }

  /** Only the set of names collected matters: order and repetitions do not.
      In particular a name met at several depths rewrites the same value. */
  lemma KeyOrderIrrelevant(t: ClassTable, toCls: ClassId, fromCls: ClassId,
                           fromFields: map<Field, Value>, ignored: Option<seq<string>>,
                           m: map<Field, Value>, keys1: seq<string>, keys2: seq<string>)
    requires Instance(t, toCls, m) && Instance(t, fromCls, fromFields)
    requires forall k :: k in keys1 <==> k in keys2
    ensures MergedFields(t, toCls, fromCls, fromFields, ignored, m, keys1)
         == MergedFields(t, toCls, fromCls, fromFields, ignored, m, keys2)
  {
    MergedFieldsClosedForm(t, toCls, fromCls, fromFields, ignored, m, keys1);
    MergedFieldsClosedForm(t, toCls, fromCls, fromFields, ignored, m, keys2);
  }

  /** Merging the same `from` twice leaves `to` as merging once does. */
  lemma MergeIdempotent(t: ClassTable, toCls: ClassId, fromCls: ClassId,
                        fromFields: map<Field, Value>, ignored: Option<seq<string>>,
                        m: map<Field, Value>, keys: seq<string>)
    requires Instance(t, toCls, m) && Instance(t, fromCls, fromFields)
    ensures var once := MergedFields(t, toCls, fromCls, fromFields, ignored, m, keys);
            MergedFields(t, toCls, fromCls, fromFields, ignored, once, keys) == once
  {
    var once := MergedFields(t, toCls, fromCls, fromFields, ignored, m, keys);
    MergedFieldsClosedForm(t, toCls, fromCls, fromFields, ignored, m, keys);
    MergedFieldsClosedForm(t, toCls, fromCls, fromFields, ignored, once, keys);
  }

  /** Fields whose name is ignored, or is collected nowhere, keep their value;
      a `null` ignore array keeps every field. */
  lemma UnprocessedFieldsKept(t: ClassTable, toCls: ClassId, fromCls: ClassId,
                              fromFields: map<Field, Value>, ignored: Option<seq<string>>,
                              m: map<Field, Value>, keys: seq<string>)
    requires Instance(t, toCls, m) && Instance(t, fromCls, fromFields)
    ensures forall f :: f in m && (f.name !in keys || !Processed(ignored, f.name)) ==>
      MergedFields(t, toCls, fromCls, fromFields, ignored, m, keys)[f] == m[f]
    ensures ignored.None? ==> MergedFields(t, toCls, fromCls, fromFields, ignored, m, keys) == m
  {
    MergedFieldsClosedForm(t, toCls, fromCls, fromFields, ignored, m, keys);
  }

  /** What this copy's Gson settings give for an instance of `c`: nulls are
      serialised, so the decoded tree is a map holding the name of every field
      not in `excluded`. `excluded` holds every field Gson leaves out of the
      text or writes under another name: those tagged `@ExcludeFromJson`, and
      those Gson's own defaults skip or rename (`static` and `transient`
      fields, fields carrying `@SerializedName`). Each name so encoded is one
      the collector returns. */
  ghost predicate EncodesFields(t: ClassTable, c: ClassId, excluded: set<Field>, decoded: Json): (r: bool)
    requires ValidTable(t) && c in t
    ensures r ==> forall f :: IsDeclaredField(t, c, f) && f !in excluded ==> f.name in Keys(decoded)
  {
    decoded.JObj? && forall f :: IsDeclaredField(t, c, f) && f !in excluded ==> f.name in decoded.keys
  }

  /** Two objects of one class: every field whose name no other class on the
      chain declares, and that is neither excluded from the encoding nor
      ignored, takes `from`'s value (a `null` too); every ignored field keeps
      `to`'s value. */
  lemma MergeCopiesUnignoredFields(t: ClassTable, c: ClassId, excluded: set<Field>, decoded: Json,
                                   fromFields: map<Field, Value>, ignored: seq<string>, m: map<Field, Value>)
    requires Instance(t, c, m) && Instance(t, c, fromFields)
    requires EncodesFields(t, c, excluded, decoded)
    ensures forall f :: IsDeclaredField(t, c, f) && DeclaredAtMostOnce(t, c, f.name) &&
                        f !in excluded && f.name !in ignored ==>
      MergedFields(t, c, c, fromFields, Some(ignored), m, Keys(decoded))[f] == fromFields[f]
    ensures forall f :: f in m && f.name in ignored ==>
      MergedFields(t, c, c, fromFields, Some(ignored), m, Keys(decoded))[f] == m[f]
  {
    var keys := Keys(decoded);
    MergedFieldsClosedForm(t, c, c, fromFields, Some(ignored), m, keys);
    forall f | IsDeclaredField(t, c, f) && DeclaredAtMostOnce(t, c, f.name) && f !in excluded && f.name !in ignored
      ensures MergedFields(t, c, c, fromFields, Some(ignored), m, keys)[f] == fromFields[f]
    {
      LastDeclarationUnique(t, c, f);
    }
  }

  // ---------------------------------------------------------------------------
  // The imperative engine
  // ---------------------------------------------------------------------------

  /** `setFieldValues`: copies when both fields were found, else does nothing. */
  method SetFieldValues(to: JObject, fieldTo: Option<Field>, from: JObject, fieldFrom: Option<Field>)
    requires fieldFrom.Some? ==> fieldFrom.value in from.fields
    modifies to
    ensures fieldTo.Some? && fieldFrom.Some? ==>
      to.fields == old(to.fields)[fieldTo.value := old(from.fields)[fieldFrom.value]]
    ensures fieldTo.None? || fieldFrom.None? ==> to.fields == old(to.fields)
  {
    if fieldTo.Some? && fieldFrom.Some? {
      to.fields := to.fields[fieldTo.value := from.fields[fieldFrom.value]];
    }
  }

  /** `mergeValues`: sorts the ignore array in place, then copies each key that
      the binary search does not find. `from` is never written, even when it is
      `to` itself. */
  method MergeValues(t: ClassTable, keysFrom: seq<string>, to: JObject, from: JObject, ignored: array?<string>)
    requires Instance(t, to.cls, to.fields) && Instance(t, from.cls, from.fields)
    modifies to, ignored
    ensures ignored != null ==> JavaStrings.Sorted(ignored[..])
    ensures ignored != null ==> multiset(ignored[..]) == multiset(old(ignored[..]))
    ensures from.fields == old(from.fields)
    ensures to.fields == MergedFields(t, to.cls, from.cls, old(from.fields), old(IgnoreList(ignored)),
                                      old(to.fields), keysFrom)
  {
    ghost var m := to.fields;
    ghost var fromFields := from.fields;
    ghost var ign := IgnoreList(ignored);
    if ignored != null {
      JavaStrings.Sort(ignored);
    }
    var i := 0;
    while i < |keysFrom|
      invariant 0 <= i <= |keysFrom|
      invariant from.fields == fromFields
      invariant ignored != null ==> JavaStrings.Sorted(ignored[..])
      invariant ignored != null ==> multiset(ignored[..]) == multiset(ign.value)
      invariant to.fields == MergedFields(t, to.cls, from.cls, fromFields, ign, m, keysFrom[..i])
    {
      var key := keysFrom[i];
      var process := false;
      if ignored != null {
        var pos := JavaStrings.BinarySearch(ignored, key);
        process := pos < 0;
        ProcessedPermutation(ignored[..], ign.value, key);
      }
      assert process == Processed(ign, key);
      if process {
        var fieldTo := FindField(t, to.cls, key);
        var fieldFrom := FindField(t, from.cls, key);
        SetFieldValues(to, fieldTo, from, fieldFrom);
      }
      assert keysFrom[..i + 1][..i] == keysFrom[..i];
      i := i + 1;
    }
    assert keysFrom[..i] == keysFrom;
  }

  /** `merge(to, from, ignoredProperties...)`: `decoded` is what Gson yields for
      its own encoding of `from`. Returns `to`, updated in place. */
  method MergeIgnoring(t: ClassTable, to: JObject, from: JObject, ignored: array?<string>, decoded: Json)
    returns (r: JObject)
    requires Instance(t, to.cls, to.fields) && Instance(t, from.cls, from.fields)
    modifies to, ignored
    ensures r == to
    ensures ignored != null ==> JavaStrings.Sorted(ignored[..])
    ensures ignored != null ==> multiset(ignored[..]) == multiset(old(ignored[..]))
    ensures from.fields == old(from.fields)
    ensures to.fields == MergedFields(t, to.cls, from.cls, old(from.fields), old(IgnoreList(ignored)),
                                      old(to.fields), Keys(decoded))
  {
    var keys := GetKeysFromJson(decoded);
    MergeValues(t, keys, to, from, ignored);
    r := to;
  }

  /** `merge(to, from)`: `null` and no change when the runtime classes differ;
      otherwise the merge with an empty ignore array, which handles every key. */
  method Merge(t: ClassTable, to: JObject, from: JObject, decoded: Json) returns (r: JObject?)
    requires Instance(t, to.cls, to.fields) && Instance(t, from.cls, from.fields)
    modifies to
    ensures to.cls != from.cls ==> r == null && to.fields == old(to.fields)
    ensures to.cls == from.cls ==> r == to
    ensures from.fields == old(from.fields)
    ensures to.cls == from.cls ==>
      to.fields == MergedFields(t, to.cls, from.cls, old(from.fields), Some([]), old(to.fields), Keys(decoded))
  {
    r := null;
    if to.cls == from.cls {
      var none := new string[0];
      assert none[..] == [];
      r := MergeIgnoring(t, to, from, none, decoded);
    }
  }
}
