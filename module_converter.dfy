/**
 * The merge engine of the converter service in the net.ljcomputing.gson
 * project (the copy that builds a plain `new Gson()` for every call).
 *
 * It differs from the src/main copy in three ways: its `findField` returns the
 * first declaration met; its `merge(to, from)` passes a `null` ignore array, so
 * nothing is copied; and every exception is caught, per key inside the loop
 * and for the whole merge around it, so `merge` always returns `to`.
 *
 * `decoded` is what Gson yields when it decodes its own encoding of `from`, or
 * `None` when encoding or decoding threw.
 */
module ModuleConverter {
  import opened Wrappers
  import opened Reflection
  import opened JsonKeys
  import opened IgnoreArray
  import JavaStrings

  // ---------------------------------------------------------------------------
  // Field resolution
  // ---------------------------------------------------------------------------

  /** What this copy's `findField` yields: the declaration in the nearest class,
      starting at `c` itself, that declares `name`. */
  function FirstDeclaration(t: ClassTable, c: ClassId, name: string): (r: Option<Field>)
    requires ValidTable(t) && c in t
    ensures r.Some? ==> r.value.name == name && IsDeclaredField(t, c, r.value)
    decreases c
  {
    if name in t[c].declared then Some(Field(c, name))
    else match t[c].super
      case None => None
      case Some(s) => FirstDeclaration(t, s, name)
  }

  /** No field is found exactly when no class on the chain declares the name. */
  lemma {:induction false} FirstDeclarationNone(t: ClassTable, c: ClassId, name: string)
    requires ValidTable(t) && c in t
    ensures FirstDeclaration(t, c, name).None? <==> forall x :: x in Chain(t, c) ==> name !in t[x].declared
    decreases c
  {
    match t[c].super
    case None =>
    case Some(s) =>
      FirstDeclarationNone(t, s, name);
      assert Chain(t, c) == [c] + Chain(t, s);
  }

  /** No class between `c` and the class declaring the field found (subclasses
      carry larger numbers) declares the name. */
  lemma {:induction false} FirstDeclarationNearest(t: ClassTable, c: ClassId, name: string)
    requires ValidTable(t) && c in t
    requires FirstDeclaration(t, c, name).Some?
    ensures forall x :: x in Chain(t, c) && x > FirstDeclaration(t, c, name).value.owner ==> name !in t[x].declared
    decreases c
  {
    if name !in t[c].declared {
      match t[c].super
      case Some(s) =>
        assert Chain(t, c) == [c] + Chain(t, s);
        FirstDeclarationNearest(t, s, name);
    }
  }

  /** When no other class on the chain declares a field's name, the field found
      for that name is that field. */
  lemma FirstDeclarationUnique(t: ClassTable, c: ClassId, f: Field)
    requires ValidTable(t) && c in t && IsDeclaredField(t, c, f) && DeclaredAtMostOnce(t, c, f.name)
    ensures FirstDeclaration(t, c, f.name) == Some(f)
  {
    FirstDeclarationNone(t, c, f.name);
    var g := FirstDeclaration(t, c, f.name).value;
    var ch := Chain(t, c);
    var i :| 0 <= i < |ch| && ch[i] == f.owner;
    var j :| 0 <= j < |ch| && ch[j] == g.owner;
    assert f.name in t[ch[i]].declared && f.name in t[ch[j]].declared;
    assert i == j;
  }

  /** `findField(clazz, fieldName)`: walks `clazz` and its superclasses and
      returns the first declaration met, or `null`. */
  method FindField(t: ClassTable, clazz: ClassId, fieldName: string) returns (field: Option<Field>)
    requires ValidTable(t) && clazz in t
    ensures field == FirstDeclaration(t, clazz, fieldName)
    ensures field.None? <==> forall x :: x in Chain(t, clazz) ==> fieldName !in t[x].declared
    ensures field.Some? ==> field.value.name == fieldName && IsDeclaredField(t, clazz, field.value)
    ensures field.Some? ==>
      forall x :: x in Chain(t, clazz) && x > field.value.owner ==> fieldName !in t[x].declared
  {
    FirstDeclarationNone(t, clazz, fieldName);
    if FirstDeclaration(t, clazz, fieldName).Some? {
      FirstDeclarationNearest(t, clazz, fieldName);
    }
    var current: Option<ClassId> := Some(clazz);
    while current.Some?
      invariant current.Some? ==> current.value in t
      invariant FirstDeclaration(t, clazz, fieldName) ==
        if current.Some? then FirstDeclaration(t, current.value, fieldName) else None
      decreases if current.Some? then current.value + 1 else 0
    {
      if fieldName in t[current.value].declared {
        return Some(Field(current.value, fieldName));
      }
      current := t[current.value].super;
    }
    return None;
  }

  // ---------------------------------------------------------------------------
  // The merge, as a function of the field maps
  // ---------------------------------------------------------------------------

  /** One processed key applied to `to`'s fields `m`: when both classes resolve
      `k`, `to`'s field takes `from`'s value; when either does not, the
      dereference of `null` throws, the exception is caught, and `m` stays. */
  function CopyKey(t: ClassTable, toCls: ClassId, fromCls: ClassId, fromFields: map<Field, Value>,
                   m: map<Field, Value>, k: string): (r: map<Field, Value>)
    requires Instance(t, toCls, m) && Instance(t, fromCls, fromFields)
    ensures r.Keys == m.Keys
  {
    match FirstDeclaration(t, toCls, k)
    case None => m
    case Some(fieldTo) =>
      match FirstDeclaration(t, fromCls, k)
      case None => m
      case Some(fieldFrom) => m[fieldTo := fromFields[fieldFrom]]
  }

  /** `to`'s fields after the loop of `mergeValues` has handled `keys` in order,
      starting from `m`. */
  function MergedFields(t: ClassTable, toCls: ClassId, fromCls: ClassId, fromFields: map<Field, Value>,
                        ignored: Option<seq<string>>, m: map<Field, Value>, keys: seq<string>): (r: map<Field, Value>)
    requires Instance(t, toCls, m) && Instance(t, fromCls, fromFields)
    ensures r.Keys == m.Keys
    decreases |keys|
  {
    if keys == [] then m
    else
      var prev := MergedFields(t, toCls, fromCls, fromFields, ignored, m, keys[..|keys| - 1]);
      var k := keys[|keys| - 1];
      if Processed(ignored, k) then CopyKey(t, toCls, fromCls, fromFields, prev, k) else prev
  }

  /** Field `f` of `to` is overwritten by the merge. */
  ghost predicate Written(t: ClassTable, toCls: ClassId, fromCls: ClassId,
                          ignored: Option<seq<string>>, keys: seq<string>, f: Field)
    requires ValidTable(t) && toCls in t && fromCls in t
  {
    && f.name in keys
    && Processed(ignored, f.name)
    && FirstDeclaration(t, toCls, f.name) == Some(f)
    && FirstDeclaration(t, fromCls, f.name).Some?
  }

  /** The outcome of the merge: a written field holds `from`'s value of the field
      of that name, every other field keeps its value. A key that fails on one
      side leaves the keys after it to be handled as usual. */
  lemma {:induction false} MergedFieldsClosedForm(t: ClassTable, toCls: ClassId, fromCls: ClassId,
                                                  fromFields: map<Field, Value>, ignored: Option<seq<string>>,
                                                  m: map<Field, Value>, keys: seq<string>)
    requires Instance(t, toCls, m) && Instance(t, fromCls, fromFields)
    ensures forall f :: f in m ==>
      MergedFields(t, toCls, fromCls, fromFields, ignored, m, keys)[f] ==
        if Written(t, toCls, fromCls, ignored, keys, f)
        then fromFields[FirstDeclaration(t, fromCls, f.name).value]
        else m[f]
    decreases |keys|
  {
    if keys != [] {
      var init := keys[..|keys| - 1];
      var k := keys[|keys| - 1];
      MergedFieldsClosedForm(t, toCls, fromCls, fromFields, ignored, m, init);
      assert keys == init + [k];
      forall f | f in m
        ensures f.name in keys <==> f.name in init || f.name == k
      {
      }
    }
  }

  /** Only the set of names collected matters: order and repetitions do not.
      In particular a name met at several depths rewrites the same value. */
  lemma KeyOrderIrrelevant(t: ClassTable, toCls: ClassId, fromCls: ClassId,
                           fromFields: map<Field, Value>, ignored: Option<seq<string>>,
                           m: map<Field, Value>, keys1: seq<string>, keys2: seq<string>)
    requires Instance(t, toCls, m) && Instance(t, fromCls, fromFields)
    requires forall k :: k in keys1 <==> k in keys2
    ensures MergedFields(t, toCls, fromCls, fromFields, ignored, m, keys1)
         == MergedFields(t, toCls, fromCls, fromFields, ignored, m, keys2)
  {
    MergedFieldsClosedForm(t, toCls, fromCls, fromFields, ignored, m, keys1);
    MergedFieldsClosedForm(t, toCls, fromCls, fromFields, ignored, m, keys2);
  }

  /** Merging the same `from` twice leaves `to` as merging once does. */
  lemma MergeIdempotent(t: ClassTable, toCls: ClassId, fromCls: ClassId,
                        fromFields: map<Field, Value>, ignored: Option<seq<string>>,
                        m: map<Field, Value>, keys: seq<string>)
    requires Instance(t, toCls, m) && Instance(t, fromCls, fromFields)
    ensures var once := MergedFields(t, toCls, fromCls, fromFields, ignored, m, keys);
            MergedFields(t, toCls, fromCls, fromFields, ignored, once, keys) == once
  {
    var once := MergedFields(t, toCls, fromCls, fromFields, ignored, m, keys);
    MergedFieldsClosedForm(t, toCls, fromCls, fromFields, ignored, m, keys);
    MergedFieldsClosedForm(t, toCls, fromCls, fromFields, ignored, once, keys);
  }

  /** Fields whose name is ignored, or is collected nowhere, keep their value;
      a `null` ignore array keeps every field. */
  lemma UnprocessedFieldsKept(t: ClassTable, toCls: ClassId, fromCls: ClassId,
                              fromFields: map<Field, Value>, ignored: Option<seq<string>>,
                              m: map<Field, Value>, keys: seq<string>)
    requires Instance(t, toCls, m) && Instance(t, fromCls, fromFields)
    ensures forall f :: f in m && (f.name !in keys || !Processed(ignored, f.name)) ==>
      MergedFields(t, toCls, fromCls, fromFields, ignored, m, keys)[f] == m[f]
    ensures ignored.None? ==> MergedFields(t, toCls, fromCls, fromFields, ignored, m, keys) == m
  {
    MergedFieldsClosedForm(t, toCls, fromCls, fromFields, ignored, m, keys);
  }

  /** What a default `new Gson()` gives for an instance of `c` holding `fields`:
      a map holding the name of every field whose value is not `null` (null
      fields are left out of the text, so their names are not), except the
      fields in `skipped`. `skipped` holds every field Gson's defaults leave
      out or write under another name: `static` and `transient` fields, and
      fields carrying `@SerializedName`. Each name so encoded is one the
      collector returns. */
  ghost predicate EncodesNonNullFields(t: ClassTable, c: ClassId, skipped: set<Field>,
                                       fields: map<Field, Value>, decoded: Json): (r: bool)
    requires ValidTable(t) && c in t
    ensures r ==> forall f :: IsDeclaredField(t, c, f) && f in fields && fields[f] != Null && f !in skipped ==>
      f.name in Keys(decoded)
  {
    && decoded.JObj?
    && (forall f :: IsDeclaredField(t, c, f) && f in fields && fields[f] != Null && f !in skipped ==>
          f.name in decoded.keys)
  }

  /** Two objects of one class: every field whose name no other class on the
      chain declares, that is not skipped by the encoding, holds a value in
      `from` and is not ignored takes that value; every ignored field keeps
      `to`'s value. A field that is
      `null` in `from` is overwritten only if its name turns up elsewhere in
      the tree (UnprocessedFieldsKept). */
  lemma MergeCopiesNonNullFields(t: ClassTable, c: ClassId, skipped: set<Field>, decoded: Json,
                                 fromFields: map<Field, Value>, ignored: seq<string>, m: map<Field, Value>)
    requires Instance(t, c, m) && Instance(t, c, fromFields)
    requires EncodesNonNullFields(t, c, skipped, fromFields, decoded)
    ensures forall f :: IsDeclaredField(t, c, f) && DeclaredAtMostOnce(t, c, f.name) &&
                        f !in skipped && fromFields[f] != Null && f.name !in ignored ==>
      MergedFields(t, c, c, fromFields, Some(ignored), m, Keys(decoded))[f] == fromFields[f]
    ensures forall f :: f in m && f.name in ignored ==>
      MergedFields(t, c, c, fromFields, Some(ignored), m, Keys(decoded))[f] == m[f]
  {
    var keys := Keys(decoded);
    MergedFieldsClosedForm(t, c, c, fromFields, Some(ignored), m, keys);
    forall f | IsDeclaredField(t, c, f) && DeclaredAtMostOnce(t, c, f.name) && f !in skipped &&
               fromFields[f] != Null && f.name !in ignored
      ensures MergedFields(t, c, c, fromFields, Some(ignored), m, keys)[f] == fromFields[f]
    {
      FirstDeclarationUnique(t, c, f);
    }
  }

  // ---------------------------------------------------------------------------
  // The imperative engine
  // ---------------------------------------------------------------------------

  /** `mergeValues`: sorts a non-null ignore array in place, then for each key
      the binary search does not find, resolves the field on `to`'s class and,
      if found, on `from`'s class, and copies; a `null` field on either side
      throws inside the loop's `try` and only that key is lost. `from` is never
      written, even when it is `to` itself. */
  method MergeValues(t: ClassTable, keysFrom: seq<string>, to: JObject, from: JObject, ignored: array?<string>)
    requires Instance(t, to.cls, to.fields) && Instance(t, from.cls, from.fields)
    modifies to, ignored
    ensures ignored != null ==> JavaStrings.Sorted(ignored[..])
    ensures ignored != null ==> multiset(ignored[..]) == multiset(old(ignored[..]))
    ensures from.fields == old(from.fields)
    ensures to.fields == MergedFields(t, to.cls, from.cls, old(from.fields), old(IgnoreList(ignored)),
                                      old(to.fields), keysFrom)
  {
    ghost var m := to.fields;
    ghost var fromFields := from.fields;
    ghost var ign := IgnoreList(ignored);
    if ignored != null {
      JavaStrings.Sort(ignored);
    }
    var i := 0;
    while i < |keysFrom|
      invariant 0 <= i <= |keysFrom|
      invariant from.fields == fromFields
      invariant ignored != null ==> JavaStrings.Sorted(ignored[..])
      invariant ignored != null ==> multiset(ignored[..]) == multiset(ign.value)
      invariant to.fields == MergedFields(t, to.cls, from.cls, fromFields, ign, m, keysFrom[..i])
    {
      var key := keysFrom[i];
      var process := false;
      if ignored != null {
        var pos := JavaStrings.BinarySearch(ignored, key);
        process := pos < 0;
        ProcessedPermutation(ignored[..], ign.value, key);
      }
      assert process == Processed(ign, key);
      if process {
        var fieldTo := FindField(t, to.cls, key);
        if fieldTo.Some? {
          var fieldFrom := FindField(t, from.cls, key);
          if fieldFrom.Some? {
            to.fields := to.fields[fieldTo.value := from.fields[fieldFrom.value]];
          }
          // else: fieldFrom.setAccessible on null throws; caught, nothing written
        }
        // else: fieldTo.setAccessible on null throws; caught, nothing written
      }
      assert keysFrom[..i + 1][..i] == keysFrom[..i];
      i := i + 1;
    }
    assert keysFrom[..i] == keysFrom;
  }

  /** `merge(to, from, ignoredProperties)`: always returns `to`. When encoding
      or decoding `from` throws (`decoded` is `None`), the exception is caught
      before the ignore array is sorted and nothing changes. */
  method MergeIgnoring(t: ClassTable, to: JObject, from: JObject, ignored: array?<string>, decoded: Option<Json>)
    returns (r: JObject)
    requires Instance(t, to.cls, to.fields) && Instance(t, from.cls, from.fields)
    modifies to, ignored
    ensures r == to
    ensures from.fields == old(from.fields)
    ensures decoded.None? ==> to.fields == old(to.fields)
    ensures decoded.None? && ignored != null ==> ignored[..] == old(ignored[..])
    ensures decoded.Some? && ignored != null ==>
      JavaStrings.Sorted(ignored[..]) && multiset(ignored[..]) == multiset(old(ignored[..]))
    ensures decoded.Some? ==>
      to.fields == MergedFields(t, to.cls, from.cls, old(from.fields), old(IgnoreList(ignored)),
                                old(to.fields), Keys(decoded.value))
  {
    if decoded.Some? {
      var keys := GetKeysFromJson(decoded.value);
      MergeValues(t, keys, to, from, ignored);
    }
    r := to;
  }

  /** `merge(to, from)`: hands a `null` ignore array on, so no key passes the
      loop's guard; `to` is returned unchanged, whatever the classes. */
  method Merge(t: ClassTable, to: JObject, from: JObject, decoded: Option<Json>) returns (r: JObject)
    requires Instance(t, to.cls, to.fields) && Instance(t, from.cls, from.fields)
    modifies to
    ensures r == to
    ensures to.fields == old(to.fields)
    ensures from.fields == old(from.fields)
  {
    r := MergeIgnoring(t, to, from, null, decoded);
    if decoded.Some? {
      UnprocessedFieldsKept(t, to.cls, from.cls, old(from.fields), None, old(to.fields), Keys(decoded.value));
    }
  }
}
