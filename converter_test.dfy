/**
 * The repository's merge test, `test4Merge`: two `Thing`s (fields uuid, id,
 * key and value, directly below `Object`) that share a uuid, merged while
 * ignoring `uuid`; afterwards `to` equals `from`. Proved for both copies of
 * the service.
 */
module ConverterTest {
  import opened Wrappers
  import opened Reflection
  import opened JsonKeys
  import MainConverter
  import ModuleConverter

  /** `test4Merge` against the src/main copy: ignore `uuid`, both objects
      sharing one uuid; afterwards `to` equals `from`. */
  lemma ThingMergeMain(decoded: Json)
    requires decoded.JObj? && decoded.keys == ["uuid", "id", "key", "value"]
    ensures
      var t := ThingTable();
      var to := map[Field(1, "uuid") := Ref(7), Field(1, "id") := Ref(1),
                    Field(1, "key") := Ref(10), Field(1, "value") := Ref(100)];
      var from := map[Field(1, "uuid") := Ref(7), Field(1, "id") := Ref(100),
                      Field(1, "key") := Ref(1000), Field(1, "value") := Ref(10000)];
      Instance(t, 1, to) && Instance(t, 1, from) &&
      MainConverter.MergedFields(t, 1, 1, from, Some(["uuid"]), to, Keys(decoded)) == from
  {
    var t := ThingTable();
    var to := map[Field(1, "uuid") := Ref(7), Field(1, "id") := Ref(1),
                  Field(1, "key") := Ref(10), Field(1, "value") := Ref(100)];
    var from := map[Field(1, "uuid") := Ref(7), Field(1, "id") := Ref(100),
                    Field(1, "key") := Ref(1000), Field(1, "value") := Ref(10000)];
    ThingFields(to);
    ThingFields(from);
    MainConverter.MergeCopiesUnignoredFields(t, 1, {}, decoded, from, ["uuid"], to);
    var r := MainConverter.MergedFields(t, 1, 1, from, Some(["uuid"]), to, Keys(decoded));
    forall f | f in r
      ensures r[f] == from[f]
    {
      assert IsDeclaredField(t, 1, f);
    }
  }

  /** `test4Merge` against the net.ljcomputing.gson copy, whose configuration
      class the test names: every `Thing` field holds a value, so a default
      `new Gson()` writes all four names and the outcome is the same. */
  lemma ThingMergeModule(decoded: Json)
    requires decoded.JObj? && decoded.keys == ["uuid", "id", "key", "value"]
    ensures
      var t := ThingTable();
      var to := map[Field(1, "uuid") := Ref(7), Field(1, "id") := Ref(1),
                    Field(1, "key") := Ref(10), Field(1, "value") := Ref(100)];
      var from := map[Field(1, "uuid") := Ref(7), Field(1, "id") := Ref(100),
                      Field(1, "key") := Ref(1000), Field(1, "value") := Ref(10000)];
      Instance(t, 1, to) && Instance(t, 1, from) &&
      ModuleConverter.MergedFields(t, 1, 1, from, Some(["uuid"]), to, Keys(decoded)) == from
  {
    var t := ThingTable();
    var to := map[Field(1, "uuid") := Ref(7), Field(1, "id") := Ref(1),
                  Field(1, "key") := Ref(10), Field(1, "value") := Ref(100)];
    var from := map[Field(1, "uuid") := Ref(7), Field(1, "id") := Ref(100),
                    Field(1, "key") := Ref(1000), Field(1, "value") := Ref(10000)];
    ThingFields(to);
    ThingFields(from);
    ModuleConverter.MergeCopiesNonNullFields(t, 1, {}, decoded, from, ["uuid"], to);
    var r := ModuleConverter.MergedFields(t, 1, 1, from, Some(["uuid"]), to, Keys(decoded));
    forall f | f in r
      ensures r[f] == from[f]
    {
      assert IsDeclaredField(t, 1, f);
    }
  }

  /** `Object` (numbered 0, no fields) and the test's `Thing` (numbered 1). */
  function ThingTable(): (t: ClassTable)
    ensures ValidTable(t) && 1 in t && Chain(t, 1) == [1, 0]
    ensures forall name :: DeclaredAtMostOnce(t, 1, name)
    ensures forall f :: IsDeclaredField(t, 1, f) <==> f.owner == 1 && f.name in {"uuid", "id", "key", "value"}
  {
    var t := map[0 := ClassDecl({}, None), 1 := ClassDecl({"uuid", "id", "key", "value"}, Some(0))];
    assert Chain(t, 0) == [0];
    t
  }

  lemma ThingFields(m: map<Field, Value>)
    requires m.Keys == {Field(1, "uuid"), Field(1, "id"), Field(1, "key"), Field(1, "value")}
    ensures Instance(ThingTable(), 1, m)
  {
  }
}
