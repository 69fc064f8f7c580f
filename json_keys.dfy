/**
 * The key collector: `getKeysFromJson` and `collectAllTheKeys`, which flatten
 * the tree Gson yields when it decodes a JSON text to `Object` into the list of
 * every map key met at any depth. Both copies of the converter service carry
 * the same code for these two methods.
 */
module JsonKeys {

  /** What `gson.fromJson(json, Object.class)` yields: `null`, a scalar (its value
      never matters here), a `List` or a `Map`. A map is given by what the
      collector reads of it: `keySet()` and `values()`, in iteration order. */
  datatype Json =
    | JNull
    | JScalar(text: string)
    | JArr(items: seq<Json>)
    | JObj(keys: seq<string>, values: seq<Json>)

  /** The keys the collector appends for `j`, in order: a map's own keys come
      before the keys found inside its values; lists contribute their elements'
      keys; scalars and null contribute none. Duplicates are kept. */
  function Keys(j: Json): (r: seq<string>)
    ensures j.JObj? ==> j.keys <= r
    decreases j
  {
    match j
    case JNull => []
    case JScalar(_) => []
    case JArr(items) => KeysOfAll(items)
    case JObj(ks, vs) => ks + KeysOfAll(vs)
  }

  /** The keys of a list of values: each value's keys, in list order. */
  function KeysOfAll(js: seq<Json>): (r: seq<string>)
    decreases js
  {
    if js == [] then [] else Keys(js[0]) + KeysOfAll(js[1..])
  }

  /** Some map node reachable from `j` through maps and lists has key `k`. */
  ghost predicate HasKey(j: Json, k: string)
    decreases j
  {
    match j
    case JNull => false
    case JScalar(_) => false
    case JArr(items) => exists i :: 0 <= i < |items| && HasKey(items[i], k)
    case JObj(ks, vs) => k in ks || exists i :: 0 <= i < |vs| && HasKey(vs[i], k)
  }

  lemma {:induction false} KeysOfAllAppend(a: seq<Json>, b: seq<Json>)
    ensures KeysOfAll(a + b) == KeysOfAll(a) + KeysOfAll(b)
    decreases |a|
  {
    if a == [] {
      assert a + b == b;
    } else {
      assert (a + b)[1..] == a[1..] + b;
      KeysOfAllAppend(a[1..], b);
    }
  }

  /** Collecting the first `i + 1` elements of a list: the first `i`, then element `i`. */
  lemma KeysOfAllSnoc(js: seq<Json>, i: nat)
    requires i < |js|
    ensures KeysOfAll(js[..i + 1]) == KeysOfAll(js[..i]) + Keys(js[i])
  {
    assert js[..i + 1] == js[..i] + [js[i]];
    KeysOfAllAppend(js[..i], [js[i]]);
    assert KeysOfAll([js[i]]) == Keys(js[i]) + KeysOfAll([]);
  }

  /** Soundness and completeness of the collector: a name is collected exactly
      when some reachable map node has it as a key. */
  lemma {:induction false} KeysComplete(j: Json, k: string)
    ensures k in Keys(j) <==> HasKey(j, k)
    decreases j, 1
  {
    match j
    case JNull =>
    case JScalar(_) =>
    case JArr(items) =>
      KeysOfAllComplete(items, k);
    case JObj(ks, vs) =>
      KeysOfAllComplete(vs, k);
  }

  lemma {:induction false} KeysOfAllComplete(js: seq<Json>, k: string)
    ensures k in KeysOfAll(js) <==> exists i :: 0 <= i < |js| && HasKey(js[i], k)
    decreases js, 0
  {
    if js != [] {
      KeysComplete(js[0], k);
      KeysOfAllComplete(js[1..], k);
      if exists i :: 0 <= i < |js| && HasKey(js[i], k) {
        var i :| 0 <= i < |js| && HasKey(js[i], k);
        if i > 0 {
          assert js[1..][i - 1] == js[i];
        }
      }
      forall i | 0 <= i < |js| - 1 && HasKey(js[1..][i], k)
        ensures exists i' :: 0 <= i' < |js| && HasKey(js[i'], k)
      {
        assert js[1..][i] == js[i + 1];
      }
    }
  }

  /** A name nested in a list inside a map is collected again after the map's own
      keys: `{"id": 1, "items": [{"id": 2}]}` yields `id`, `items`, `id`. */
  lemma NestedNameCollectedTwice()
    ensures Keys(JObj(["id", "items"], [JScalar("1"), JArr([JObj(["id"], [JScalar("2")])])]))
            == ["id", "items", "id"]
  {
    var inner := JObj(["id"], [JScalar("2")]);
    assert Keys(JScalar("2")) == [];
    assert KeysOfAll([JScalar("2")]) == [] by {
      assert [JScalar("2")][1..] == [];
    }
    assert Keys(inner) == ["id"];
    assert KeysOfAll([inner]) == ["id"] by {
      assert [inner][1..] == [];
    }
  }

  /** The `ArrayList` the collector appends to. */
  class KeyList {
    var items: seq<string>

    constructor ()
      ensures items == []
    {
      items := [];
    }

    /** `addAll`: appends `ks` in order. */
    method AddAll(ks: seq<string>)
      modifies this
      ensures items == old(items) + ks
    {
      items := items + ks;
    }
  }

  /** `collectAllTheKeys(keys, object)`: a depth-first walk appending every map key to `keys`. */
  method CollectAllTheKeys(keys: KeyList, o: Json)
    modifies keys
    ensures keys.items == old(keys.items) + Keys(o)
    decreases o
  {
    var values: seq<Json>;
    if o.JObj? {
      keys.AddAll(o.keys);
      values := o.values;
    } else if o.JArr? {
      values := o.items;
    } else {
      return;
    }
    ghost var own := if o.JObj? then o.keys else [];
    var i := 0;
    while i < |values|
      invariant 0 <= i <= |values|
      invariant keys.items == old(keys.items) + own + KeysOfAll(values[..i])
    {
      KeysOfAllSnoc(values, i);
      CollectAllTheKeys(keys, values[i]);
      i := i + 1;
    }
    assert values[..i] == values;
  }

  /** `getKeysFromJson`, from the decoded tree on: a fresh list filled by the
      collector. Every name returned is a key of some reachable map node, and
      every such key is returned. */
  method GetKeysFromJson(things: Json) returns (keys: seq<string>)
    ensures keys == Keys(things)
    ensures forall k :: k in keys <==> HasKey(things, k)
  {
    var list := new KeyList();
    CollectAllTheKeys(list, things);
    keys := list.items;
    forall k
      ensures k in keys <==> HasKey(things, k)
    {
      KeysComplete(things, k);
    }
  }
}
