# Gson-driven object merge, modelled in Dafny

The converter service `GsonConverterServiceImpl` merges one Java object into
another. `merge(to, from, ignored...)` serialises `from` with Gson, decodes the
text back to a generic tree of maps, lists and scalars, collects every map key
found anywhere in that tree, and then, for each key not in the ignore array,
looks up a field of that name on `to`'s class and on `from`'s class (walking up
the superclass chain) and copies `from`'s value into `to`. `to` is updated in
place and returned.

The repository holds two copies of the service, and they behave differently.
Each copy has its own module:

| module | source file |
|---|---|
| `MainConverter` | `src/main/java/net/ljcomputing/gson/converter/impl/GsonConverterServiceImpl.java` |
| `ModuleConverter` | `net.ljcomputing.gson/src/main/java/net/ljcomputing/gson/converter/impl/GsonConverterServiceImpl.java` |

Shared modules:

- `JsonKeys`: the decoded tree (`Json`) and the key collector. `getKeysFromJson` and `collectAllTheKeys` are the same code in both copies. In the second copy they sit at lines 167-199, and the same members model them.
- `Reflection`: the class table (declared field names and superclass of each class), the superclass chain, `Field` (declaring class and name), and `JObject` (an object's runtime class and field values).
- `JavaStrings`: `String.compareTo`, `Arrays.sort` and `Arrays.binarySearch` on the ignore array.
- `IgnoreArray`: the ignore array and the guard of the merge loop, which are the same in both copies.
- `Wrappers`: `Option`.
- `Divergence`: where the two `findField`s agree and where they disagree.
- `ConverterTest`: the repository's merge test, for both copies.

Each merge has two layers:

- A specification. `MergedFields` gives `to`'s field map after the loop has handled a list of keys.
- Imperative methods. `FindField`, `MergeValues`, `MergeIgnoring` and `Merge` are proved equal to that specification.

The lemmas about `MergedFields` state what the merge promises. `MergedFieldsClosedForm` gives the outcome field by field. The other lemmas build on it, in both copies: duplicate or reordered keys do not matter, merging twice equals merging once, ignored or absent names are left alone, and the test scenario holds.

Gson itself is not modelled. The entry points take `decoded`, the tree Gson yields when it decodes its own encoding of `from`. What each copy's Gson settings guarantee about that tree is stated as a hypothesis of the lemmas that need it:

- `MainConverter.EncodesFields`: nulls are serialised, and every field outside a set `excluded` is written under its own name.
- `ModuleConverter.EncodesNonNullFields`: a default `new Gson()` omits null fields, and every other field outside a set `skipped` is written under its own name.

The sets `excluded` and `skipped` must hold every field Gson leaves out or renames: `static` and `transient` fields, and fields carrying `@SerializedName`. In the src/main copy, `excluded` also holds the fields tagged `@ExcludeFromJson`.

Modelling conventions:

- Classes are numbered so that every superclass has a smaller number than its subclasses. This is how the model states that the chain is acyclic. On a chain, "ancestor" therefore means "smaller number".
- A `Field` carries its declaring class, because a subclass may redeclare (hide) a superclass field name.
- Field values are `Null` or an opaque `Ref`.

What the code does, where it is easy to misread:

- **Key list with duplicates.** The collector gathers a list, not a set (src/main/java/net/ljcomputing/gson/converter/impl/GsonConverterServiceImpl.java:218-230). A map's own keys come before the keys nested in its values, and a name found at several depths is handled several times. `KeyOrderIrrelevant` proves that repeats and order do not change the outcome.
- **Which declaration wins.** The src/main `findField` keeps walking after a hit, so the most distant declaring ancestor wins (src/main/java/net/ljcomputing/gson/converter/impl/GsonConverterServiceImpl.java:120-127, `LastDeclaration`). The second copy returns the first hit (`FirstDeclaration`). `Divergence` shows that the two agree on a name exactly when at most one class on the chain declares it.
- **Null ignore array.** A `null` ignore array fails the loop's guard in both copies, so nothing is copied (src/main/java/net/ljcomputing/gson/converter/impl/GsonConverterServiceImpl.java:146 and :152, net.ljcomputing.gson/src/main/java/net/ljcomputing/gson/converter/impl/GsonConverterServiceImpl.java:141). The second copy's `merge(to, from)` passes `null`, so it never copies anything.
- **Class mismatch.** The src/main `merge(to, from)` returns `null` and leaves `to` untouched when the runtime classes differ (src/main/java/net/ljcomputing/gson/converter/impl/GsonConverterServiceImpl.java:93-97).
- **Null fields.** The second copy encodes with a default `new Gson()` (net.ljcomputing.gson/src/main/java/net/ljcomputing/gson/converter/impl/GsonConverterServiceImpl.java:51), which omits null fields. A null field of `from` therefore does not reach `to` unless its name appears elsewhere in the tree.

## Model

| member | source | states |
|---|---|---|
| `JavaStrings.CompareTo` | src/main/java/net/ljcomputing/gson/converter/impl/GsonConverterServiceImpl.java:146-153 | The order used to sort and search the ignore array compares to zero exactly for equal strings. |
| `JavaStrings.CompareAntisymmetric` | src/main/java/net/ljcomputing/gson/converter/impl/GsonConverterServiceImpl.java:146-153 | Swapping the arguments of the string comparison negates the result. |
| `JavaStrings.CompareTransitive` | src/main/java/net/ljcomputing/gson/converter/impl/GsonConverterServiceImpl.java:146-153 | The string order is transitive, which makes sorting and binary search meaningful. |
| `JavaStrings.SortedPairwise` | src/main/java/net/ljcomputing/gson/converter/impl/GsonConverterServiceImpl.java:146-148 | In a sorted array, every earlier element is at most every later one. |
| `JavaStrings.SortedPermutationUnique` | src/main/java/net/ljcomputing/gson/converter/impl/GsonConverterServiceImpl.java:146-148 | Two sorted arrangements of the same strings are equal, so the array's final state does not depend on the sort algorithm. |
| `JavaStrings.Sort` | src/main/java/net/ljcomputing/gson/converter/impl/GsonConverterServiceImpl.java:146-148 | Sorting the ignore array in place leaves it ascending and a permutation of its former contents. |
| `JavaStrings.Insert` | src/main/java/net/ljcomputing/gson/converter/impl/GsonConverterServiceImpl.java:146-148 | One insertion step extends the sorted prefix by one element and only permutes the array. |
| `JavaStrings.BinarySearch` | src/main/java/net/ljcomputing/gson/converter/impl/GsonConverterServiceImpl.java:152-153 | On a sorted array the result is negative exactly when the key is absent. Otherwise it is an index holding the key; when absent it encodes the insertion point. |
| `IgnoreArray.Processed` | src/main/java/net/ljcomputing/gson/converter/impl/GsonConverterServiceImpl.java:152-153 | The loop handles a key exactly when the ignore array is not `null` and does not contain it; the second copy's guard at net.ljcomputing.gson :141-143 is the same. |
| `IgnoreArray.ProcessedPermutation` | src/main/java/net/ljcomputing/gson/converter/impl/GsonConverterServiceImpl.java:146-153 | Sorting the ignore array before the loop does not change which keys the guard lets through. |
| `JsonKeys.Keys` | src/main/java/net/ljcomputing/gson/converter/impl/GsonConverterServiceImpl.java:215-231 | The keys `collectAllTheKeys` appends for a tree: a map's own key set comes first, ahead of the keys nested in its values. |
| `JsonKeys.KeysOfAll` | src/main/java/net/ljcomputing/gson/converter/impl/GsonConverterServiceImpl.java:228-230 | The keys appended for the values of a map or the elements of a list: each value's keys, in list order. Its properties are the three lemmas below. |
| `JsonKeys.KeysOfAllAppend` | src/main/java/net/ljcomputing/gson/converter/impl/GsonConverterServiceImpl.java:228-230 | Collecting a concatenation of values collects the first part's keys, then the second's. |
| `JsonKeys.KeysOfAllSnoc` | src/main/java/net/ljcomputing/gson/converter/impl/GsonConverterServiceImpl.java:228-230 | Each loop iteration appends the keys of the next value after those already collected. |
| `JsonKeys.KeysComplete` | src/main/java/net/ljcomputing/gson/converter/impl/GsonConverterServiceImpl.java:215-231 | A name is collected exactly when some map node reachable through maps and lists has it as a key; scalars and null give nothing. |
| `JsonKeys.KeysOfAllComplete` | src/main/java/net/ljcomputing/gson/converter/impl/GsonConverterServiceImpl.java:228-230 | A name is collected from a list of values exactly when one of them has a reachable map node with that key. |
| `JsonKeys.NestedNameCollectedTwice` | src/main/java/net/ljcomputing/gson/converter/impl/GsonConverterServiceImpl.java:218-230 | For example, `{"id": 1, "items": [{"id": 2}]}` yields id, items, id: the map's own keys come first, and the nested `id` is listed again. |
| `JsonKeys.KeyList.AddAll` | src/main/java/net/ljcomputing/gson/converter/impl/GsonConverterServiceImpl.java:220 | `addAll` appends the map's key set to the shared list, in order. |
| `JsonKeys.CollectAllTheKeys` | src/main/java/net/ljcomputing/gson/converter/impl/GsonConverterServiceImpl.java:215-231 | The recursive walk appends exactly the tree's collected keys to whatever the list already held. |
| `JsonKeys.GetKeysFromJson` | src/main/java/net/ljcomputing/gson/converter/impl/GsonConverterServiceImpl.java:201-206 | A fresh list is filled with exactly the keys of reachable map nodes, with duplicates and in walk order. |
| `Reflection.Chain` | src/main/java/net/ljcomputing/gson/converter/impl/GsonConverterServiceImpl.java:118-127 | The class and its superclasses, strictly decreasing, so the walk terminates and visits each class once. |
| `MainConverter.LastDeclaration` | src/main/java/net/ljcomputing/gson/converter/impl/GsonConverterServiceImpl.java:116-130 | A field is found only if it has the requested name and is declared by the class or one of its ancestors. |
| `MainConverter.LastDeclarationNone` | src/main/java/net/ljcomputing/gson/converter/impl/GsonConverterServiceImpl.java:116-130 | `findField` yields null exactly when no class on the superclass chain declares the name. |
| `MainConverter.LastDeclarationMostDistant` | src/main/java/net/ljcomputing/gson/converter/impl/GsonConverterServiceImpl.java:120-127 | Because the loop does not stop at a hit, no ancestor of the class owning the found field declares the name. |
| `MainConverter.LastDeclarationUnique` | src/main/java/net/ljcomputing/gson/converter/impl/GsonConverterServiceImpl.java:116-130 | When no other class on the chain declares a field's name, resolving that name yields that very field. |
| `MainConverter.FindField` | src/main/java/net/ljcomputing/gson/converter/impl/GsonConverterServiceImpl.java:116-130 | The do-while walk returns null iff no class on the chain declares the name. Otherwise it returns a declared field of that name with no declaring ancestor above its owner. |
| `MainConverter.CopyKey` | src/main/java/net/ljcomputing/gson/converter/impl/GsonConverterServiceImpl.java:154-165 | Handling one key never adds or removes fields of `to`. |
| `MainConverter.MergedFields` | src/main/java/net/ljcomputing/gson/converter/impl/GsonConverterServiceImpl.java:150-172 | After any list of keys, `to` still has exactly the fields it had. |
| `MainConverter.MergedFieldsClosedForm` | src/main/java/net/ljcomputing/gson/converter/impl/GsonConverterServiceImpl.java:146-192 | A field of `to` ends with `from`'s value (null included) exactly when its name is collected and not ignored and both classes resolve it, to this very field on `to`'s side; every other field keeps its value. |
| `MainConverter.KeyOrderIrrelevant` | src/main/java/net/ljcomputing/gson/converter/impl/GsonConverterServiceImpl.java:150-155 | Two key lists with the same names give the same result, so a name met at several depths rewrites the same value. |
| `MainConverter.MergeIdempotent` | src/main/java/net/ljcomputing/gson/converter/impl/GsonConverterServiceImpl.java:150-192 | Merging the same `from` a second time changes nothing further. |
| `MainConverter.UnprocessedFieldsKept` | src/main/java/net/ljcomputing/gson/converter/impl/GsonConverterServiceImpl.java:146-153 | Fields whose name is ignored or never collected keep their value, and a null ignore array copies nothing. |
| `MainConverter.EncodesFields` | src/main/java/net/ljcomputing/gson/converter/impl/GsonConverterServiceImpl.java:55-57 | With nulls serialised, every field not left out by the exclusion strategy or Gson's defaults has its name among the keys the collector returns. |
| `MainConverter.MergeCopiesUnignoredFields` | src/main/java/net/ljcomputing/gson/converter/impl/GsonConverterServiceImpl.java:55-57 | With nulls serialised and same class, every field whose name only one class on the chain declares and that is neither left out of the encoding (tagged, static, transient or renamed) nor ignored takes `from`'s value, null included, and every ignored field keeps `to`'s value. |
| `MainConverter.SetFieldValues` | src/main/java/net/ljcomputing/gson/converter/impl/GsonConverterServiceImpl.java:185-192 | When both fields are found, `to`'s field is set to `from`'s value; otherwise `to` is untouched. |
| `MainConverter.MergeValues` | src/main/java/net/ljcomputing/gson/converter/impl/GsonConverterServiceImpl.java:141-173 | Sorts a non-null ignore array into an ascending permutation. Leaves `from` unwritten, even when it is `to`, and leaves `to` as `MergedFields` of the old state. |
| `MainConverter.MergeIgnoring` | src/main/java/net/ljcomputing/gson/converter/impl/GsonConverterServiceImpl.java:104-107 | Returns the same `to` reference, merged with the keys collected from `from`'s decoded encoding. |
| `MainConverter.Merge` | src/main/java/net/ljcomputing/gson/converter/impl/GsonConverterServiceImpl.java:88-98 | On a class mismatch it returns null with `to` unchanged. Otherwise it returns `to`, merged with an empty ignore array. |
| `ModuleConverter.FirstDeclaration` | net.ljcomputing.gson/src/main/java/net/ljcomputing/gson/converter/impl/GsonConverterServiceImpl.java:107-119 | A field is found only if it has the requested name and is declared by the class or one of its ancestors. |
| `ModuleConverter.FirstDeclarationNone` | net.ljcomputing.gson/src/main/java/net/ljcomputing/gson/converter/impl/GsonConverterServiceImpl.java:107-119 | `findField` yields null exactly when no class on the superclass chain declares the name. |
| `ModuleConverter.FirstDeclarationNearest` | net.ljcomputing.gson/src/main/java/net/ljcomputing/gson/converter/impl/GsonConverterServiceImpl.java:110-116 | No class between the starting class and the owner of the found field declares the name. |
| `ModuleConverter.FirstDeclarationUnique` | net.ljcomputing.gson/src/main/java/net/ljcomputing/gson/converter/impl/GsonConverterServiceImpl.java:107-119 | When no other class on the chain declares a field's name, resolving that name yields that very field. |
| `ModuleConverter.FindField` | net.ljcomputing.gson/src/main/java/net/ljcomputing/gson/converter/impl/GsonConverterServiceImpl.java:107-119 | The walk with early return yields null iff no class on the chain declares the name. Otherwise it yields a declared field of that name, with no nearer class declaring it. |
| `ModuleConverter.CopyKey` | net.ljcomputing.gson/src/main/java/net/ljcomputing/gson/converter/impl/GsonConverterServiceImpl.java:141-154 | Handling one key, including one whose null field throws and is caught, never adds or removes fields of `to`. |
| `ModuleConverter.MergedFields` | net.ljcomputing.gson/src/main/java/net/ljcomputing/gson/converter/impl/GsonConverterServiceImpl.java:139-155 | After any list of keys, `to` still has exactly the fields it had. |
| `ModuleConverter.MergedFieldsClosedForm` | net.ljcomputing.gson/src/main/java/net/ljcomputing/gson/converter/impl/GsonConverterServiceImpl.java:135-155 | A field of `to` ends with `from`'s value exactly when its name is collected and not ignored and both classes resolve it, to this field on `to`'s side. Failed keys change nothing, and later keys are still applied. |
| `ModuleConverter.KeyOrderIrrelevant` | net.ljcomputing.gson/src/main/java/net/ljcomputing/gson/converter/impl/GsonConverterServiceImpl.java:139-143 | Two key lists with the same names give the same result in this copy too, so a name met at several depths rewrites the same value. |
| `ModuleConverter.MergeIdempotent` | net.ljcomputing.gson/src/main/java/net/ljcomputing/gson/converter/impl/GsonConverterServiceImpl.java:139-155 | Merging the same `from` a second time changes nothing further. |
| `ModuleConverter.UnprocessedFieldsKept` | net.ljcomputing.gson/src/main/java/net/ljcomputing/gson/converter/impl/GsonConverterServiceImpl.java:141-143 | Fields whose name is ignored or never collected keep their value, and a null ignore array copies nothing. |
| `ModuleConverter.EncodesNonNullFields` | net.ljcomputing.gson/src/main/java/net/ljcomputing/gson/converter/impl/GsonConverterServiceImpl.java:51 | Under a default `new Gson()`, every non-null field that is not static, transient or renamed has its name among the keys the collector returns. |
| `ModuleConverter.MergeCopiesNonNullFields` | net.ljcomputing.gson/src/main/java/net/ljcomputing/gson/converter/impl/GsonConverterServiceImpl.java:148 | Under default Gson encoding and same class, every non-ignored field whose name only one class on the chain declares, that is non-null in `from` and not static, transient or renamed takes `from`'s value, and ignored fields keep theirs. |
| `ModuleConverter.MergeValues` | net.ljcomputing.gson/src/main/java/net/ljcomputing/gson/converter/impl/GsonConverterServiceImpl.java:130-156 | Sorts a non-null ignore array into an ascending permutation. Never writes `from`, and leaves `to` as `MergedFields` of the old state, with per-key failures caught. |
| `ModuleConverter.MergeIgnoring` | net.ljcomputing.gson/src/main/java/net/ljcomputing/gson/converter/impl/GsonConverterServiceImpl.java:85-96 | Always returns `to`. If encoding throws, nothing changes, the ignore array included; otherwise `to` is merged as `MergedFields`. |
| `ModuleConverter.Merge` | net.ljcomputing.gson/src/main/java/net/ljcomputing/gson/converter/impl/GsonConverterServiceImpl.java:77-79 | Passes a null ignore array, so it returns `to` with no field changed, whatever the classes. |
| `Divergence.ResolversAgreeIffDeclaredOnce` | net.ljcomputing.gson/src/main/java/net/ljcomputing/gson/converter/impl/GsonConverterServiceImpl.java:107-119 | The two `findField`s give the same answer for a name exactly when at most one class on the chain declares it. |
| `Divergence.ResolversAgreeWhenDeclaredOnce` | net.ljcomputing.gson/src/main/java/net/ljcomputing/gson/converter/impl/GsonConverterServiceImpl.java:107-119 | With at most one declaring class on the chain, both copies resolve the name to the same field, or both to none. |
| `Divergence.ResolversDifferWhenHidden` | src/main/java/net/ljcomputing/gson/converter/impl/GsonConverterServiceImpl.java:116-130 | With two declaring classes, both copies find a field, and the src/main copy's lies in a more distant ancestor than the other copy's. |
| `Divergence.HiddenFieldResolvesApart` | src/main/java/net/ljcomputing/gson/converter/impl/GsonConverterServiceImpl.java:116-130 | When a subclass hides a superclass field, the src/main copy resolves to the superclass's field and the other copy to the subclass's. |
| `ConverterTest.ThingMergeMain` | src/test/java/net/ljcomputing/gson/converter/impl/GsonConverterServiceImplTest.java:99-103 | The repository's test against the src/main copy: ignoring `uuid` on two `Thing`s that share a uuid makes `to` equal to `from`. |
| `ConverterTest.ThingMergeModule` | src/test/java/net/ljcomputing/gson/converter/impl/GsonConverterServiceImplTest.java:99-103 | The same test against the net.ljcomputing.gson copy: all four fields hold values, so `to` ends equal to `from`. |
| `ConverterTest.ThingTable` | src/test/java/net/ljcomputing/gson/converter/impl/GsonConverterServiceImplTest.java:107-111 | `Thing` below `Object`: its fields are exactly uuid, id, key and value, and every name is declared by at most one class on the chain. |

## Left out

- `toJson` and both `fromJson` overloads, in both copies: one-line delegations to Gson, whose encoder and parser are not part of this model. The entry points take the decoded tree instead, and the effect of the Gson settings is a lemma hypothesis (`EncodesFields`, `EncodesNonNullFields`).
- A `static` field is one slot per class, shared by every instance, and `Field.set` on it changes all of them. The model gives each object its own slot for every declared field. Since Gson never writes a static field, one is overwritten only when its name is collected from elsewhere in the tree.
- Gson refuses to serialise a class that declares two fields with one JSON name (a hidden field); this is not modelled. The decoded tree is arbitrary, so hiding is still covered by the merge contracts.
- MainConverter.MergeIgnoring: an exception thrown by Gson while encoding or decoding propagates to the caller in this copy; the model takes an already decoded tree and has no such path.
- `Field.set` rejecting a value of the wrong type (`IllegalArgumentException`, caught per key in both copies) and access failures (`IllegalAccessException`, `SecurityException`) are not modelled; every field read and write succeeds.
- `null` elements in the ignore array are not modelled: Dafny strings are never null. In Java, an array with a `null` element and at least two entries makes `Arrays.sort` throw. With a single `null` entry, the sort compares nothing, and `Arrays.binarySearch` throws on the first key instead. The src/main copy catches neither, so the exception escapes `merge` (:147, :153, catch at :167). The second copy catches the sort's exception around the whole merge (:90) and the search's per key (:150), so `to` is returned unchanged.
- `String.compareTo` compares UTF-16 code units; the model compares Unicode scalar values, which order differently only for characters outside the Basic Multilingual Plane.
- `Arrays.sort` is a merge sort in the JDK; the model sorts by insertion. `SortedPermutationUnique` shows the final array is the same.
- A `null` `to` or `from`: `getClass()` throws; objects in the model are never null.
- The exclusion strategy class (annotation lookup, `shouldSkipClass` always false) appears only as the `excluded` field set in `MainConverter.EncodesFields`.
- Logging, `setAccessible`, the Spring configuration classes, and the service interface, which only has signatures.
- The values of scalars in the decoded tree, and Gson's decoding of numbers to `Double`. Only keys are used.
