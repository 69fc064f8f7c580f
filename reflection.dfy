/**
 * The part of Java reflection the merge engine uses: each class's declared
 * field names (`getDeclaredField`), its superclass (`getSuperclass`), and the
 * values an object holds in its fields (`Field.get`, `Field.set`).
 */
module Reflection {
  import opened Wrappers

  /** Classes are numbered so that a superclass has a smaller number than each
      of its subclasses; any acyclic hierarchy can be numbered so. */
  type ClassId = nat

  datatype ClassDecl = ClassDecl(declared: set<string>, super: Option<ClassId>)

  type ClassTable = map<ClassId, ClassDecl>

  /** Every superclass is in the table and numbered below its subclass. */
  predicate ValidTable(t: ClassTable)
  {
    forall c :: c in t && t[c].super.Some? ==> t[c].super.value in t && t[c].super.value < c
  }

  /** A `java.lang.reflect.Field`: a name together with the class that declares
      it, since a subclass may declare a field of the same name as one of its
      superclasses. */
  datatype Field = Field(owner: ClassId, name: string)

  /** A field's content: `null`, or some other value, told apart by identity. */
  datatype Value = Null | Ref(id: nat)

  /** `c`, its superclass, that class's superclass, and so on up to the root. */
  function Chain(t: ClassTable, c: ClassId): (r: seq<ClassId>)
    requires ValidTable(t) && c in t
    ensures |r| > 0 && r[0] == c
    ensures forall i :: 0 <= i < |r| ==> r[i] in t
    ensures forall i, j :: 0 <= i < j < |r| ==> r[j] < r[i]
    ensures t[c].super.None? ==> |r| == 1
    ensures t[c].super.Some? ==> r[1..] == Chain(t, t[c].super.value)
    decreases c
  {
    match t[c].super
    case None => [c]
    case Some(s) => [c] + Chain(t, s)
  }

  /** `f` is a field an instance of class `c` has: declared by `c` or an ancestor. */
  predicate IsDeclaredField(t: ClassTable, c: ClassId, f: Field)
    requires ValidTable(t) && c in t
  {
    f.owner in Chain(t, c) && f.name in t[f.owner].declared
  }

  /** `fields` holds a value for every field of an instance of class `c`. */
  ghost predicate Instance(t: ClassTable, c: ClassId, fields: map<Field, Value>)
  {
    && ValidTable(t)
    && c in t
    && forall f :: IsDeclaredField(t, c, f) ==> f in fields
  }

  /** At most one class on the chain of `c` declares `name`: that name is not hidden. */
  predicate DeclaredAtMostOnce(t: ClassTable, c: ClassId, name: string)
    requires ValidTable(t) && c in t
  {
    var ch := Chain(t, c);
    forall i, j :: 0 <= i < j < |ch| ==> !(name in t[ch[i]].declared && name in t[ch[j]].declared)
  }

  /** A Java object: its runtime class, which never changes, and its field values. */
  class JObject {
    const cls: ClassId
    var fields: map<Field, Value>

    constructor (cls: ClassId, fields: map<Field, Value>)
      ensures this.cls == cls && this.fields == fields
    {
      this.cls := cls;
      this.fields := fields;
    }
  }
}
