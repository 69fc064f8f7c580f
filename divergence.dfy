/**
 * Where the two copies of `findField` part ways: they agree on a name
 * exactly when at most one class along the superclass chain declares it.
 */
module Divergence {
  import opened Wrappers
  import opened Reflection
  import MainConverter
  import ModuleConverter

  /** The two resolvers give the same answer for `name` exactly when at most
      one class on the chain declares it. */
  lemma ResolversAgreeIffDeclaredOnce(t: ClassTable, c: ClassId, name: string)
    requires ValidTable(t) && c in t
    ensures MainConverter.LastDeclaration(t, c, name) == ModuleConverter.FirstDeclaration(t, c, name)
            <==> DeclaredAtMostOnce(t, c, name)
  {
    if DeclaredAtMostOnce(t, c, name) {
      ResolversAgreeWhenDeclaredOnce(t, c, name);
    } else {
      ResolversDifferWhenHidden(t, c, name);
    }
  }

  /** With one declaring class on the chain, both resolvers find its field;
      with none, both find nothing. */
  lemma ResolversAgreeWhenDeclaredOnce(t: ClassTable, c: ClassId, name: string)
    requires ValidTable(t) && c in t && DeclaredAtMostOnce(t, c, name)
    ensures MainConverter.LastDeclaration(t, c, name) == ModuleConverter.FirstDeclaration(t, c, name)
  {
    MainConverter.LastDeclarationNone(t, c, name);
    ModuleConverter.FirstDeclarationNone(t, c, name);
    var last := MainConverter.LastDeclaration(t, c, name);
    var first := ModuleConverter.FirstDeclaration(t, c, name);
    if first.Some? {
      var ch := Chain(t, c);
      var i :| 0 <= i < |ch| && ch[i] == first.value.owner;
      var j :| 0 <= j < |ch| && ch[j] == last.value.owner;
      assert name in t[ch[i]].declared && name in t[ch[j]].declared;
      assert i == j;
    }
  }

  /** With two declaring classes on the chain, the src/main copy resolves to a
      class at least as distant as the farther one and the other copy to one at
      least as near as the nearer one, so the two answers differ. */
  lemma ResolversDifferWhenHidden(t: ClassTable, c: ClassId, name: string)
    requires ValidTable(t) && c in t && !DeclaredAtMostOnce(t, c, name)
    ensures MainConverter.LastDeclaration(t, c, name).Some?
    ensures ModuleConverter.FirstDeclaration(t, c, name).Some?
    ensures MainConverter.LastDeclaration(t, c, name).value.owner
          < ModuleConverter.FirstDeclaration(t, c, name).value.owner
  {
    var ch := Chain(t, c);
    var i, j :| 0 <= i < j < |ch| && name in t[ch[i]].declared && name in t[ch[j]].declared;
    MainConverter.LastDeclarationNone(t, c, name);
    ModuleConverter.FirstDeclarationNone(t, c, name);
    assert ch[i] in ch && ch[j] in ch;
    MainConverter.LastDeclarationMostDistant(t, c, name);
    ModuleConverter.FirstDeclarationNearest(t, c, name);
  }

  /** A subclass (1) re-declaring `id` of its superclass (0): the src/main copy
      resolves to the superclass's field, the other copy to the subclass's. */
  lemma HiddenFieldResolvesApart()
    ensures
      var t := map[0 := ClassDecl({"id"}, None), 1 := ClassDecl({"id"}, Some(0))];
      && ValidTable(t)
      && MainConverter.LastDeclaration(t, 1, "id") == Some(Field(0, "id"))
      && ModuleConverter.FirstDeclaration(t, 1, "id") == Some(Field(1, "id"))
  {
  }
}
