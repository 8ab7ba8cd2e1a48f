/**
 * How the src and lib variants classify a field from its declared type:
 * `__kind` is LIST for list types, CONNECTION for a type whose printed form
 * ends in `Connection` (the Relay naming rule of section 2.1 of the GraphQL
 * Cursor Connections Specification), ONE otherwise; `__type` is the name of
 * the type unwrapped one level, with the first `Connection` removed for a
 * connection and blanked for an interface.
 */
module Classification {
  import opened Js
  import opened GraphQL

  datatype Kind = ONE | LIST | CONNECTION

  /** `__type` (undefined when the unwrapped type is still a wrapper) and `__kind`. */
  datatype Class = Class(typeName: Option<string>, kind: Kind)

  function Classify(schema: Schema, astType: TypeRef): Result<Class> {
    var targetType := Unwrap1(astType);
    var typeName := NameOf(targetType);
    var kind := if StartsWith(Print(astType), "[") then LIST else ONE;
    if EndsWith(Print(astType), Connection) then
      if typeName.None? then Err(MissingTypeName)
      else Ok(Class(BlankInterface(schema, targetType, Some(ReplaceFirst(typeName.value, Connection, ""))), CONNECTION))
    else Ok(Class(BlankInterface(schema, targetType, typeName), kind))
  }

  /** `targetType.astNode && targetType.astNode.kind === 'InterfaceTypeDefinition' ? '' : typeName`. */
  function BlankInterface(schema: Schema, targetType: TypeRef, typeName: Option<string>): Option<string> {
    if HasAstNode(schema, Some(targetType)) && IsInterface(schema, targetType) then Some("") else typeName
  }

  predicate IsConnectionType(t: TypeRef) {
    t.Named? && EndsWith(t.name, Connection)
  }

  /** The classification of every type graphql-js can build: CONNECTION exactly
      for a named type ending in `Connection`, LIST exactly for list types,
      ONE for the rest; the type name is blank for an interface target, the
      name with its first `Connection` removed for a connection, and the name
      of the type unwrapped one level otherwise. */
  lemma ClassifyMeaning(schema: Schema, astType: TypeRef)
    requires WellFormed(astType)
    ensures Classify(schema, astType).Ok?
    ensures Classify(schema, astType).value.kind == CONNECTION <==> IsConnectionType(astType)
    ensures Classify(schema, astType).value.kind == LIST <==> IsListType(astType)
    ensures Classify(schema, astType).value.kind == ONE <==> !IsListType(astType) && !IsConnectionType(astType)
    ensures Classify(schema, astType).value.typeName ==
              if IsInterface(schema, Unwrap1(astType)) then Some("")
              else if IsConnectionType(astType) then Some(ReplaceFirst(astType.name, Connection, ""))
              else NameOf(Unwrap1(astType))
  {
    PrintStartsWithBracket(astType);
    PrintEndsWithConnection(astType);
  }

  /** For a named type ending in `Connection`, as in the tests' `ActorConnection`,
      the type name is the text before it when `Connection` occurs nowhere
      earlier. */
  lemma ConnectionTypeName(schema: Schema, base: string)
    requires IsName(base + Connection) && !IsInterface(schema, Named(base + Connection))
    requires forall j :: 0 <= j < |base| ==> !OccursAt(base + Connection, Connection, j)
    ensures Classify(schema, Named(base + Connection)) == Ok(Class(Some(base), CONNECTION))
  {
    var s := base + Connection;
    assert s[|base|..|base| + |Connection|] == Connection;
    assert OccursAt(s, Connection, |base|);
    ReplaceFirstAt(s, Connection, "", |base|);
    assert s[..|base|] == base && s[|base| + |Connection|..] == [];
    assert s[..|base|] + "" + s[|base| + |Connection|..] == base;
    assert s[|s| - |Connection|..] == Connection;
    assert EndsWith(Print(Named(s)), Connection);
  }
}
