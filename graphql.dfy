/**
 * The parts of graphql-js that the analyzer reads: the query AST, the schema's
 * type graph, type references with their printed form, and the resolve-info
 * context handed to a field resolver.
 */
module GraphQL {
  import opened Js

  // ---------------------------------------------------------------- query AST

  /** A value node of the query document.  Int and Float literals keep their
      raw source text, as graphql-js stores them. */
  datatype ValueNode =
    | Variable(name: string)
    | IntValue(raw: string)
    | FloatValue(raw: string)
    | StringValue(text: string)
    | BooleanValue(flag: bool)
    | NullValue
    | EnumValue(symbol: string)
    | ListValue(values: seq<ValueNode>)
    | ObjectValue(fields: seq<Argument>)

  /** An argument `name: value`; also an object field inside an object value. */
  datatype Argument = Argument(name: string, value: ValueNode)

  datatype Directive = Directive(name: string, arguments: seq<Argument>)

  /** A Field's `selectionSet` is the list of its selections; the parser never
      produces an empty selection set, so `[]` stands for a leaf field, whose
      `selectionSet` property is undefined. */
  datatype Selection =
    | Field(name: string, alias: Option<string>, arguments: seq<Argument>,
            directives: seq<Directive>, selectionSet: seq<Selection>)
    | InlineFragment(typeCondition: Option<string>, directives: seq<Directive>,
                     selections: seq<Selection>)
    | FragmentSpread(name: string, directives: seq<Directive>)

  datatype FragmentDef = FragmentDef(typeCondition: string, selections: seq<Selection>)

  /** The `asts` parameter of the walkers: an array of nodes (the resolver's
      field nodes), a single Field or InlineFragment node, or a fragment
      definition. */
  datatype Asts =
    | Nodes(nodes: seq<Selection>)
    | Single(node: Selection)
    | Definition(fragment: FragmentDef)

  // ------------------------------------------------------------------- schema

  datatype TypeRef = Named(name: string) | ListOf(itemType: TypeRef) | NonNull(ofType: TypeRef)

  /** The AST kind of a named type's definition; built-in scalars have no
      definition node at all. */
  datatype TypeKind =
    | ObjectKind | InterfaceKind | InputObjectKind | UnionKind | EnumKind | ScalarKind
    | BuiltinScalarKind

  datatype ArgDef = ArgDef(name: string, argType: TypeRef, defaultValue: Option<ValueNode>)

  /** A field as declared in the schema, with the directives written on its
      declaration. */
  datatype FieldDef = FieldDef(fieldType: TypeRef, args: seq<ArgDef>, directives: seq<Directive>)

  datatype TypeDef = TypeDef(kind: TypeKind, fields: map<string, FieldDef>)

  datatype DirectiveDef = DirectiveDef(args: seq<ArgDef>)

  datatype Schema = Schema(types: map<string, TypeDef>, directiveDefs: map<string, DirectiveDef>)

  /** The resolver's `info` argument (GraphQLResolveInfo). */
  datatype ResolveInfo = ResolveInfo(
    fieldNodes: seq<Selection>,
    returnType: TypeRef,
    schema: Schema,
    fragments: map<string, FragmentDef>,
    variableValues: map<string, JsValue>)

  // ------------------------------------------------------------------- errors

  /** Why a call throws.  Everything but UndefinedDirective is a TypeError in
      the source (a property read on `undefined`, or a missing method). */
  datatype Error =
    | MissingConditionArgument(directive: string)   // `arguments[0]` of an argument-less @include/@skip
    | NoSelectionSet                                // `source.selectionSet.selections` of a leaf node
    | NotCompositeType                              // `getFields()` on undefined, a wrapper or a leaf type
    | MissingAstNode                                // `astNode.kind` of a type with no definition node
    | FieldNotDeclared(field: string)               // `getFields()[name].type` of an undeclared field
    | MissingTypeName                               // a string method called on `targetType.name` undefined
    | UndefinedDirective(directive: string)         // thrown on purpose by the strict variant
    | Foreign(message: string)                      // raised by the foreign argument coercion
    | StackOverflow                                 // recursion deeper than the fuel: a cyclic expansion

  datatype Result<+T> = Ok(value: T) | Err(error: Error)

  // ------------------------------------------------------------ type printing

  const Connection: string := "Connection"

  /** `GraphQLType.toString()`. */
  function Print(t: TypeRef): string {
    match t
    case Named(n) => n
    case ListOf(u) => "[" + Print(u) + "]"
    case NonNull(u) => Print(u) + "!"
  }

  predicate StartsWith(s: string, p: string) { |p| <= |s| && s[..|p|] == p }

  predicate EndsWith(s: string, p: string) { |p| <= |s| && s[|s| - |p|..] == p }

  /** `String.prototype.replace(pattern, replacement)` with a string pattern:
      only the first occurrence is replaced. */
  function ReplaceFirst(s: string, pattern: string, replacement: string): string
    requires pattern != []
  {
    if |s| < |pattern| then s
    else if s[..|pattern|] == pattern then replacement + s[|pattern|..]
    else [s[0]] + ReplaceFirst(s[1..], pattern, replacement)
  }

  predicate OccursAt(s: string, pattern: string, i: nat) {
    i + |pattern| <= |s| && s[i..i + |pattern|] == pattern
  }

  /** `replace` cuts out the first occurrence of the pattern and only that one. */
  lemma {:induction false} ReplaceFirstAt(s: string, pattern: string, replacement: string, i: nat)
    requires pattern != [] && OccursAt(s, pattern, i)
    requires forall j :: 0 <= j < i ==> !OccursAt(s, pattern, j)
    ensures ReplaceFirst(s, pattern, replacement) == s[..i] + replacement + s[i + |pattern|..]
    decreases i
  {
    if i == 0 {
      assert s[..|pattern|] == s[0..0 + |pattern|];
    } else {
      var t := s[1..];
      ReplaceFirstSkips(s, pattern, replacement);
      ShiftOccurrences(s, pattern, i);
      ReplaceFirstAt(t, pattern, replacement, i - 1);
      assert [s[0]] + t[..i - 1] == s[..i];
      assert t[i - 1 + |pattern|..] == s[i + |pattern|..];
    }
  }

  lemma ReplaceFirstSkips(s: string, pattern: string, replacement: string)
    requires pattern != [] && |pattern| <= |s| && !OccursAt(s, pattern, 0)
    ensures ReplaceFirst(s, pattern, replacement) == [s[0]] + ReplaceFirst(s[1..], pattern, replacement)
  {
    assert s[..|pattern|] == s[0..0 + |pattern|];
  }

  lemma ShiftOccurrences(s: string, pattern: string, i: nat)
    requires 0 < i && OccursAt(s, pattern, i)
    requires forall j :: 0 <= j < i ==> !OccursAt(s, pattern, j)
    ensures OccursAt(s[1..], pattern, i - 1)
    ensures forall j :: 0 <= j < i - 1 ==> !OccursAt(s[1..], pattern, j)
  {
    var t := s[1..];
    assert t[i - 1..i - 1 + |pattern|] == s[i..i + |pattern|];
    forall j | 0 <= j < i - 1 ensures !OccursAt(t, pattern, j) {
      assert !OccursAt(s, pattern, j + 1);
      assert t[j..j + |pattern|] == s[j + 1..j + 1 + |pattern|];
    }
  }

  /** A GraphQL Name (section 2.1.9 of the GraphQL specification, June 2018). */
  predicate IsName(s: string) {
    && |s| > 0
    && !('0' <= s[0] <= '9')
    && forall i :: 0 <= i < |s| ==> s[i] == '_' || 'a' <= s[i] <= 'z' || 'A' <= s[i] <= 'Z' || '0' <= s[i] <= '9'
  }

  /** A type reference graphql-js can build: GraphQL names, and no non-null
      wrapper directly around another. */
  predicate WellFormed(t: TypeRef) {
    match t
    case Named(n) => IsName(n)
    case ListOf(u) => WellFormed(u)
    case NonNull(u) => !u.NonNull? && WellFormed(u)
  }

  /** `t.ofType || t`: one wrapper peeled, a named type left alone. */
  function Unwrap1(t: TypeRef): TypeRef {
    match t
    case Named(_) => t
    case ListOf(u) => u
    case NonNull(u) => u
  }

  /** `t.name`: only named types have one. */
  function NameOf(t: TypeRef): Option<string> {
    if t.Named? then Some(t.name) else None
  }

  /** A list type, possibly made non-null. */
  predicate IsListType(t: TypeRef) {
    t.ListOf? || (t.NonNull? && t.ofType.ListOf?)
  }

  lemma {:induction false} PrintNonEmpty(t: TypeRef)
    requires WellFormed(t)
    ensures |Print(t)| > 0
  {
    match t
    case Named(_) =>
    case ListOf(_) =>
    case NonNull(u) => PrintNonEmpty(u);
  }

  /** The printed type starts with `[` exactly for list types. */
  lemma {:induction false} PrintStartsWithBracket(t: TypeRef)
    requires WellFormed(t)
    ensures StartsWith(Print(t), "[") <==> IsListType(t)
  {
    match t
    case Named(n) =>
    case ListOf(u) =>
    case NonNull(u) =>
      PrintNonEmpty(u);
      assert Print(t)[..1] == Print(u)[..1];
      match u
      case Named(_) =>
      case ListOf(_) =>
  }

  /** The printed type ends with `Connection` exactly for a named type whose
      name does: wrappers print a closing `]` or `!` last. */
  lemma {:induction false} PrintEndsWithConnection(t: TypeRef)
    ensures EndsWith(Print(t), Connection) <==> t.Named? && EndsWith(t.name, Connection)
  {
    match t
    case Named(_) =>
    case ListOf(u) =>
      assert Print(t)[|Print(t)| - 1] == ']';
    case NonNull(u) =>
      assert Print(t)[|Print(t)| - 1] == '!';
  }

  // -------------------------------------------------------- schema lookups

  /** `getType(name).astNode.kind === 'InterfaceTypeDefinition'`. */
  predicate IsInterface(schema: Schema, t: TypeRef) {
    t.Named? && t.name in schema.types && schema.types[t.name].kind == InterfaceKind
  }

  /** Whether the type object has an `astNode` (named types defined in SDL). */
  predicate HasAstNode(schema: Schema, t: Option<TypeRef>) {
    && t.Some? && t.value.Named? && t.value.name in schema.types
    && schema.types[t.value.name].kind != BuiltinScalarKind
  }

  predicate HasFields(kind: TypeKind) {
    kind == ObjectKind || kind == InterfaceKind || kind == InputObjectKind
  }

  /** `t.getFields()`: present on object, interface and input object types;
      calling it on `undefined`, a wrapper or a leaf type throws. */
  function FieldsOf(schema: Schema, t: Option<TypeRef>): Result<map<string, FieldDef>> {
    if t.Some? && t.value.Named? && t.value.name in schema.types && HasFields(schema.types[t.value.name].kind)
    then Ok(schema.types[t.value.name].fields)
    else Err(NotCompositeType)
  }

  /** `t.getFields()[name]` exists: the parent type has fields and declares `name`. */
  predicate Declared(schema: Schema, t: Option<TypeRef>, name: string) {
    FieldsOf(schema, t).Ok? && name in FieldsOf(schema, t).value
  }

  /** `schema.getType(name)`. */
  function GetType(schema: Schema, name: string): Option<TypeRef> {
    if name in schema.types then Some(Named(name)) else None
  }

  /** `schema.getType((info.returnType.ofType || info.returnType).toString())`:
      the walkers' default parent type. */
  function RootType(info: ResolveInfo): Option<TypeRef> {
    GetType(info.schema, Print(Unwrap1(info.returnType)))
  }

  /** `parentType || context.schema.getType(node)`: the walkers' parent type,
      the root type when none is passed. */
  function Effective(info: ResolveInfo, parent: Option<TypeRef>): Option<TypeRef> {
    if parent.Some? then parent else RootType(info)
  }

  // ------------------------------------------------- selections of a source

  /** What a fragment spread recurses into: `context.fragments[name]`, and for
      an unknown name `undefined`, which the walkers' default parameter
      replaces with the resolver's field nodes. */
  function SpreadSource(info: ResolveInfo, name: string): Asts {
    if name in info.fragments then Definition(info.fragments[name]) else Nodes(info.fieldNodes)
  }

  /** `if (ast.selectionSet)` on a Field node. */
  predicate HasSelectionSet(s: Selection) {
    s.Field? && s.selectionSet != []
  }

  /** `source.selectionSet.selections` of one node. */
  function NodeSelections(s: Selection): (r: Result<seq<Selection>>)
    ensures r.Ok? ==> SizeList(r.value) < Size(s)
  {
    match s
    case Field(_, _, _, _, cs) => if cs != [] then Ok(cs) else Err(NoSelectionSet)
    case InlineFragment(_, _, sels) => Ok(sels)
    case FragmentSpread(_, _) => Err(NoSelectionSet)
  }

  /** The selections of every node of an array, concatenated in order. */
  function ConcatSelections(nodes: seq<Selection>): Result<seq<Selection>> {
    if nodes == [] then Ok([])
    else match NodeSelections(nodes[0])
      case Err(e) => Err(e)
      case Ok(first) =>
        match ConcatSelections(nodes[1..])
        case Err(e) => Err(e)
        case Ok(rest) => Ok(first + rest)
  }

  /** `[].concat(...asts.map(s => s.selectionSet.selections))` after a single
      node has been wrapped into an array. */
  function Selections(asts: Asts): Result<seq<Selection>> {
    match asts
    case Nodes(ns) => ConcatSelections(ns)
    case Single(s) => NodeSelections(s)
    case Definition(d) => Ok(d.selections)
  }

  /** The `typeCondition` property of the `asts` object (an array has none). */
  function TypeConditionOf(asts: Asts): Option<string> {
    match asts
    case Nodes(_) => None
    case Single(s) => if s.InlineFragment? then s.typeCondition else None
    case Definition(d) => Some(d.typeCondition)
  }

  // ------------------------------------------------- termination measures

  function Size(s: Selection): nat
    decreases s
  {
    match s
    case Field(_, _, _, _, cs) => 1 + SizeList(cs)
    case InlineFragment(_, _, sels) => 1 + SizeList(sels)
    case FragmentSpread(_, _) => 1
  }

  function SizeList(ss: seq<Selection>): nat
    decreases ss
  {
    if ss == [] then 0 else Size(ss[0]) + SizeList(ss[1..])
  }

  /** Exceeds the size of the flattened selections of `asts`. */
  function AstsSize(asts: Asts): (n: nat)
    ensures Selections(asts).Ok? ==> SizeList(Selections(asts).value) < n
  {
    match asts
    case Single(s) => Size(s)
    case Nodes(_) => 1 + (if Selections(asts).Ok? then SizeList(Selections(asts).value) else 0)
    case Definition(d) => 1 + SizeList(d.selections)
  }
}
