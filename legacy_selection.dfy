/**
 * The tree walker of the legacy variant (the top-level index.js):
 * `getFieldListWithDirective` gives a kept leaf field only its name and
 * directives, a nested field its name, type, kind (ONE or LIST, never
 * CONNECTION), call arguments, sub-fields and directives, and resolves the
 * type name of a connection through its `edges.node` field.  Directive
 * arguments are flat.
 */
module LegacySelection {
  import opened Js
  import opened GraphQL
  import opened Inclusion
  import opened CallArguments
  import opened Classification
  import SrcSelection

  /** `{__name, __directives}` for a leaf, and the full descriptor otherwise. */
  datatype Descriptor =
    | Leaf(name: string, directives: Obj<Obj<JsValue>>)
    | Nested(name: string, typeName: Option<string>, kind: Kind, args: Obj<JsValue>,
             fields: Obj<Descriptor>, directives: Obj<Obj<JsValue>>)

  // ------------------------------------------------------------ findDirective

  /** The `reduce` over a directive's arguments: each maps to the `value`
      property of its value node, with no nesting. */
  function FlatArgumentsFrom(obj: Obj<JsValue>, args: seq<Argument>): Obj<JsValue>
    decreases |args|
  {
    if args == [] then obj
    else FlatArgumentsFrom(Put(obj, args[0].name, LiteralValue(args[0].value)), args[1..])
  }

  function FlatArguments(args: seq<Argument>): Obj<JsValue> {
    FlatArgumentsFrom([], args)
  }

  function FlatDirectivesFrom(acc: Obj<Obj<JsValue>>, ds: seq<Directive>): Obj<Obj<JsValue>>
    decreases |ds|
  {
    if ds == [] then acc
    else FlatDirectivesFrom(Put(acc, ds[0].name, FlatArguments(ds[0].arguments)), ds[1..])
  }

  function FlatDirectives(ds: seq<Directive>): Obj<Obj<JsValue>> {
    FlatDirectivesFrom([], ds)
  }

  /** `findDirective(ast, schemaType)` as a specification. */
  function FieldDirectives(schema: Schema, schemaType: Option<TypeRef>, fieldName: string): Result<Obj<Obj<JsValue>>> {
    match FieldsOf(schema, schemaType)
    case Err(e) => Err(e)
    case Ok(declared) =>
      if fieldName !in declared then Err(FieldNotDeclared(fieldName))
      else Ok(FlatDirectives(declared[fieldName].directives))
  }

  method FindDirective(schema: Schema, ast: Selection, schemaType: Option<TypeRef>) returns (r: Result<Obj<Obj<JsValue>>>)
    requires ast.Field?
    ensures r == FieldDirectives(schema, schemaType, ast.name)
  {
    var declared := FieldsOf(schema, schemaType);
    if declared.Err? {
      return Err(declared.error);
    }
    if ast.name !in declared.value {
      return Err(FieldNotDeclared(ast.name));
    }
    var ds := declared.value[ast.name].directives;
    var directives: Obj<Obj<JsValue>> := [];
    var i := 0;
    while i < |ds|
      invariant 0 <= i <= |ds|
      invariant FlatDirectivesFrom(directives, ds[i..]) == FlatDirectives(ds)
    {
      var directive := ds[i];
      assert ds[i..][0] == directive && ds[i..][1..] == ds[i + 1..];
      var options: Obj<JsValue> := [];
      var j := 0;
      while j < |directive.arguments|
        invariant 0 <= j <= |directive.arguments|
        invariant FlatArgumentsFrom(options, directive.arguments[j..]) == FlatArguments(directive.arguments)
      {
        var argument := directive.arguments[j];
        assert directive.arguments[j..][0] == argument && directive.arguments[j..][1..] == directive.arguments[j + 1..];
        options := Put(options, argument.name, LiteralValue(argument.value));
        j := j + 1;
      }
      assert directive.arguments[j..] == [];
      directives := Put(directives, directive.name, options);
      i := i + 1;
    }
    assert ds[i..] == [];
    return Ok(directives);
  }

  lemma {:induction false} FlatArgumentsFromIsAssign(obj: Obj<JsValue>, args: seq<Argument>)
    ensures FlatArgumentsFrom(obj, args) == Assign(obj, FlatEntries(args))
    decreases |args|
  {
    if args != [] {
      var e := FlatEntries(args);
      FlatEntriesTail(args);
      FlatArgumentsFromIsAssign(Put(obj, args[0].name, LiteralValue(args[0].value)), args[1..]);
      assert Assign(obj, e) == Assign(Put(obj, e[0].0, e[0].1), e[1..]);
    }
  }

  function FlatEntries(args: seq<Argument>): (o: Obj<JsValue>)
    ensures Keys(o) == Names(args)
  {
    seq(|args|, i requires 0 <= i < |args| => (args[i].name, LiteralValue(args[i].value)))
  }

  lemma FlatEntriesTail(args: seq<Argument>)
    requires args != []
    ensures FlatEntries(args)[0] == (args[0].name, LiteralValue(args[0].value))
    ensures FlatEntries(args)[1..] == FlatEntries(args[1..])
  {
  }

  /** One entry per distinct argument name, the last argument of a name giving
      the `value` property of its node: object values are not descended into
      and read as `undefined`. */
  lemma FlatArgumentsMeaning(args: seq<Argument>, i: nat)
    requires i < |args| && forall j :: i < j < |args| ==> args[j].name != args[i].name
    ensures Keys(FlatArguments(args)) == Dedup(Names(args))
    ensures Get(FlatArguments(args), args[i].name) == Some(LiteralValue(args[i].value))
    ensures args[i].value.ObjectValue? ==> Get(FlatArguments(args), args[i].name) == Some(Undefined)
  {
    FlatLastWins(args, i);
    if args[i].value.ObjectValue? {
      assert LiteralValue(args[i].value) == Undefined;
    }
  }

  lemma FlatLastWins(args: seq<Argument>, i: nat)
    requires i < |args| && forall j :: i < j < |args| ==> args[j].name != args[i].name
    ensures Keys(FlatArguments(args)) == Dedup(Names(args))
    ensures Get(FlatArguments(args), args[i].name) == Some(LiteralValue(args[i].value))
  {
    var e := FlatEntries(args);
    FlatArgumentsFromIsAssign([], args);
    assert FlatArguments(args) == Assign([], e);
    assert e[i] == (args[i].name, LiteralValue(args[i].value));
    assert forall j :: i < j < |e| ==> e[j].0 != e[i].0 by {
      forall j | i < j < |e| ensures e[j].0 != e[i].0 {
        assert e[j].0 == args[j].name;
      }
    }
    AssignLastWins([], e, i);
  }

  /** Without object-valued arguments the flat reading agrees with the nested
      one of the src variant. */
  lemma {:induction false} FlatAgreesWithNested(obj: Obj<JsValue>, args: seq<Argument>)
    requires forall i :: 0 <= i < |args| ==> !args[i].value.ObjectValue?
    ensures FlatArgumentsFrom(obj, args) == SrcSelection.DirectiveArgumentsFrom(obj, args)
    decreases |args|
  {
    if args != [] {
      assert SrcSelection.DirectiveValue(args[0].value) == LiteralValue(args[0].value);
      FlatAgreesWithNested(Put(obj, args[0].name, LiteralValue(args[0].value)), args[1..]);
    }
  }

  function FlatTable(ds: seq<Directive>): (o: Obj<Obj<JsValue>>)
    ensures Keys(o) == SrcSelection.DirectiveNames(ds)
  {
    seq(|ds|, i requires 0 <= i < |ds| => (ds[i].name, FlatArguments(ds[i].arguments)))
  }

  lemma {:induction false} FlatDirectivesFromIsAssign(acc: Obj<Obj<JsValue>>, ds: seq<Directive>)
    ensures FlatDirectivesFrom(acc, ds) == Assign(acc, FlatTable(ds))
    decreases |ds|
  {
    if ds != [] {
      var t := FlatTable(ds);
      assert t[1..] == FlatTable(ds[1..]);
      FlatDirectivesFromIsAssign(Put(acc, ds[0].name, FlatArguments(ds[0].arguments)), ds[1..]);
      assert Assign(acc, t) == Assign(Put(acc, t[0].0, t[0].1), t[1..]);
    }
  }

  /** One entry per distinct directive name of the declaration, in first-seen
      order, the last directive of a name deciding its flat arguments. */
  lemma FlatDirectivesMeaning(ds: seq<Directive>)
    ensures Keys(FlatDirectives(ds)) == Dedup(SrcSelection.DirectiveNames(ds))
    ensures forall i :: 0 <= i < |ds| && (forall j :: i < j < |ds| ==> ds[j].name != ds[i].name) ==>
              Get(FlatDirectives(ds), ds[i].name) == Some(FlatArguments(ds[i].arguments))
  {
    FlatDirectivesFromIsAssign([], ds);
    forall i | 0 <= i < |ds| && (forall j :: i < j < |ds| ==> ds[j].name != ds[i].name)
      ensures Get(FlatDirectives(ds), ds[i].name) == Some(FlatArguments(ds[i].arguments))
    {
      AssignLastWins([], FlatTable(ds), i);
    }
  }

  /** Without object-valued arguments anywhere, the flat directive table is
      the nested one of the src variant. */
  lemma {:induction false} FlatDirectivesAgreeWithNested(acc: Obj<Obj<JsValue>>, ds: seq<Directive>)
    requires forall i, j :: 0 <= i < |ds| && 0 <= j < |ds[i].arguments| ==> !ds[i].arguments[j].value.ObjectValue?
    ensures FlatDirectivesFrom(acc, ds) == SrcSelection.SchemaDirectivesFrom(acc, ds)
    decreases |ds|
  {
    if ds != [] {
      FlatAgreesWithNested([], ds[0].arguments);
      FlatDirectivesAgreeWithNested(Put(acc, ds[0].name, FlatArguments(ds[0].arguments)), ds[1..]);
    }
  }

  // ------------------------------------------------------- connection lookup

  /** `t.ofType`: what a wrapper wraps; a named type has none. */
  function OfType(t: TypeRef): Option<TypeRef> {
    match t
    case Named(_) => None
    case ListOf(u) => Some(u)
    case NonNull(u) => Some(u)
  }

  /** `targetType.getFields()['edges'].type.ofType.getFields().node.type.name`:
      each step throws when what it reads is missing. */
  function EdgeNodeTypeName(schema: Schema, targetType: TypeRef): Result<Option<string>> {
    match FieldsOf(schema, Some(targetType))
    case Err(e) => Err(e)
    case Ok(fields) =>
      if "edges" !in fields then Err(FieldNotDeclared("edges"))
      else match FieldsOf(schema, OfType(fields["edges"].fieldType))
        case Err(e) => Err(e)
        case Ok(edgeFields) =>
          if "node" !in edgeFields then Err(FieldNotDeclared("node"))
          else Ok(NameOf(edgeFields["node"].fieldType))
  }

  /** The relay hack: on a connection type whose `edges` field is a list of
      an edge type, the reported type name is that of the edge type's `node`
      field. */
  lemma EdgesListResolvesNode(schema: Schema, conn: string, edgesType: TypeRef, edge: string, nodeType: TypeRef)
    requires FieldsOf(schema, Some(Named(conn))).Ok?
    requires "edges" in FieldsOf(schema, Some(Named(conn))).value
    requires edgesType == FieldsOf(schema, Some(Named(conn))).value["edges"].fieldType
    requires edgesType == ListOf(Named(edge)) || edgesType == NonNull(Named(edge))
    requires FieldsOf(schema, Some(Named(edge))).Ok? && "node" in FieldsOf(schema, Some(Named(edge))).value
    requires nodeType == FieldsOf(schema, Some(Named(edge))).value["node"].fieldType
    ensures EdgeNodeTypeName(schema, Named(conn)) == Ok(NameOf(nodeType))
  {
  }

  /** Only one wrapper is looked through: a bare `edges: Edge`, or a
      `[Edge]!`, makes the lookup throw; a connection without `edges` or an
      edge type without `node` throws as well. */
  lemma EdgesLookupFailures(schema: Schema, conn: string)
    requires FieldsOf(schema, Some(Named(conn))).Ok?
    ensures "edges" !in FieldsOf(schema, Some(Named(conn))).value ==>
              EdgeNodeTypeName(schema, Named(conn)) == Err(FieldNotDeclared("edges"))
    ensures var fields := FieldsOf(schema, Some(Named(conn))).value;
            "edges" in fields && (fields["edges"].fieldType.Named? || Unwrap1(fields["edges"].fieldType).NonNull?
                                  || Unwrap1(fields["edges"].fieldType).ListOf?) ==>
              EdgeNodeTypeName(schema, Named(conn)) == Err(NotCompositeType)
  {
  }

  // ------------------------------------------------- getFieldSetWithDirective

  /** `getFieldSetWithDirective(context, asts, schemaType)` as a specification. */
  function FieldSet(info: ResolveInfo, fuel: nat, asts: Asts, schemaType: Option<TypeRef>): Result<Obj<Descriptor>>
    decreases fuel, AstsSize(asts), 0
  {
    match Selections(asts)
    case Err(e) => Err(e)
    case Ok(sels) => Collect(info, fuel, [], sels, Effective(info, schemaType))
  }

  function Collect(info: ResolveInfo, fuel: nat, acc: Obj<Descriptor>, sels: seq<Selection>, schemaType: Option<TypeRef>): Result<Obj<Descriptor>>
    decreases fuel, SizeList(sels), 4
  {
    if sels == [] then Ok(acc)
    else match Step(info, fuel, acc, sels[0], schemaType)
      case Err(e) => Err(e)
      case Ok(next) => Collect(info, fuel, next, sels[1..], schemaType)
  }

  /** `Object.assign(acc, sub)` behind an error check. */
  function Merge(acc: Obj<Descriptor>, r: Result<Obj<Descriptor>>): Result<Obj<Descriptor>> {
    match r
    case Err(e) => Err(e)
    case Ok(sub) => Ok(Assign(acc, sub))
  }

  function Step(info: ResolveInfo, fuel: nat, acc: Obj<Descriptor>, ast: Selection, schemaType: Option<TypeRef>): Result<Obj<Descriptor>>
    decreases fuel, Size(ast), 3
  {
    match Excluded(info.variableValues, ast)
    case Err(e) => Err(e)
    case Ok(excluded) =>
      if excluded then Ok(acc)
      else match ast
        case Field(_, _, _, _, _) => FieldStep(info, fuel, acc, ast, schemaType)
        case InlineFragment(_, _, _) =>
          Merge(acc, FieldSet(info, fuel, Single(ast), schemaType))
        case FragmentSpread(_, _) => SpreadStep(info, fuel, acc, ast, schemaType)
  }

  /** A fragment spread walks the fragment's selections, or the resolver's
      own field nodes when the name is unknown, one level of fuel down. */
  function SpreadStep(info: ResolveInfo, fuel: nat, acc: Obj<Descriptor>, ast: Selection, schemaType: Option<TypeRef>): Result<Obj<Descriptor>>
    requires ast.FragmentSpread?
    decreases fuel, Size(ast), 2
  {
    if fuel == 0 then Err(StackOverflow)
    else Merge(acc, FieldSet(info, fuel - 1, SpreadSource(info, ast.name), schemaType))
  }

  /** A kept field: the descriptor of a nested field written under its name
      unless it is skipped, a leaf written with its directives. */
  function FieldStep(info: ResolveInfo, fuel: nat, acc: Obj<Descriptor>, ast: Selection, schemaType: Option<TypeRef>): Result<Obj<Descriptor>>
    requires ast.Field?
    decreases fuel, Size(ast), 2
  {
    if ast.selectionSet != [] then
      match NestedEntry(info, fuel, ast, schemaType)
      case Err(e) => Err(e)
      case Ok(entry) => Ok(if entry.Some? then Put(acc, ast.name, entry.value) else acc)
    else
      match FieldDirectives(info.schema, schemaType, ast.name)
      case Err(e) => Err(e)
      case Ok(directives) => Ok(Put(acc, ast.name, Leaf(ast.name, directives)))
  }

  /** The descriptor of a kept field with a selection set, or None when the
      parent type does not declare it. */
  function NestedEntry(info: ResolveInfo, fuel: nat, ast: Selection, schemaType: Option<TypeRef>): (r: Result<Option<Descriptor>>)
    requires ast.Field?
    ensures r.Ok? && r.value.Some? ==> r.value.value.Nested? && r.value.value.name == ast.name
    decreases fuel, Size(ast), 1
  {
    match FieldsOf(info.schema, schemaType)
    case Err(e) => Err(e)
    case Ok(declared) =>
      if ast.name !in declared then Ok(None)
      else
        var astType := declared[ast.name].fieldType;
        var targetType := Unwrap1(astType);
        match NameOf(targetType)
        case None => Err(MissingTypeName)
        case Some(n) =>
          match (if EndsWith(n, Connection) then EdgeNodeTypeName(info.schema, targetType) else Ok(Some(n)))
          case Err(e) => Err(e)
          case Ok(typeName) =>
            var args := ArgumentsOf(info.variableValues, ast.arguments);
            if !HasAstNode(info.schema, Some(targetType)) then Err(MissingAstNode)
            else
              var shownName := if IsInterface(info.schema, targetType) then Some("") else typeName;
              var kind := if StartsWith(Print(astType), "[") then LIST else ONE;
              match FieldSet(info, fuel, Single(ast), Some(targetType))
              case Err(e) => Err(e)
              case Ok(fields) =>
                Ok(Some(Nested(ast.name, shownName, kind, args, fields, FlatDirectives(declared[ast.name].directives))))
  }

  /** `getFieldSetWithDirective(context, asts, schemaType)`: a loop over the
      selections writing each kept field's descriptor into the accumulator. */
  method GetFieldSetWithDirective(info: ResolveInfo, fuel: nat, asts: Asts, schemaType: Option<TypeRef>) returns (r: Result<Obj<Descriptor>>)
    ensures r == FieldSet(info, fuel, asts, schemaType)
    decreases fuel, AstsSize(asts), 0
  {
    var parent := Effective(info, schemaType);
    var flattened := Selections(asts);
    if flattened.Err? {
      return Err(flattened.error);
    }
    var selections := flattened.value;
    var acc: Obj<Descriptor> := [];
    var i := 0;
    while i < |selections|
      invariant 0 <= i <= |selections|
      invariant Collect(info, fuel, acc, selections[i..], parent) == FieldSet(info, fuel, asts, schemaType)
    {
      var ast := selections[i];
      assert selections[i..][0] == ast && selections[i..][1..] == selections[i + 1..];
      SizeOfElement(selections, i);
      var next := GetStep(info, fuel, acc, ast, parent);
      if next.Err? {
        return Err(next.error);
      }
      acc := next.value;
      i := i + 1;
    }
    return Ok(acc);
  }

  /** The `forEach` callback: one selection of the loop. */
  method GetStep(info: ResolveInfo, fuel: nat, acc: Obj<Descriptor>, ast: Selection, schemaType: Option<TypeRef>) returns (r: Result<Obj<Descriptor>>)
    ensures r == Step(info, fuel, acc, ast, schemaType)
    decreases fuel, Size(ast), 3
  {
    var excluded := IsExcludedByDirective(info, ast);
    if excluded.Err? {
      return Err(excluded.error);
    }
    if excluded.value {
      return Ok(acc);
    }
    match ast
    case Field(_, _, _, _, _) =>
      assert Step(info, fuel, acc, ast, schemaType) == FieldStep(info, fuel, acc, ast, schemaType);
      r := GetFieldStep(info, fuel, acc, ast, schemaType);
    case InlineFragment(_, _, _) =>
      var sub := GetFieldSetWithDirective(info, fuel, Single(ast), schemaType);
      if sub.Err? {
        return Err(sub.error);
      }
      return Ok(Assign(acc, sub.value));
    case FragmentSpread(name, _) =>
      if fuel == 0 {
        return Err(StackOverflow);
      }
      assert Step(info, fuel, acc, ast, schemaType) == SpreadStep(info, fuel, acc, ast, schemaType);
      var sub := GetFieldSetWithDirective(info, fuel - 1, SpreadSource(info, name), schemaType);
      if sub.Err? {
        return Err(sub.error);
      }
      return Ok(Assign(acc, sub.value));
  }

  /** One kept field of the loop: the `if (ast.selectionSet)` test and its two arms. */
  method GetFieldStep(info: ResolveInfo, fuel: nat, acc: Obj<Descriptor>, ast: Selection, schemaType: Option<TypeRef>) returns (r: Result<Obj<Descriptor>>)
    requires ast.Field?
    ensures r == FieldStep(info, fuel, acc, ast, schemaType)
    decreases fuel, Size(ast), 2
  {
    if ast.selectionSet != [] {
      var entry := GetNestedEntry(info, fuel, ast, schemaType);
      if entry.Err? {
        return Err(entry.error);
      }
      return Ok(if entry.value.Some? then Put(acc, ast.name, entry.value.value) else acc);
    }
    var directives := FindDirective(info.schema, ast, schemaType);
    if directives.Err? {
      return Err(directives.error);
    }
    return Ok(Put(acc, ast.name, Leaf(ast.name, directives.value)));
  }

  /** The body of the nested-field branch (index.js, the `if (ast.selectionSet)` arm). */
  method GetNestedEntry(info: ResolveInfo, fuel: nat, ast: Selection, schemaType: Option<TypeRef>) returns (r: Result<Option<Descriptor>>)
    requires ast.Field?
    ensures r == NestedEntry(info, fuel, ast, schemaType)
    decreases fuel, Size(ast), 1
  {
    var declared := FieldsOf(info.schema, schemaType);
    if declared.Err? {
      return Err(declared.error);
    }
    if ast.name !in declared.value {
      return Ok(None);
    }
    var astType := declared.value[ast.name].fieldType;
    var targetType := Unwrap1(astType);
    var typeName := NameOf(targetType);
    if typeName.None? {
      return Err(MissingTypeName);
    }
    if EndsWith(typeName.value, Connection) {
      var nodeName := EdgeNodeTypeName(info.schema, targetType);
      if nodeName.Err? {
        return Err(nodeName.error);
      }
      typeName := nodeName.value;
    }
    var args := ReduceArguments(info.variableValues, ast.arguments);
    if !HasAstNode(info.schema, Some(targetType)) {
      return Err(MissingAstNode);
    }
    if IsInterface(info.schema, targetType) {
      typeName := Some("");
    }
    var kind := if StartsWith(Print(astType), "[") then LIST else ONE;
    var fields := GetFieldSetWithDirective(info, fuel, Single(ast), Some(targetType));
    if fields.Err? {
      return Err(fields.error);
    }
    var directives := FindDirective(info.schema, ast, schemaType);
    return Ok(Some(Nested(ast.name, typeName, kind, args, fields.value, directives.value)));
  }

  lemma {:induction false} SizeOfElement(ss: seq<Selection>, i: nat)
    requires i < |ss|
    ensures Size(ss[i]) <= SizeList(ss)
  {
    if i > 0 {
      SizeOfElement(ss[1..], i - 1);
    }
  }

  /** `getFieldListWithDirective(context)`. */
  method GetFieldListWithDirective(info: ResolveInfo, fuel: nat) returns (r: Result<Obj<Descriptor>>)
    ensures r == FieldSet(info, fuel, Nodes(info.fieldNodes), None)
  {
    r := GetFieldSetWithDirective(info, fuel, Nodes(info.fieldNodes), None);
  }

  // ---------------------------------------------------------------- theorems

  /** A descriptor and every descriptor below it carry the name they are
      keyed by, and none is of kind CONNECTION. */
  predicate WellShaped(d: Descriptor)
    decreases d
  {
    d.Nested? ==>
      && d.kind != CONNECTION
      && forall i :: 0 <= i < |d.fields| ==> d.fields[i].1.name == d.fields[i].0 && WellShaped(d.fields[i].1)
  }

  /** A walk's outcome has the shape: every entry keyed by its field's name,
      never CONNECTION at any depth, and no key twice. */
  ghost predicate Shaped(r: Result<Obj<Descriptor>>) {
    r.Ok? ==> All(r.value, Entry) && UniqueKeys(r.value)
  }

  predicate Entry(k: string, d: Descriptor) {
    d.name == k && WellShaped(d)
  }

  /** Results are keyed by field name, no key twice, and the kind CONNECTION
      appears nowhere in them, however deep. */
  lemma {:induction false} FieldSetShape(info: ResolveInfo, fuel: nat, asts: Asts, schemaType: Option<TypeRef>)
    ensures Shaped(FieldSet(info, fuel, asts, schemaType))
    decreases fuel, AstsSize(asts), 0
  {
    match Selections(asts)
    case Err(e) =>
    case Ok(sels) => CollectShape(info, fuel, [], sels, Effective(info, schemaType));
  }

  lemma {:induction false} CollectShape(info: ResolveInfo, fuel: nat, acc: Obj<Descriptor>, sels: seq<Selection>, schemaType: Option<TypeRef>)
    requires All(acc, Entry) && UniqueKeys(acc)
    ensures Shaped(Collect(info, fuel, acc, sels, schemaType))
    decreases fuel, SizeList(sels), 4
  {
    if sels != [] {
      StepShape(info, fuel, acc, sels[0], schemaType);
      match Step(info, fuel, acc, sels[0], schemaType)
      case Err(e) =>
      case Ok(next) => CollectShape(info, fuel, next, sels[1..], schemaType);
    }
  }

  lemma {:induction false} StepShape(info: ResolveInfo, fuel: nat, acc: Obj<Descriptor>, ast: Selection, schemaType: Option<TypeRef>)
    requires All(acc, Entry) && UniqueKeys(acc)
    ensures Shaped(Step(info, fuel, acc, ast, schemaType))
    decreases fuel, Size(ast), 3
  {
    match ast
    case Field(_, _, _, _, _) => FieldStepShape(info, fuel, acc, ast, schemaType);
    case InlineFragment(_, _, _) => MergedShape(info, fuel, acc, Single(ast), schemaType);
    case FragmentSpread(_, _) => if fuel > 0 { SpreadShape(info, fuel - 1, acc, ast, schemaType); }
  }

  /** A spread with fuel `f + 1` left walks its source with fuel `f`. */
  lemma {:induction false} SpreadShape(info: ResolveInfo, f: nat, acc: Obj<Descriptor>, ast: Selection, schemaType: Option<TypeRef>)
    requires ast.FragmentSpread? && All(acc, Entry) && UniqueKeys(acc)
    ensures Shaped(SpreadStep(info, f + 1, acc, ast, schemaType))
    decreases f + 1, Size(ast), 2
  {
    MergedShape(info, f, acc, SpreadSource(info, ast.name), schemaType);
  }

  /** Assigning a walk's outcome onto an object of the shape keeps the shape. */
  lemma MergedShape(info: ResolveInfo, fuel: nat, acc: Obj<Descriptor>, asts: Asts, schemaType: Option<TypeRef>)
    requires All(acc, Entry) && UniqueKeys(acc)
    ensures Shaped(Merge(acc, FieldSet(info, fuel, asts, schemaType)))
    decreases fuel, AstsSize(asts), 1
  {
    FieldSetShape(info, fuel, asts, schemaType);
    var r := FieldSet(info, fuel, asts, schemaType);
    if r.Ok? {
      AssignAll(acc, r.value, Entry);
      AssignUnique(acc, r.value);
    }
  }

  lemma {:induction false} FieldStepShape(info: ResolveInfo, fuel: nat, acc: Obj<Descriptor>, ast: Selection, schemaType: Option<TypeRef>)
    requires ast.Field? && All(acc, Entry) && UniqueKeys(acc)
    ensures Shaped(FieldStep(info, fuel, acc, ast, schemaType))
    decreases fuel, Size(ast), 2
  {
    if ast.selectionSet != [] {
      NestedEntryShape(info, fuel, ast, schemaType);
      match NestedEntry(info, fuel, ast, schemaType) {
        case Err(e) =>
        case Ok(entry) =>
          if entry.Some? {
            PutAll(acc, ast.name, entry.value, Entry);
            PutUnique(acc, ast.name, entry.value);
          }
      }
    } else {
      match FieldDirectives(info.schema, schemaType, ast.name) {
        case Err(e) =>
        case Ok(directives) =>
          assert Entry(ast.name, Leaf(ast.name, directives));
          PutAll(acc, ast.name, Leaf(ast.name, directives), Entry);
          PutUnique(acc, ast.name, Leaf(ast.name, directives));
      }
    }
  }

  lemma {:induction false} NestedEntryShape(info: ResolveInfo, fuel: nat, ast: Selection, schemaType: Option<TypeRef>)
    requires ast.Field?
    ensures var r := NestedEntry(info, fuel, ast, schemaType);
            r.Ok? && r.value.Some? ==> Entry(ast.name, r.value.value)
    decreases fuel, Size(ast), 1
  {
    match FieldsOf(info.schema, schemaType)
    case Err(e) =>
    case Ok(declared) =>
      if ast.name in declared {
        var targetType := Unwrap1(declared[ast.name].fieldType);
        FieldSetShape(info, fuel, Single(ast), Some(targetType));
      }
  }

  /** A kept field with a selection set that the parent type declares is
      written under its name: the step succeeds exactly when the field's
      descriptor does, and then the name reads that descriptor and every
      other key reads as before. */
  lemma KeptNestedFieldPresent(info: ResolveInfo, fuel: nat, acc: Obj<Descriptor>, ast: Selection, schemaType: Option<TypeRef>)
    requires ast.Field? && ast.selectionSet != [] && Excluded(info.variableValues, ast) == Ok(false)
    requires Declared(info.schema, schemaType, ast.name)
    ensures var r := Step(info, fuel, acc, ast, schemaType);
            var e := NestedEntry(info, fuel, ast, schemaType);
            && (e.Err? ==> r == Err(e.error))
            && (e.Ok? ==> e.value.Some? && r.Ok? && Get(r.value, ast.name) == Some(e.value.value)
                          && forall k :: k != ast.name ==> Get(r.value, k) == Get(acc, k))
  {
    assert Step(info, fuel, acc, ast, schemaType) == FieldStep(info, fuel, acc, ast, schemaType);
  }

  /** A kept inline fragment merges its own walk into the accumulator: the
      step succeeds exactly when that walk does, a key the walk wrote reads
      the walk's value (overwriting an earlier one), and every other key
      reads as before. */
  lemma InlineFragmentMerged(info: ResolveInfo, fuel: nat, acc: Obj<Descriptor>, ast: Selection, schemaType: Option<TypeRef>)
    requires ast.InlineFragment? && Excluded(info.variableValues, ast) == Ok(false)
    ensures var r := Step(info, fuel, acc, ast, schemaType);
            var sub := FieldSet(info, fuel, Single(ast), schemaType);
            && (r.Ok? <==> sub.Ok?)
            && (r.Ok? ==> forall k :: Get(r.value, k) == if k in Keys(sub.value) then Get(sub.value, k) else Get(acc, k))
  {
    MergedReads(info, fuel, acc, Single(ast), schemaType);
  }

  /** A kept spread with fuel `f + 1` left merges the walk of its source with
      fuel `f` in the same way; with no fuel left it overflows. */
  lemma SpreadMerged(info: ResolveInfo, f: nat, acc: Obj<Descriptor>, ast: Selection, schemaType: Option<TypeRef>)
    requires ast.FragmentSpread? && Excluded(info.variableValues, ast) == Ok(false)
    ensures Step(info, 0, acc, ast, schemaType) == Err(StackOverflow)
    ensures var r := Step(info, f + 1, acc, ast, schemaType);
            var sub := FieldSet(info, f, SpreadSource(info, ast.name), schemaType);
            && (r.Ok? <==> sub.Ok?)
            && (r.Ok? ==> forall k :: Get(r.value, k) == if k in Keys(sub.value) then Get(sub.value, k) else Get(acc, k))
  {
    assert Step(info, f + 1, acc, ast, schemaType) == SpreadStep(info, f + 1, acc, ast, schemaType);
    MergedReads(info, f, acc, SpreadSource(info, ast.name), schemaType);
  }

  lemma MergedReads(info: ResolveInfo, fuel: nat, acc: Obj<Descriptor>, asts: Asts, schemaType: Option<TypeRef>)
    ensures var r := Merge(acc, FieldSet(info, fuel, asts, schemaType));
            var sub := FieldSet(info, fuel, asts, schemaType);
            && (r.Ok? <==> sub.Ok?)
            && (r.Ok? ==> forall k :: Get(r.value, k) == if k in Keys(sub.value) then Get(sub.value, k) else Get(acc, k))
  {
    var sub := FieldSet(info, fuel, asts, schemaType);
    if sub.Ok? {
      FieldSetShape(info, fuel, asts, schemaType);
      forall k ensures Get(Assign(acc, sub.value), k) == if k in Keys(sub.value) then Get(sub.value, k) else Get(acc, k) {
        AssignReads(acc, sub.value, k);
      }
    }
  }

  /** A successful walk lists, as its keys, the name of every kept field that
      its parent type declares, each once, at the position where the walk
      first meets it, exactly as the src walker does: fragments contribute
      their fields in place and a later field of a name overwrites the
      earlier one without moving it. */
  lemma {:induction false} FieldSetKeys(info: ResolveInfo, fuel: nat, asts: Asts, schemaType: Option<TypeRef>)
    ensures var r := FieldSet(info, fuel, asts, schemaType);
            r.Ok? ==> Keys(r.value) == Dedup(SrcSelection.KeptNames(info, fuel, asts, schemaType))
    decreases fuel, AstsSize(asts), 0
  {
    match Selections(asts)
    case Err(_) =>
    case Ok(sels) => CollectKeys(info, fuel, [], sels, Effective(info, schemaType));
  }

  lemma {:induction false} CollectKeys(info: ResolveInfo, fuel: nat, acc: Obj<Descriptor>, sels: seq<Selection>, schemaType: Option<TypeRef>)
    ensures var r := Collect(info, fuel, acc, sels, schemaType);
            r.Ok? ==> Keys(r.value) == DedupOnto(Keys(acc), SrcSelection.KeptNamesOf(info, fuel, sels, schemaType))
    decreases fuel, SizeList(sels), 4
  {
    if sels != [] {
      StepKeys(info, fuel, acc, sels[0], schemaType);
      match Step(info, fuel, acc, sels[0], schemaType)
      case Err(_) =>
      case Ok(next) =>
        CollectKeys(info, fuel, next, sels[1..], schemaType);
        DedupOntoConcat(Keys(acc), SrcSelection.KeptNamesAt(info, fuel, sels[0], schemaType),
                        SrcSelection.KeptNamesOf(info, fuel, sels[1..], schemaType));
    }
  }

  lemma {:induction false} StepKeys(info: ResolveInfo, fuel: nat, acc: Obj<Descriptor>, ast: Selection, schemaType: Option<TypeRef>)
    ensures var r := Step(info, fuel, acc, ast, schemaType);
            r.Ok? ==> Keys(r.value) == DedupOnto(Keys(acc), SrcSelection.KeptNamesAt(info, fuel, ast, schemaType))
    decreases fuel, Size(ast), 3
  {
    if Excluded(info.variableValues, ast) != Ok(false) {
      SkippedKeys(info, fuel, acc, ast, schemaType);
    } else if ast.Field? {
      FieldKeys(info, fuel, acc, ast, schemaType);
    } else if ast.InlineFragment? {
      InlineFragmentKeys(info, fuel, acc, ast, schemaType);
    } else if fuel > 0 {
      SpreadKeys(info, fuel - 1, acc, ast, schemaType);
    } else {
      SpreadKeysNoFuel(info, acc, ast, schemaType);
    }
  }

  lemma SkippedKeys(info: ResolveInfo, fuel: nat, acc: Obj<Descriptor>, ast: Selection, schemaType: Option<TypeRef>)
    requires Excluded(info.variableValues, ast) != Ok(false)
    ensures var r := Step(info, fuel, acc, ast, schemaType);
            r.Ok? ==> Keys(r.value) == DedupOnto(Keys(acc), SrcSelection.KeptNamesAt(info, fuel, ast, schemaType))
  {
  }

  lemma FieldKeys(info: ResolveInfo, fuel: nat, acc: Obj<Descriptor>, ast: Selection, schemaType: Option<TypeRef>)
    requires ast.Field? && Excluded(info.variableValues, ast) == Ok(false)
    ensures var r := Step(info, fuel, acc, ast, schemaType);
            r.Ok? ==> Keys(r.value) == DedupOnto(Keys(acc), SrcSelection.KeptNamesAt(info, fuel, ast, schemaType))
  {
    assert Step(info, fuel, acc, ast, schemaType) == FieldStep(info, fuel, acc, ast, schemaType);
    var r := FieldStep(info, fuel, acc, ast, schemaType);
    if Declared(info.schema, schemaType, ast.name) {
      assert SrcSelection.KeptNamesAt(info, fuel, ast, schemaType) == [ast.name];
      if r.Ok? {
        if ast.selectionSet != [] {
          var e := NestedEntry(info, fuel, ast, schemaType).value;
          assert e.Some?;
          PutIsDedupOnto(acc, ast.name, e.value);
        } else {
          PutIsDedupOnto(acc, ast.name, Leaf(ast.name, FieldDirectives(info.schema, schemaType, ast.name).value));
        }
      }
    } else {
      assert SrcSelection.KeptNamesAt(info, fuel, ast, schemaType) == [];
    }
  }

  lemma {:induction false} InlineFragmentKeys(info: ResolveInfo, fuel: nat, acc: Obj<Descriptor>, ast: Selection, schemaType: Option<TypeRef>)
    requires ast.InlineFragment? && Excluded(info.variableValues, ast) == Ok(false)
    ensures var r := Step(info, fuel, acc, ast, schemaType);
            r.Ok? ==> Keys(r.value) == DedupOnto(Keys(acc), SrcSelection.KeptNamesAt(info, fuel, ast, schemaType))
    decreases fuel, Size(ast), 2
  {
    MergedKeys(info, fuel, acc, Single(ast), schemaType);
  }

  /** A spread with fuel `f + 1` left adds the keys of its source walked with fuel `f`. */
  lemma {:induction false} SpreadKeys(info: ResolveInfo, f: nat, acc: Obj<Descriptor>, ast: Selection, schemaType: Option<TypeRef>)
    requires ast.FragmentSpread? && Excluded(info.variableValues, ast) == Ok(false)
    ensures var r := Step(info, f + 1, acc, ast, schemaType);
            r.Ok? ==> Keys(r.value) == DedupOnto(Keys(acc), SrcSelection.KeptNamesAt(info, f + 1, ast, schemaType))
    decreases f + 1, Size(ast), 2
  {
    assert Step(info, f + 1, acc, ast, schemaType) == SpreadStep(info, f + 1, acc, ast, schemaType);
    MergedKeys(info, f, acc, SpreadSource(info, ast.name), schemaType);
  }

  lemma SpreadKeysNoFuel(info: ResolveInfo, acc: Obj<Descriptor>, ast: Selection, schemaType: Option<TypeRef>)
    requires ast.FragmentSpread? && Excluded(info.variableValues, ast) == Ok(false)
    ensures var r := Step(info, 0, acc, ast, schemaType);
            r.Ok? ==> Keys(r.value) == DedupOnto(Keys(acc), SrcSelection.KeptNamesAt(info, 0, ast, schemaType))
  {
    assert Step(info, 0, acc, ast, schemaType) == SpreadStep(info, 0, acc, ast, schemaType);
  }

  lemma {:induction false} MergedKeys(info: ResolveInfo, fuel: nat, acc: Obj<Descriptor>, asts: Asts, schemaType: Option<TypeRef>)
    ensures var r := Merge(acc, FieldSet(info, fuel, asts, schemaType));
            r.Ok? ==> Keys(r.value) == DedupOnto(Keys(acc), SrcSelection.KeptNames(info, fuel, asts, schemaType))
    decreases fuel, AstsSize(asts), 1
  {
    FieldSetKeys(info, fuel, asts, schemaType);
    DedupOntoDedup(Keys(acc), SrcSelection.KeptNames(info, fuel, asts, schemaType));
  }

  /** A kept field the parent type does not declare is skipped when it has a
      selection set, and makes the directive lookup fail when it is a leaf. */
  lemma UndeclaredField(info: ResolveInfo, fuel: nat, acc: Obj<Descriptor>, ast: Selection, schemaType: Option<TypeRef>)
    requires ast.Field? && Excluded(info.variableValues, ast) == Ok(false)
    requires FieldsOf(info.schema, schemaType).Ok? && ast.name !in FieldsOf(info.schema, schemaType).value
    ensures ast.selectionSet != [] ==> Step(info, fuel, acc, ast, schemaType) == Ok(acc)
    ensures ast.selectionSet == [] ==> Step(info, fuel, acc, ast, schemaType) == Err(FieldNotDeclared(ast.name))
  {
    assert Step(info, fuel, acc, ast, schemaType) == FieldStep(info, fuel, acc, ast, schemaType);
    assert NestedEntry(info, fuel, ast, schemaType) == Ok(None);
  }

  /** A kept declared leaf yields exactly its name and the flat directives of
      its declaration. */
  lemma DeclaredLeaf(info: ResolveInfo, fuel: nat, acc: Obj<Descriptor>, ast: Selection, schemaType: Option<TypeRef>)
    requires ast.Field? && ast.selectionSet == [] && Excluded(info.variableValues, ast) == Ok(false)
    requires FieldsOf(info.schema, schemaType).Ok? && ast.name in FieldsOf(info.schema, schemaType).value
    ensures Step(info, fuel, acc, ast, schemaType)
         == Ok(Put(acc, ast.name, Leaf(ast.name, FlatDirectives(FieldsOf(info.schema, schemaType).value[ast.name].directives))))
  {
  }

  /** The descriptor of a declared field with a selection set: LIST exactly for
      list types and ONE otherwise; the type name blank for an interface
      target, taken from `edges.node` for a connection, and the target's own
      name otherwise; the call-site arguments, one entry per name; the
      walk of its selections against the target; the flat directives of the
      declaration. */
  lemma NestedEntryMeaning(info: ResolveInfo, fuel: nat, ast: Selection, schemaType: Option<TypeRef>)
    requires ast.Field? && FieldsOf(info.schema, schemaType).Ok? && ast.name in FieldsOf(info.schema, schemaType).value
    requires WellFormed(FieldsOf(info.schema, schemaType).value[ast.name].fieldType)
    ensures var decl := FieldsOf(info.schema, schemaType).value[ast.name];
            var target := Unwrap1(decl.fieldType);
            var r := NestedEntry(info, fuel, ast, schemaType);
            && (!target.Named? ==> r == Err(MissingTypeName))
            && (r.Ok? ==>
                  && r.value.Some?
                  && var d := r.value.value;
                  && (d.kind == LIST <==> IsListType(decl.fieldType))
                  && (d.kind == ONE <==> !IsListType(decl.fieldType))
                  && d.typeName == (if IsInterface(info.schema, target) then Some("")
                                    else if EndsWith(target.name, Connection) then EdgeNodeTypeName(info.schema, target).value
                                    else Some(target.name))
                  && d.args == ArgumentsOf(info.variableValues, ast.arguments)
                  && Keys(d.args) == Dedup(Names(ast.arguments))
                  && (forall i :: 0 <= i < |ast.arguments| && (forall j :: i < j < |ast.arguments| ==> ast.arguments[j].name != ast.arguments[i].name) ==>
                        Get(d.args, ast.arguments[i].name) == Some(ResolveArgument(info.variableValues, ast.arguments[i])))
                  && Ok(d.fields) == FieldSet(info, fuel, Single(ast), Some(target))
                  && d.directives == FlatDirectives(decl.directives))
  {
    var decl := FieldsOf(info.schema, schemaType).value[ast.name];
    PrintStartsWithBracket(decl.fieldType);
    ArgumentsMeaning(info.variableValues, ast.arguments);
  }

  /** An excluded selection contributes nothing, subtree included. */
  lemma {:induction false} ExcludedContributesNothing(info: ResolveInfo, fuel: nat, acc: Obj<Descriptor>,
                                                      before: seq<Selection>, ast: Selection, after: seq<Selection>,
                                                      schemaType: Option<TypeRef>)
    requires Excluded(info.variableValues, ast) == Ok(true)
    ensures Collect(info, fuel, acc, before + [ast] + after, schemaType) == Collect(info, fuel, acc, before + after, schemaType)
    decreases |before|
  {
    if before == [] {
      assert ([ast] + after)[1..] == after;
      assert before + [ast] + after == [ast] + after;
      assert before + after == after;
      assert Step(info, fuel, acc, ast, schemaType) == Ok(acc);
    } else {
      assert (before + [ast] + after)[0] == before[0];
      assert (before + [ast] + after)[1..] == before[1..] + [ast] + after;
      assert (before + after)[0] == before[0];
      assert (before + after)[1..] == before[1..] + after;
      match Step(info, fuel, acc, before[0], schemaType)
      case Err(e) =>
      case Ok(next) => ExcludedContributesNothing(info, fuel, next, before[1..], ast, after, schemaType);
    }
  }

  /** A spread of an undefined fragment as the first root selection does not
      read a selection set of `undefined`: the default parameter restarts the
      walk from the root, every time, until the stack overflows. */
  lemma {:induction false} UnknownFragmentAtRootOverflows(info: ResolveInfo, fuel: nat, schemaType: Option<TypeRef>, name: string)
    requires schemaType == None || schemaType == RootType(info)
    requires ConcatSelections(info.fieldNodes).Ok? && ConcatSelections(info.fieldNodes).value != []
    requires ConcatSelections(info.fieldNodes).value[0] == FragmentSpread(name, [])
    requires name !in info.fragments
    ensures FieldSet(info, fuel, Nodes(info.fieldNodes), schemaType) == Err(StackOverflow)
    decreases fuel, 2
  {
    var sels := ConcatSelections(info.fieldNodes).value;
    assert FieldSet(info, fuel, Nodes(info.fieldNodes), schemaType) == Collect(info, fuel, [], sels, RootType(info));
    SpreadAtRootOverflows(info, fuel, sels[0], name);
  }

  lemma SpreadAtRootOverflows(info: ResolveInfo, fuel: nat, spread: Selection, name: string)
    requires ConcatSelections(info.fieldNodes).Ok? && ConcatSelections(info.fieldNodes).value != []
    requires ConcatSelections(info.fieldNodes).value[0] == FragmentSpread(name, []) == spread
    requires name !in info.fragments
    ensures Step(info, fuel, [], spread, RootType(info)) == Err(StackOverflow)
    decreases fuel, 1
  {
    assert Excluded(info.variableValues, spread) == Ok(false);
    if fuel > 0 {
      assert SpreadSource(info, name) == Nodes(info.fieldNodes);
      UnknownFragmentAtRootOverflows(info, fuel - 1, RootType(info), name);
    }
    assert SpreadStep(info, fuel, [], spread, RootType(info)) == Err(StackOverflow);
  }
}
