/**
 * The tree walker of the lib variant (the compiled later source).  Unlike
 * the src variant it keys each kept field by its alias, records the alias,
 * narrows an interface parent to the type condition of the container being
 * walked, delegates argument coercion to graphql-js, and refuses any
 * directive on a field declaration that the schema does not define.
 */
module LibSelection {
  import opened Js
  import opened GraphQL
  import opened Inclusion
  import opened Classification

  /** graphql-js `getArgumentValues(def, node)`: the coercion of the arguments
      written on `node` against the argument definitions of `def`.  Its
      workings are not part of this model; it is a parameter, and it may fail. */
  type Coercion = (seq<ArgDef>, seq<Argument>) -> Result<Obj<JsValue>>

  /** The descriptor `{__name, __alias, __type, __kind, __args, __fields,
      __directives}` (the `__resolve` handle is not modelled). */
  datatype FieldInfo = FieldInfo(
    name: string,
    alias: Option<string>,
    typeName: Option<string>,
    kind: Kind,
    args: Obj<JsValue>,
    fields: Obj<FieldInfo>,
    directives: Obj<Obj<JsValue>>)

  /** The key a kept field is stored under: its alias if it has one. */
  function KeyOf(alias: Option<string>, name: string): string {
    if alias.Some? then alias.value else name
  }

  // ------------------------------------------------------------ findDirective

  /** A directive the schema defines and whose arguments coerce. */
  predicate Coerces(schema: Schema, coerce: Coercion, d: Directive) {
    d.name in schema.directiveDefs && coerce(schema.directiveDefs[d.name].args, d.arguments).Ok?
  }

  /** The `forEach` of the strict `findDirective`. */
  function StrictDirectivesFrom(schema: Schema, coerce: Coercion, acc: Obj<Obj<JsValue>>, ds: seq<Directive>): Result<Obj<Obj<JsValue>>>
    decreases |ds|
  {
    if ds == [] then Ok(acc)
    else if ds[0].name !in schema.directiveDefs then Err(UndefinedDirective(ds[0].name))
    else match coerce(schema.directiveDefs[ds[0].name].args, ds[0].arguments)
      case Err(e) => Err(e)
      case Ok(values) => StrictDirectivesFrom(schema, coerce, Put(acc, ds[0].name, values), ds[1..])
  }

  function StrictDirectives(schema: Schema, coerce: Coercion, ds: seq<Directive>): Result<Obj<Obj<JsValue>>> {
    StrictDirectivesFrom(schema, coerce, [], ds)
  }

  /** `findDirective(fieldName, parentType, resolveInfo)` as a specification. */
  function FieldDirectives(schema: Schema, coerce: Coercion, parent: Option<TypeRef>, fieldName: string): Result<Obj<Obj<JsValue>>> {
    match FieldsOf(schema, parent)
    case Err(e) => Err(e)
    case Ok(declared) =>
      if fieldName !in declared then Err(FieldNotDeclared(fieldName))
      else StrictDirectives(schema, coerce, declared[fieldName].directives)
  }

  method FindDirective(schema: Schema, coerce: Coercion, fieldName: string, parent: Option<TypeRef>)
    returns (r: Result<Obj<Obj<JsValue>>>)
    ensures r == FieldDirectives(schema, coerce, parent, fieldName)
  {
    var declared := FieldsOf(schema, parent);
    if declared.Err? {
      return Err(declared.error);
    }
    if fieldName !in declared.value {
      return Err(FieldNotDeclared(fieldName));
    }
    var ds := declared.value[fieldName].directives;
    var directives: Obj<Obj<JsValue>> := [];
    var i := 0;
    while i < |ds|
      invariant 0 <= i <= |ds|
      invariant StrictDirectivesFrom(schema, coerce, directives, ds[i..]) == StrictDirectives(schema, coerce, ds)
    {
      var directive := ds[i];
      assert ds[i..][0] == directive && ds[i..][1..] == ds[i + 1..];
      if directive.name !in schema.directiveDefs {
        return Err(UndefinedDirective(directive.name));
      }
      var values := coerce(schema.directiveDefs[directive.name].args, directive.arguments);
      if values.Err? {
        return Err(values.error);
      }
      directives := Put(directives, directive.name, values.value);
      i := i + 1;
    }
    assert ds[i..] == [];
    return Ok(directives);
  }

  function DirectiveNames(ds: seq<Directive>): (ns: seq<string>)
    ensures |ns| == |ds| && forall i :: 0 <= i < |ds| ==> ns[i] == ds[i].name
  {
    seq(|ds|, i requires 0 <= i < |ds| => ds[i].name)
  }

  /** Each directive paired with its coerced arguments. */
  function CoercedTable(schema: Schema, coerce: Coercion, ds: seq<Directive>): (o: Obj<Obj<JsValue>>)
    requires forall i :: 0 <= i < |ds| ==> Coerces(schema, coerce, ds[i])
    ensures Keys(o) == DirectiveNames(ds)
  {
    seq(|ds|, i requires 0 <= i < |ds| => (ds[i].name, Coerced(schema, coerce, ds[i])))
  }

  function Coerced(schema: Schema, coerce: Coercion, d: Directive): Obj<JsValue>
    requires Coerces(schema, coerce, d)
  {
    coerce(schema.directiveDefs[d.name].args, d.arguments).value
  }

  lemma {:induction false} StrictDirectivesFromIsAssign(schema: Schema, coerce: Coercion, acc: Obj<Obj<JsValue>>, ds: seq<Directive>)
    requires forall i :: 0 <= i < |ds| ==> Coerces(schema, coerce, ds[i])
    ensures StrictDirectivesFrom(schema, coerce, acc, ds) == Ok(Assign(acc, CoercedTable(schema, coerce, ds)))
    decreases |ds|
  {
    if ds != [] {
      assert Coerces(schema, coerce, ds[0]);
      var t := CoercedTable(schema, coerce, ds);
      assert t[1..] == CoercedTable(schema, coerce, ds[1..]);
      var values := coerce(schema.directiveDefs[ds[0].name].args, ds[0].arguments).value;
      StrictDirectivesFromIsAssign(schema, coerce, Put(acc, ds[0].name, values), ds[1..]);
      assert Assign(acc, t) == Assign(Put(acc, t[0].0, t[0].1), t[1..]);
    }
  }

  /** The strict lookup fails unless every directive of the declaration is
      defined and coerces; the first directive the schema lacks, if every one
      before it coerces, is the one the error names.  On success there is one
      entry per distinct directive name in first-seen order, the last
      directive of a name deciding its value. */
  lemma {:induction false} StrictDirectivesMeaning(schema: Schema, coerce: Coercion, acc: Obj<Obj<JsValue>>, ds: seq<Directive>)
    ensures StrictDirectivesFrom(schema, coerce, acc, ds).Ok? <==> forall i :: 0 <= i < |ds| ==> Coerces(schema, coerce, ds[i])
    ensures forall i :: 0 <= i < |ds| && ds[i].name !in schema.directiveDefs && (forall j :: 0 <= j < i ==> Coerces(schema, coerce, ds[j])) ==>
              StrictDirectivesFrom(schema, coerce, acc, ds) == Err(UndefinedDirective(ds[i].name))
  {
    StrictSucceedsIffAllCoerce(schema, coerce, acc, ds);
    forall i | 0 <= i < |ds| && ds[i].name !in schema.directiveDefs && (forall j :: 0 <= j < i ==> Coerces(schema, coerce, ds[j]))
      ensures StrictDirectivesFrom(schema, coerce, acc, ds) == Err(UndefinedDirective(ds[i].name))
    {
      FirstUndefinedNamed(schema, coerce, acc, ds, i);
    }
  }

  lemma {:induction false} StrictSucceedsIffAllCoerce(schema: Schema, coerce: Coercion, acc: Obj<Obj<JsValue>>, ds: seq<Directive>)
    ensures StrictDirectivesFrom(schema, coerce, acc, ds).Ok? <==> forall i :: 0 <= i < |ds| ==> Coerces(schema, coerce, ds[i])
    decreases |ds|
  {
    if ds != [] && Coerces(schema, coerce, ds[0]) {
      var values := coerce(schema.directiveDefs[ds[0].name].args, ds[0].arguments).value;
      StrictSucceedsIffAllCoerce(schema, coerce, Put(acc, ds[0].name, values), ds[1..]);
      assert StrictDirectivesFrom(schema, coerce, acc, ds) == StrictDirectivesFrom(schema, coerce, Put(acc, ds[0].name, values), ds[1..]);
      if forall i :: 0 <= i < |ds[1..]| ==> Coerces(schema, coerce, ds[1..][i]) {
        forall i | 0 <= i < |ds| ensures Coerces(schema, coerce, ds[i]) {
          if i > 0 { assert ds[i] == ds[1..][i - 1]; }
        }
      } else {
        var i :| 0 <= i < |ds[1..]| && !Coerces(schema, coerce, ds[1..][i]);
        assert ds[1..][i] == ds[i + 1];
      }
    }
  }

  lemma {:induction false} FirstUndefinedNamed(schema: Schema, coerce: Coercion, acc: Obj<Obj<JsValue>>, ds: seq<Directive>, i: nat)
    requires i < |ds| && ds[i].name !in schema.directiveDefs
    requires forall j :: 0 <= j < i ==> Coerces(schema, coerce, ds[j])
    ensures StrictDirectivesFrom(schema, coerce, acc, ds) == Err(UndefinedDirective(ds[i].name))
    decreases i
  {
    if i > 0 {
      assert Coerces(schema, coerce, ds[0]);
      var values := coerce(schema.directiveDefs[ds[0].name].args, ds[0].arguments).value;
      forall j | 0 <= j < i - 1 ensures Coerces(schema, coerce, ds[1..][j]) {
        assert ds[1..][j] == ds[j + 1];
      }
      assert ds[1..][i - 1] == ds[i];
      FirstUndefinedNamed(schema, coerce, Put(acc, ds[0].name, values), ds[1..], i - 1);
    }
  }

  lemma StrictDirectivesLastWins(schema: Schema, coerce: Coercion, ds: seq<Directive>, i: nat)
    requires forall k :: 0 <= k < |ds| ==> Coerces(schema, coerce, ds[k])
    requires i < |ds| && forall j :: i < j < |ds| ==> ds[j].name != ds[i].name
    ensures StrictDirectives(schema, coerce, ds).Ok?
    ensures Keys(StrictDirectives(schema, coerce, ds).value) == Dedup(DirectiveNames(ds))
    ensures Get(StrictDirectives(schema, coerce, ds).value, ds[i].name)
         == Some(Coerced(schema, coerce, ds[i]))
  {
    StrictDirectivesFromIsAssign(schema, coerce, [], ds);
    var t := CoercedTable(schema, coerce, ds);
    assert t[i].0 == ds[i].name;
    AssignLastWins([], t, i);
  }

  // ---------------------------------------------------------------- _getField

  /** `_getField(context, ast, parentType)` for a Field node (whose missing
      `typeCondition` makes its interface test dead: only the read of
      `parentType.astNode` remains of it). */
  function GetField(info: ResolveInfo, coerce: Coercion, fuel: nat, ast: Selection, parent: TypeRef): (r: Result<FieldInfo>)
    requires ast.Field?
    ensures r.Ok? ==> r.value.name == ast.name && r.value.alias == ast.alias
    decreases fuel, Size(ast), 1
  {
    if !HasAstNode(info.schema, Some(parent)) then Err(MissingAstNode)
    else match FieldsOf(info.schema, Some(parent))
      case Err(e) => Err(e)
      case Ok(declared) =>
        if ast.name !in declared then Err(FieldNotDeclared(ast.name))
        else
          var field := declared[ast.name];
          match Classify(info.schema, field.fieldType)
          case Err(e) => Err(e)
          case Ok(c) =>
            match coerce(field.args, ast.arguments)
            case Err(e) => Err(e)
            case Ok(args) =>
              var fields := if HasSelectionSet(ast) then SelectionSet(info, coerce, fuel, Single(ast), Some(Unwrap1(field.fieldType))) else Ok([]);
              match fields
              case Err(e) => Err(e)
              case Ok(sub) =>
                match StrictDirectives(info.schema, coerce, field.directives)
                case Err(e) => Err(e)
                case Ok(directives) => Ok(FieldInfo(ast.name, ast.alias, c.typeName, c.kind, args, sub, directives))
  }

  // ----------------------------------------------------- getFieldSelectionSet

  /** The parent after the interface check of the entry: narrowed to the type
      condition of `asts` when the parent is an interface and `asts` has one. */
  function Narrowed(schema: Schema, parent: TypeRef, asts: Asts): Option<TypeRef> {
    if IsInterface(schema, parent) && TypeConditionOf(asts).Some? then GetType(schema, TypeConditionOf(asts).value)
    else Some(parent)
  }

  /** `getFieldSelectionSet(context, asts, parentType)`: the parent type (the
      root type by default) must have a definition node, whose kind is read. */
  function SelectionSet(info: ResolveInfo, coerce: Coercion, fuel: nat, asts: Asts, parent: Option<TypeRef>): Result<Obj<FieldInfo>>
    decreases fuel, AstsSize(asts), 0
  {
    var p := Effective(info, parent);
    if !HasAstNode(info.schema, p) then Err(MissingAstNode)
    else
      match Selections(asts)
      case Err(e) => Err(e)
      case Ok(sels) => Collect(info, coerce, fuel, [], sels, Narrowed(info.schema, p.value, asts))
  }

  function Collect(info: ResolveInfo, coerce: Coercion, fuel: nat, acc: Obj<FieldInfo>, sels: seq<Selection>, parent: Option<TypeRef>): Result<Obj<FieldInfo>>
    decreases fuel, SizeList(sels), 4
  {
    if sels == [] then Ok(acc)
    else match Step(info, coerce, fuel, acc, sels[0], parent)
      case Err(e) => Err(e)
      case Ok(next) => Collect(info, coerce, fuel, next, sels[1..], parent)
  }

  /** `Object.assign(acc, sub)` behind an error check. */
  function Merge(acc: Obj<FieldInfo>, r: Result<Obj<FieldInfo>>): Result<Obj<FieldInfo>> {
    match r
    case Err(e) => Err(e)
    case Ok(sub) => Ok(Assign(acc, sub))
  }

  function Step(info: ResolveInfo, coerce: Coercion, fuel: nat, acc: Obj<FieldInfo>, ast: Selection, parent: Option<TypeRef>): Result<Obj<FieldInfo>>
    decreases fuel, Size(ast), 3
  {
    match Excluded(info.variableValues, ast)
    case Err(e) => Err(e)
    case Ok(excluded) =>
      if excluded then Ok(acc)
      else match ast
        case Field(_, _, _, _, _) => FieldStep(info, coerce, fuel, acc, ast, parent)
        case InlineFragment(_, _, _) => Merge(acc, SelectionSet(info, coerce, fuel, Single(ast), parent))
        case FragmentSpread(_, _) => SpreadStep(info, coerce, fuel, acc, ast, parent)
  }

  /** A Field node the parent declares goes in under its alias, or its
      name when it has none; one it does not declare is skipped. */
  function FieldStep(info: ResolveInfo, coerce: Coercion, fuel: nat, acc: Obj<FieldInfo>, ast: Selection, parent: Option<TypeRef>): Result<Obj<FieldInfo>>
    requires ast.Field?
    decreases fuel, Size(ast), 2
  {
    match FieldsOf(info.schema, parent)
    case Err(e) => Err(e)
    case Ok(declared) =>
      if ast.name !in declared then Ok(acc)
      else match GetField(info, coerce, fuel, ast, parent.value)
        case Err(e) => Err(e)
        case Ok(d) => Ok(Put(acc, KeyOf(ast.alias, ast.name), d))
  }

  /** A fragment spread walks the fragment's selections, or the resolver's
      own field nodes when the name is unknown, one level of fuel down. */
  function SpreadStep(info: ResolveInfo, coerce: Coercion, fuel: nat, acc: Obj<FieldInfo>, ast: Selection, parent: Option<TypeRef>): Result<Obj<FieldInfo>>
    requires ast.FragmentSpread?
    decreases fuel, Size(ast), 2
  {
    if fuel == 0 then Err(StackOverflow)
    else Merge(acc, SelectionSet(info, coerce, fuel - 1, SpreadSource(info, ast.name), parent))
  }

  /** The exported `getFieldSelection(context)`. */
  function GetFieldSelection(info: ResolveInfo, coerce: Coercion, fuel: nat): Result<Obj<FieldInfo>> {
    SelectionSet(info, coerce, fuel, Nodes(info.fieldNodes), None)
  }

  // ------------------------------------------------- reference definition

  /** The keys a walk writes, in the order it writes them and with repeats:
      the alias, or else the name, of every kept field that its parent type
      declares, with the selections of fragments listed in place, each
      fragment against its narrowed parent. */
  function KeptKeys(info: ResolveInfo, fuel: nat, asts: Asts, parent: Option<TypeRef>): seq<string>
    decreases fuel, AstsSize(asts), 0
  {
    var p := Effective(info, parent);
    if !HasAstNode(info.schema, p) then []
    else match Selections(asts)
      case Err(_) => []
      case Ok(sels) => KeptKeysOf(info, fuel, sels, Narrowed(info.schema, p.value, asts))
  }

  function KeptKeysOf(info: ResolveInfo, fuel: nat, sels: seq<Selection>, parent: Option<TypeRef>): seq<string>
    decreases fuel, SizeList(sels), 2
  {
    if sels == [] then []
    else KeptKeysAt(info, fuel, sels[0], parent) + KeptKeysOf(info, fuel, sels[1..], parent)
  }

  function KeptKeysAt(info: ResolveInfo, fuel: nat, ast: Selection, parent: Option<TypeRef>): seq<string>
    decreases fuel, Size(ast), 1
  {
    if Excluded(info.variableValues, ast) != Ok(false) then []
    else match ast
      case Field(name, alias, _, _, _) => if Declared(info.schema, parent, name) then [KeyOf(alias, name)] else []
      case InlineFragment(_, _, _) => KeptKeys(info, fuel, Single(ast), parent)
      case FragmentSpread(name, _) => if fuel == 0 then [] else KeptKeys(info, fuel - 1, SpreadSource(info, name), parent)
  }

  // ---------------------------------------------------------------- theorems

  /** A walk's outcome has the shape: every entry keyed by the alias of its
      field, or by its name when it has none, and no key twice. */
  ghost predicate Shaped(r: Result<Obj<FieldInfo>>) {
    r.Ok? ==> All(r.value, Keyed) && UniqueKeys(r.value)
  }

  predicate Keyed(k: string, d: FieldInfo) {
    k == KeyOf(d.alias, d.name)
  }

  /** Every entry is keyed by the alias of the field it describes, or by its
      name when it has none, and no key occurs twice. */
  lemma {:induction false} SelectionSetShape(info: ResolveInfo, coerce: Coercion, fuel: nat, asts: Asts, parent: Option<TypeRef>)
    ensures Shaped(SelectionSet(info, coerce, fuel, asts, parent))
    decreases fuel, AstsSize(asts), 0
  {
    var p := Effective(info, parent);
    if HasAstNode(info.schema, p) {
      match Selections(asts)
      case Err(e) =>
      case Ok(sels) => CollectShape(info, coerce, fuel, [], sels, Narrowed(info.schema, p.value, asts));
    }
  }

  lemma {:induction false} CollectShape(info: ResolveInfo, coerce: Coercion, fuel: nat, acc: Obj<FieldInfo>, sels: seq<Selection>, parent: Option<TypeRef>)
    requires All(acc, Keyed) && UniqueKeys(acc)
    ensures Shaped(Collect(info, coerce, fuel, acc, sels, parent))
    decreases fuel, SizeList(sels), 4
  {
    if sels != [] {
      StepShape(info, coerce, fuel, acc, sels[0], parent);
      match Step(info, coerce, fuel, acc, sels[0], parent)
      case Err(e) =>
      case Ok(next) => CollectShape(info, coerce, fuel, next, sels[1..], parent);
    }
  }

  lemma {:induction false} StepShape(info: ResolveInfo, coerce: Coercion, fuel: nat, acc: Obj<FieldInfo>, ast: Selection, parent: Option<TypeRef>)
    requires All(acc, Keyed) && UniqueKeys(acc)
    ensures Shaped(Step(info, coerce, fuel, acc, ast, parent))
    decreases fuel, Size(ast), 3
  {
    match ast
    case Field(_, _, _, _, _) => FieldShape(info, coerce, fuel, acc, ast, parent);
    case InlineFragment(_, _, _) => MergedShape(info, coerce, fuel, acc, Single(ast), parent);
    case FragmentSpread(_, _) => if fuel > 0 { SpreadShape(info, coerce, fuel - 1, acc, ast, parent); }
  }

  lemma FieldShape(info: ResolveInfo, coerce: Coercion, fuel: nat, acc: Obj<FieldInfo>, ast: Selection, parent: Option<TypeRef>)
    requires ast.Field?
    requires All(acc, Keyed) && UniqueKeys(acc)
    ensures Shaped(FieldStep(info, coerce, fuel, acc, ast, parent))
  {
    var p := Keyed;
    var r := FieldStep(info, coerce, fuel, acc, ast, parent);
    if r.Ok? && r.value != acc {
      var d := GetField(info, coerce, fuel, ast, parent.value).value;
      var key := KeyOf(ast.alias, ast.name);
      assert r.value == Put(acc, key, d);
      assert p(key, d);
      PutAll(acc, key, d, p);
      PutUnique(acc, key, d);
    }
  }

  /** A spread with fuel `f + 1` left walks its source with fuel `f`. */
  lemma {:induction false} SpreadShape(info: ResolveInfo, coerce: Coercion, f: nat, acc: Obj<FieldInfo>, ast: Selection, parent: Option<TypeRef>)
    requires ast.FragmentSpread?
    requires All(acc, Keyed) && UniqueKeys(acc)
    ensures Shaped(SpreadStep(info, coerce, f + 1, acc, ast, parent))
    decreases f + 1, Size(ast), 2
  {
    MergedShape(info, coerce, f, acc, SpreadSource(info, ast.name), parent);
  }

  /** Assigning a walk's outcome onto an object of the shape keeps the shape. */
  lemma MergedShape(info: ResolveInfo, coerce: Coercion, fuel: nat, acc: Obj<FieldInfo>, asts: Asts, parent: Option<TypeRef>)
    requires All(acc, Keyed) && UniqueKeys(acc)
    ensures Shaped(Merge(acc, SelectionSet(info, coerce, fuel, asts, parent)))
    decreases fuel, AstsSize(asts), 1
  {
    SelectionSetShape(info, coerce, fuel, asts, parent);
    var r := SelectionSet(info, coerce, fuel, asts, parent);
    if r.Ok? {
      AssignAll(acc, r.value, Keyed);
      AssignUnique(acc, r.value);
    }
  }

  /** A kept field that the parent type declares is written under its alias,
      or its name when it has none: the step succeeds exactly when the
      field's descriptor does, and then that key reads the descriptor and
      every other key reads as before. */
  lemma KeptFieldPresent(info: ResolveInfo, coerce: Coercion, fuel: nat, acc: Obj<FieldInfo>, ast: Selection, parent: Option<TypeRef>)
    requires ast.Field? && Excluded(info.variableValues, ast) == Ok(false) && Declared(info.schema, parent, ast.name)
    ensures var r := Step(info, coerce, fuel, acc, ast, parent);
            var d := GetField(info, coerce, fuel, ast, parent.value);
            var key := KeyOf(ast.alias, ast.name);
            && (d.Err? ==> r == Err(d.error))
            && (d.Ok? ==> r.Ok? && Get(r.value, key) == Some(d.value)
                          && forall k :: k != key ==> Get(r.value, k) == Get(acc, k))
  {
    assert Step(info, coerce, fuel, acc, ast, parent) == FieldStep(info, coerce, fuel, acc, ast, parent);
  }

  /** A kept field that the parent type does not declare is skipped. */
  lemma UndeclaredFieldSkipped(info: ResolveInfo, coerce: Coercion, fuel: nat, acc: Obj<FieldInfo>, ast: Selection, parent: Option<TypeRef>)
    requires ast.Field? && Excluded(info.variableValues, ast) == Ok(false)
    requires FieldsOf(info.schema, parent).Ok? && !Declared(info.schema, parent, ast.name)
    ensures Step(info, coerce, fuel, acc, ast, parent) == Ok(acc)
  {
    assert FieldStep(info, coerce, fuel, acc, ast, parent) == Ok(acc);
  }

  /** A kept inline fragment merges its own walk into the accumulator: the
      step succeeds exactly when that walk does, a key the walk wrote reads
      the walk's value (overwriting an earlier one), and every other key
      reads as before. */
  lemma InlineFragmentMerged(info: ResolveInfo, coerce: Coercion, fuel: nat, acc: Obj<FieldInfo>, ast: Selection, parent: Option<TypeRef>)
    requires ast.InlineFragment? && Excluded(info.variableValues, ast) == Ok(false)
    ensures var r := Step(info, coerce, fuel, acc, ast, parent);
            var sub := SelectionSet(info, coerce, fuel, Single(ast), parent);
            && (r.Ok? <==> sub.Ok?)
            && (r.Ok? ==> forall k :: Get(r.value, k) == if k in Keys(sub.value) then Get(sub.value, k) else Get(acc, k))
  {
    MergedReads(info, coerce, fuel, acc, Single(ast), parent);
  }

  /** A kept spread with fuel `f + 1` left merges the walk of its source with
      fuel `f` in the same way; with no fuel left it overflows. */
  lemma SpreadMerged(info: ResolveInfo, coerce: Coercion, f: nat, acc: Obj<FieldInfo>, ast: Selection, parent: Option<TypeRef>)
    requires ast.FragmentSpread? && Excluded(info.variableValues, ast) == Ok(false)
    ensures Step(info, coerce, 0, acc, ast, parent) == Err(StackOverflow)
    ensures var r := Step(info, coerce, f + 1, acc, ast, parent);
            var sub := SelectionSet(info, coerce, f, SpreadSource(info, ast.name), parent);
            && (r.Ok? <==> sub.Ok?)
            && (r.Ok? ==> forall k :: Get(r.value, k) == if k in Keys(sub.value) then Get(sub.value, k) else Get(acc, k))
  {
    assert Step(info, coerce, f + 1, acc, ast, parent) == SpreadStep(info, coerce, f + 1, acc, ast, parent);
    MergedReads(info, coerce, f, acc, SpreadSource(info, ast.name), parent);
  }

  lemma MergedReads(info: ResolveInfo, coerce: Coercion, fuel: nat, acc: Obj<FieldInfo>, asts: Asts, parent: Option<TypeRef>)
    ensures var r := Merge(acc, SelectionSet(info, coerce, fuel, asts, parent));
            var sub := SelectionSet(info, coerce, fuel, asts, parent);
            && (r.Ok? <==> sub.Ok?)
            && (r.Ok? ==> forall k :: Get(r.value, k) == if k in Keys(sub.value) then Get(sub.value, k) else Get(acc, k))
  {
    var sub := SelectionSet(info, coerce, fuel, asts, parent);
    if sub.Ok? {
      SelectionSetShape(info, coerce, fuel, asts, parent);
      forall k ensures Get(Assign(acc, sub.value), k) == if k in Keys(sub.value) then Get(sub.value, k) else Get(acc, k) {
        AssignReads(acc, sub.value, k);
      }
    }
  }

  /** A successful walk lists, as its keys, the alias (else the name) of every
      kept field that its parent type declares, each once, at the position
      where the walk first meets it: fragments contribute their fields in
      place and a later field under the same key overwrites the earlier one
      without moving it. */
  lemma {:induction false} SelectionSetKeys(info: ResolveInfo, coerce: Coercion, fuel: nat, asts: Asts, parent: Option<TypeRef>)
    ensures var r := SelectionSet(info, coerce, fuel, asts, parent);
            r.Ok? ==> Keys(r.value) == Dedup(KeptKeys(info, fuel, asts, parent))
    decreases fuel, AstsSize(asts), 0
  {
    var p := Effective(info, parent);
    if HasAstNode(info.schema, p) {
      match Selections(asts)
      case Err(_) =>
      case Ok(sels) => CollectKeys(info, coerce, fuel, [], sels, Narrowed(info.schema, p.value, asts));
    }
  }

  lemma {:induction false} CollectKeys(info: ResolveInfo, coerce: Coercion, fuel: nat, acc: Obj<FieldInfo>, sels: seq<Selection>, parent: Option<TypeRef>)
    ensures var r := Collect(info, coerce, fuel, acc, sels, parent);
            r.Ok? ==> Keys(r.value) == DedupOnto(Keys(acc), KeptKeysOf(info, fuel, sels, parent))
    decreases fuel, SizeList(sels), 4
  {
    if sels != [] {
      StepKeys(info, coerce, fuel, acc, sels[0], parent);
      match Step(info, coerce, fuel, acc, sels[0], parent)
      case Err(_) =>
      case Ok(next) =>
        CollectKeys(info, coerce, fuel, next, sels[1..], parent);
        DedupOntoConcat(Keys(acc), KeptKeysAt(info, fuel, sels[0], parent), KeptKeysOf(info, fuel, sels[1..], parent));
    }
  }

  lemma {:induction false} StepKeys(info: ResolveInfo, coerce: Coercion, fuel: nat, acc: Obj<FieldInfo>, ast: Selection, parent: Option<TypeRef>)
    ensures var r := Step(info, coerce, fuel, acc, ast, parent);
            r.Ok? ==> Keys(r.value) == DedupOnto(Keys(acc), KeptKeysAt(info, fuel, ast, parent))
    decreases fuel, Size(ast), 3
  {
    if Excluded(info.variableValues, ast) != Ok(false) {
      SkippedKeys(info, coerce, fuel, acc, ast, parent);
    } else if ast.Field? {
      FieldKeys(info, coerce, fuel, acc, ast, parent);
    } else if ast.InlineFragment? {
      InlineFragmentKeys(info, coerce, fuel, acc, ast, parent);
    } else if fuel > 0 {
      SpreadKeys(info, coerce, fuel - 1, acc, ast, parent);
    } else {
      SpreadKeysNoFuel(info, coerce, acc, ast, parent);
    }
  }

  lemma SkippedKeys(info: ResolveInfo, coerce: Coercion, fuel: nat, acc: Obj<FieldInfo>, ast: Selection, parent: Option<TypeRef>)
    requires Excluded(info.variableValues, ast) != Ok(false)
    ensures var r := Step(info, coerce, fuel, acc, ast, parent);
            r.Ok? ==> Keys(r.value) == DedupOnto(Keys(acc), KeptKeysAt(info, fuel, ast, parent))
  {
  }

  lemma SpreadKeysNoFuel(info: ResolveInfo, coerce: Coercion, acc: Obj<FieldInfo>, ast: Selection, parent: Option<TypeRef>)
    requires ast.FragmentSpread? && Excluded(info.variableValues, ast) == Ok(false)
    ensures var r := Step(info, coerce, 0, acc, ast, parent);
            r.Ok? ==> Keys(r.value) == DedupOnto(Keys(acc), KeptKeysAt(info, 0, ast, parent))
  {
    assert Step(info, coerce, 0, acc, ast, parent) == SpreadStep(info, coerce, 0, acc, ast, parent);
  }

  lemma FieldKeys(info: ResolveInfo, coerce: Coercion, fuel: nat, acc: Obj<FieldInfo>, ast: Selection, parent: Option<TypeRef>)
    requires ast.Field? && Excluded(info.variableValues, ast) == Ok(false)
    ensures var r := Step(info, coerce, fuel, acc, ast, parent);
            r.Ok? ==> Keys(r.value) == DedupOnto(Keys(acc), KeptKeysAt(info, fuel, ast, parent))
  {
    assert Step(info, coerce, fuel, acc, ast, parent) == FieldStep(info, coerce, fuel, acc, ast, parent);
    var key := KeyOf(ast.alias, ast.name);
    if Declared(info.schema, parent, ast.name) {
      assert KeptKeysAt(info, fuel, ast, parent) == [key];
      var d := GetField(info, coerce, fuel, ast, parent.value);
      if d.Ok? {
        PutIsDedupOnto(acc, key, d.value);
      }
    } else {
      assert KeptKeysAt(info, fuel, ast, parent) == [];
    }
  }

  lemma {:induction false} InlineFragmentKeys(info: ResolveInfo, coerce: Coercion, fuel: nat, acc: Obj<FieldInfo>, ast: Selection, parent: Option<TypeRef>)
    requires ast.InlineFragment? && Excluded(info.variableValues, ast) == Ok(false)
    ensures var r := Step(info, coerce, fuel, acc, ast, parent);
            r.Ok? ==> Keys(r.value) == DedupOnto(Keys(acc), KeptKeysAt(info, fuel, ast, parent))
    decreases fuel, Size(ast), 2
  {
    MergedKeys(info, coerce, fuel, acc, Single(ast), parent);
  }

  /** A spread with fuel `f + 1` left adds the keys of its source walked with fuel `f`. */
  lemma {:induction false} SpreadKeys(info: ResolveInfo, coerce: Coercion, f: nat, acc: Obj<FieldInfo>, ast: Selection, parent: Option<TypeRef>)
    requires ast.FragmentSpread? && Excluded(info.variableValues, ast) == Ok(false)
    ensures var r := Step(info, coerce, f + 1, acc, ast, parent);
            r.Ok? ==> Keys(r.value) == DedupOnto(Keys(acc), KeptKeysAt(info, f + 1, ast, parent))
    decreases f + 1, Size(ast), 2
  {
    assert Step(info, coerce, f + 1, acc, ast, parent) == SpreadStep(info, coerce, f + 1, acc, ast, parent);
    MergedKeys(info, coerce, f, acc, SpreadSource(info, ast.name), parent);
  }

  lemma {:induction false} MergedKeys(info: ResolveInfo, coerce: Coercion, fuel: nat, acc: Obj<FieldInfo>, asts: Asts, parent: Option<TypeRef>)
    ensures var r := Merge(acc, SelectionSet(info, coerce, fuel, asts, parent));
            r.Ok? ==> Keys(r.value) == DedupOnto(Keys(acc), KeptKeys(info, fuel, asts, parent))
    decreases fuel, AstsSize(asts), 1
  {
    SelectionSetKeys(info, coerce, fuel, asts, parent);
    DedupOntoDedup(Keys(acc), KeptKeys(info, fuel, asts, parent));
  }

  /** Under an interface parent, the selections of an inline fragment are
      walked against the type its condition names, exactly as if that type
      were the parent and the fragment had no condition. */
  lemma NarrowsToCondition(info: ResolveInfo, coerce: Coercion, fuel: nat, parent: TypeRef, condition: string,
                           ds: seq<Directive>, sels: seq<Selection>)
    requires IsInterface(info.schema, parent)
    requires HasAstNode(info.schema, Some(Named(condition)))
    ensures SelectionSet(info, coerce, fuel, Single(InlineFragment(Some(condition), ds, sels)), Some(parent))
         == SelectionSet(info, coerce, fuel, Single(InlineFragment(None, ds, sels)), Some(Named(condition)))
  {
  }

  /** The same holds for a named fragment spread under an interface parent. */
  lemma FragmentNarrowsToCondition(info: ResolveInfo, coerce: Coercion, fuel: nat, parent: TypeRef, fragment: FragmentDef)
    requires IsInterface(info.schema, parent)
    requires HasAstNode(info.schema, Some(Named(fragment.typeCondition)))
    ensures SelectionSet(info, coerce, fuel, Definition(fragment), Some(parent))
         == SelectionSet(info, coerce, fuel, Single(InlineFragment(None, [], fragment.selections)), Some(Named(fragment.typeCondition)))
  {
  }

  /** A parent that is not an interface is never narrowed. */
  lemma NoNarrowingOutsideInterfaces(info: ResolveInfo, coerce: Coercion, fuel: nat, parent: TypeRef, condition: Option<string>,
                                     ds: seq<Directive>, sels: seq<Selection>)
    requires !IsInterface(info.schema, parent)
    ensures SelectionSet(info, coerce, fuel, Single(InlineFragment(condition, ds, sels)), Some(parent))
         == SelectionSet(info, coerce, fuel, Single(InlineFragment(None, ds, sels)), Some(parent))
  {
  }

  /** The descriptor of a declared field: kind and type classified from the
      declared type, the coerced call arguments, no sub-fields for a leaf and
      otherwise the walk against the declared type unwrapped one level, and
      the strict directives of the schema declaration. */
  lemma GetFieldMeaning(info: ResolveInfo, coerce: Coercion, fuel: nat, ast: Selection, parent: TypeRef)
    requires ast.Field? && HasAstNode(info.schema, Some(parent))
    requires FieldsOf(info.schema, Some(parent)).Ok? && ast.name in FieldsOf(info.schema, Some(parent)).value
    requires WellFormed(FieldsOf(info.schema, Some(parent)).value[ast.name].fieldType)
    ensures var field := FieldsOf(info.schema, Some(parent)).value[ast.name];
            var r := GetField(info, coerce, fuel, ast, parent);
            && (r.Ok? <==> && coerce(field.args, ast.arguments).Ok?
                           && (HasSelectionSet(ast) ==> SelectionSet(info, coerce, fuel, Single(ast), Some(Unwrap1(field.fieldType))).Ok?)
                           && (forall i :: 0 <= i < |field.directives| ==> Coerces(info.schema, coerce, field.directives[i])))
            && (r.Ok? ==>
                  && r.value.name == ast.name && r.value.alias == ast.alias
                  && (r.value.kind == CONNECTION <==> IsConnectionType(field.fieldType))
                  && (r.value.kind == LIST <==> IsListType(field.fieldType))
                  && (r.value.kind == ONE <==> !IsListType(field.fieldType) && !IsConnectionType(field.fieldType))
                  && r.value.typeName ==
                       (if IsInterface(info.schema, Unwrap1(field.fieldType)) then Some("")
                        else if IsConnectionType(field.fieldType) then Some(ReplaceFirst(field.fieldType.name, Connection, ""))
                        else NameOf(Unwrap1(field.fieldType)))
                  && r.value.args == coerce(field.args, ast.arguments).value
                  && (!HasSelectionSet(ast) ==> r.value.fields == [])
                  && (HasSelectionSet(ast) ==> Ok(r.value.fields) == SelectionSet(info, coerce, fuel, Single(ast), Some(Unwrap1(field.fieldType))))
                  && Ok(r.value.directives) == StrictDirectives(info.schema, coerce, field.directives))
  {
    var field := FieldsOf(info.schema, Some(parent)).value[ast.name];
    ClassifyMeaning(info.schema, field.fieldType);
    StrictDirectivesMeaning(info.schema, coerce, [], field.directives);
  }

  /** A field of type `[T]!` or `[T!]` with a selection set fails as soon as its
      sub-walk starts: the type unwrapped one level is a wrapper, which has no
      definition node. */
  lemma WrappedTargetFails(info: ResolveInfo, coerce: Coercion, fuel: nat, ast: Selection, parent: TypeRef)
    requires ast.Field? && HasAstNode(info.schema, Some(parent))
    requires FieldsOf(info.schema, Some(parent)).Ok? && ast.name in FieldsOf(info.schema, Some(parent)).value
    requires WellFormed(FieldsOf(info.schema, Some(parent)).value[ast.name].fieldType)
    requires !Unwrap1(FieldsOf(info.schema, Some(parent)).value[ast.name].fieldType).Named?
    requires coerce(FieldsOf(info.schema, Some(parent)).value[ast.name].args, ast.arguments).Ok?
    requires HasSelectionSet(ast)
    ensures GetField(info, coerce, fuel, ast, parent) == Err(MissingAstNode)
  {
    ClassifyMeaning(info.schema, FieldsOf(info.schema, Some(parent)).value[ast.name].fieldType);
  }

  /** An excluded selection contributes nothing, subtree included. */
  lemma {:induction false} ExcludedContributesNothing(info: ResolveInfo, coerce: Coercion, fuel: nat, acc: Obj<FieldInfo>,
                                                      before: seq<Selection>, ast: Selection, after: seq<Selection>,
                                                      parent: Option<TypeRef>)
    requires Excluded(info.variableValues, ast) == Ok(true)
    ensures Collect(info, coerce, fuel, acc, before + [ast] + after, parent) == Collect(info, coerce, fuel, acc, before + after, parent)
    decreases |before|
  {
    if before == [] {
      assert ([ast] + after)[1..] == after;
      assert before + [ast] + after == [ast] + after;
      assert before + after == after;
      assert Step(info, coerce, fuel, acc, ast, parent) == Ok(acc);
    } else {
      assert (before + [ast] + after)[0] == before[0];
      assert (before + [ast] + after)[1..] == before[1..] + [ast] + after;
      assert (before + after)[0] == before[0];
      assert (before + after)[1..] == before[1..] + after;
      match Step(info, coerce, fuel, acc, before[0], parent)
      case Err(e) =>
      case Ok(next) => ExcludedContributesNothing(info, coerce, fuel, next, before[1..], ast, after, parent);
    }
  }

  /** A spread of an undefined fragment as the first root selection does not
      read a selection set of `undefined`: the default parameter restarts the
      walk from the root with the same parent, every time, until the stack
      overflows. */
  lemma {:induction false} UnknownFragmentAtRootOverflows(info: ResolveInfo, coerce: Coercion, fuel: nat, parent: Option<TypeRef>, name: string)
    requires HasAstNode(info.schema, RootType(info)) && (parent == None || parent == RootType(info))
    requires ConcatSelections(info.fieldNodes).Ok? && ConcatSelections(info.fieldNodes).value != []
    requires ConcatSelections(info.fieldNodes).value[0] == FragmentSpread(name, [])
    requires name !in info.fragments
    ensures SelectionSet(info, coerce, fuel, Nodes(info.fieldNodes), parent) == Err(StackOverflow)
    decreases fuel, 2
  {
    var sels := ConcatSelections(info.fieldNodes).value;
    var root := RootType(info);
    assert Effective(info, parent) == root;
    assert Narrowed(info.schema, root.value, Nodes(info.fieldNodes)) == root;
    assert SelectionSet(info, coerce, fuel, Nodes(info.fieldNodes), parent) == Collect(info, coerce, fuel, [], sels, root);
    SpreadAtRootOverflows(info, coerce, fuel, sels[0], name);
  }

  lemma SpreadAtRootOverflows(info: ResolveInfo, coerce: Coercion, fuel: nat, spread: Selection, name: string)
    requires HasAstNode(info.schema, RootType(info))
    requires ConcatSelections(info.fieldNodes).Ok? && ConcatSelections(info.fieldNodes).value != []
    requires ConcatSelections(info.fieldNodes).value[0] == FragmentSpread(name, []) == spread
    requires name !in info.fragments
    ensures Step(info, coerce, fuel, [], spread, RootType(info)) == Err(StackOverflow)
    decreases fuel, 1
  {
    assert Excluded(info.variableValues, spread) == Ok(false);
    if fuel > 0 {
      assert SpreadSource(info, name) == Nodes(info.fieldNodes);
      UnknownFragmentAtRootOverflows(info, coerce, fuel - 1, RootType(info), name);
    }
    assert SpreadStep(info, coerce, fuel, [], spread, RootType(info)) == Err(StackOverflow);
  }
}
