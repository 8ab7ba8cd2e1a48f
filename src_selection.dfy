/**
 * The tree walker of the src variant: `getFieldSelection` describes every
 * kept field below the resolver's field by its name, classified type, call
 * arguments, sub-fields and the directives written on its schema
 * declaration, whose object-valued arguments nest.
 */
module SrcSelection {
  import opened Js
  import opened GraphQL
  import opened Inclusion
  import opened CallArguments
  import opened Classification

  /** The descriptor `{__name, __type, __kind, __args, __fields, __directives}`. */
  datatype FieldInfo = FieldInfo(
    name: string,
    typeName: Option<string>,
    kind: Kind,
    args: Obj<JsValue>,
    fields: Obj<FieldInfo>,
    directives: Obj<Obj<JsValue>>)

  // ---------------------------------------------------- getDirectiveArguments

  /** `getDirectiveArguments(args)`: an object value (one with `fields`)
      becomes a nested object, any other value its `value` property. */
  function DirectiveArguments(args: seq<Argument>): Obj<JsValue>
    decreases args, 1
  {
    DirectiveArgumentsFrom([], args)
  }

  function DirectiveArgumentsFrom(obj: Obj<JsValue>, args: seq<Argument>): Obj<JsValue>
    decreases args, 0
  {
    if args == [] then obj
    else DirectiveArgumentsFrom(Put(obj, args[0].name, DirectiveValue(args[0].value)), args[1..])
  }

  function DirectiveValue(v: ValueNode): JsValue
    decreases v
  {
    if v.ObjectValue? then Object(DirectiveArguments(v.fields)) else LiteralValue(v)
  }

  /** The `reduce` of `getDirectiveArguments`, recursing into object values. */
  method GetDirectiveArguments(args: seq<Argument>) returns (obj: Obj<JsValue>)
    ensures obj == DirectiveArguments(args)
    decreases args
  {
    obj := [];
    var i := 0;
    while i < |args|
      invariant 0 <= i <= |args|
      invariant DirectiveArgumentsFrom(obj, args[i..]) == DirectiveArguments(args)
    {
      var argument := args[i];
      assert args[i..][0] == argument && args[i..][1..] == args[i + 1..];
      var value: JsValue;
      if argument.value.ObjectValue? {
        var nested := GetDirectiveArguments(argument.value.fields);
        value := Object(nested);
      } else {
        value := LiteralValue(argument.value);
      }
      assert value == DirectiveValue(argument.value);
      obj := Put(obj, argument.name, value);
      i := i + 1;
    }
    assert args[i..] == [];
  }

  function DirectiveEntries(args: seq<Argument>): (o: Obj<JsValue>)
    ensures Keys(o) == Names(args)
  {
    seq(|args|, i requires 0 <= i < |args| => (args[i].name, DirectiveValue(args[i].value)))
  }

  lemma {:induction false} DirectiveArgumentsFromIsAssign(obj: Obj<JsValue>, args: seq<Argument>)
    ensures DirectiveArgumentsFrom(obj, args) == Assign(obj, DirectiveEntries(args))
    decreases |args|
  {
    if args != [] {
      var e := DirectiveEntries(args);
      assert e[1..] == DirectiveEntries(args[1..]);
      assert e[0] == (args[0].name, DirectiveValue(args[0].value));
      DirectiveArgumentsFromIsAssign(Put(obj, args[0].name, DirectiveValue(args[0].value)), args[1..]);
      assert Assign(obj, e) == Assign(Put(obj, e[0].0, e[0].1), e[1..]);
    }
  }

  /** One entry per distinct argument name of the directive, in first-seen
      order; the last argument of a name decides its value, and an object
      value is described recursively as a nested object. */
  lemma DirectiveArgumentsMeaning(args: seq<Argument>)
    ensures Keys(DirectiveArguments(args)) == Dedup(Names(args))
    ensures forall i :: 0 <= i < |args| && (forall j :: i < j < |args| ==> args[j].name != args[i].name) ==>
              Get(DirectiveArguments(args), args[i].name) ==
                Some(if args[i].value.ObjectValue? then Object(DirectiveArguments(args[i].value.fields))
                     else LiteralValue(args[i].value))
  {
    DirectiveArgumentsFromIsAssign([], args);
    forall i | 0 <= i < |args| && (forall j :: i < j < |args| ==> args[j].name != args[i].name)
      ensures Get(DirectiveArguments(args), args[i].name) == Some(DirectiveValue(args[i].value))
    {
      DirectiveArgumentLast(args, i);
    }
  }

  lemma DirectiveArgumentLast(args: seq<Argument>, i: nat)
    requires i < |args| && forall j :: i < j < |args| ==> args[j].name != args[i].name
    ensures Get(DirectiveArguments(args), args[i].name) == Some(DirectiveValue(args[i].value))
  {
    DirectiveArgumentsFromIsAssign([], args);
    var e := DirectiveEntries(args);
    assert e[i] == (args[i].name, DirectiveValue(args[i].value));
    AssignLastWins([], e, i);
  }

  // ------------------------------------------------------------ findDirective

  /** The `forEach` of `findDirective` over the directives of the declaration. */
  function SchemaDirectivesFrom(acc: Obj<Obj<JsValue>>, ds: seq<Directive>): Obj<Obj<JsValue>>
    decreases |ds|
  {
    if ds == [] then acc
    else SchemaDirectivesFrom(Put(acc, ds[0].name, DirectiveArguments(ds[0].arguments)), ds[1..])
  }

  function SchemaDirectives(ds: seq<Directive>): Obj<Obj<JsValue>> {
    SchemaDirectivesFrom([], ds)
  }

  /** `findDirective(fieldName, parentType)` as a specification: the field is
      looked up on the parent type, and its declaration's directives read. */
  function FieldDirectives(schema: Schema, parent: Option<TypeRef>, fieldName: string): Result<Obj<Obj<JsValue>>> {
    match FieldsOf(schema, parent)
    case Err(e) => Err(e)
    case Ok(declared) =>
      if fieldName !in declared then Err(FieldNotDeclared(fieldName))
      else Ok(SchemaDirectives(declared[fieldName].directives))
  }

  method FindDirective(schema: Schema, fieldName: string, parent: Option<TypeRef>) returns (r: Result<Obj<Obj<JsValue>>>)
    ensures r == FieldDirectives(schema, parent, fieldName)
  {
    var declared := FieldsOf(schema, parent);
    if declared.Err? {
      return Err(declared.error);
    }
    if fieldName !in declared.value {
      return Err(FieldNotDeclared(fieldName));
    }
    var ds := declared.value[fieldName].directives;
    var directives: Obj<Obj<JsValue>> := [];
    var i := 0;
    while i < |ds|
      invariant 0 <= i <= |ds|
      invariant SchemaDirectivesFrom(directives, ds[i..]) == SchemaDirectives(ds)
    {
      assert ds[i..][0] == ds[i] && ds[i..][1..] == ds[i + 1..];
      var options := GetDirectiveArguments(ds[i].arguments);
      directives := Put(directives, ds[i].name, options);
      i := i + 1;
    }
    assert ds[i..] == [];
    return Ok(directives);
  }

  function DirectiveNames(ds: seq<Directive>): (ns: seq<string>)
    ensures |ns| == |ds| && forall i :: 0 <= i < |ds| ==> ns[i] == ds[i].name
  {
    seq(|ds|, i requires 0 <= i < |ds| => ds[i].name)
  }

  function DirectiveTable(ds: seq<Directive>): (o: Obj<Obj<JsValue>>)
    ensures Keys(o) == DirectiveNames(ds)
  {
    seq(|ds|, i requires 0 <= i < |ds| => (ds[i].name, DirectiveArguments(ds[i].arguments)))
  }

  lemma {:induction false} SchemaDirectivesFromIsAssign(acc: Obj<Obj<JsValue>>, ds: seq<Directive>)
    ensures SchemaDirectivesFrom(acc, ds) == Assign(acc, DirectiveTable(ds))
    decreases |ds|
  {
    if ds != [] {
      var t := DirectiveTable(ds);
      assert t[1..] == DirectiveTable(ds[1..]);
      SchemaDirectivesFromIsAssign(Put(acc, ds[0].name, DirectiveArguments(ds[0].arguments)), ds[1..]);
      assert Assign(acc, t) == Assign(Put(acc, t[0].0, t[0].1), t[1..]);
    }
  }

  /** One entry per distinct directive name of the declaration, in first-seen
      order, the last directive of a name deciding its arguments. */
  lemma SchemaDirectivesMeaning(ds: seq<Directive>)
    ensures Keys(SchemaDirectives(ds)) == Dedup(DirectiveNames(ds))
    ensures forall i :: 0 <= i < |ds| && (forall j :: i < j < |ds| ==> ds[j].name != ds[i].name) ==>
              Get(SchemaDirectives(ds), ds[i].name) == Some(DirectiveArguments(ds[i].arguments))
  {
    SchemaDirectivesFromIsAssign([], ds);
    forall i | 0 <= i < |ds| && (forall j :: i < j < |ds| ==> ds[j].name != ds[i].name)
      ensures Get(SchemaDirectives(ds), ds[i].name) == Some(DirectiveArguments(ds[i].arguments))
    {
      AssignLastWins([], DirectiveTable(ds), i);
    }
  }

  // ----------------------------------------------------------------- getField

  /** `getField(context, ast, parentType)` for a Field node.  The interface
      test on `ast.typeCondition` never holds for a Field node, so only the
      read of `parentType.astNode` remains of it. */
  function GetField(info: ResolveInfo, fuel: nat, ast: Selection, parent: TypeRef): (r: Result<FieldInfo>)
    requires ast.Field?
    ensures r.Ok? ==> r.value.name == ast.name
    decreases fuel, Size(ast), 1
  {
    if !HasAstNode(info.schema, Some(parent)) then Err(MissingAstNode)
    else match FieldsOf(info.schema, Some(parent))
      case Err(e) => Err(e)
      case Ok(declared) =>
        if ast.name !in declared then Err(FieldNotDeclared(ast.name))
        else
          var astType := declared[ast.name].fieldType;
          match Classify(info.schema, astType)
          case Err(e) => Err(e)
          case Ok(c) =>
            var args := ArgumentsOf(info.variableValues, ast.arguments);
            var fields := if HasSelectionSet(ast) then SelectionSet(info, fuel, Single(ast), Some(Unwrap1(astType))) else Ok([]);
            match fields
            case Err(e) => Err(e)
            case Ok(sub) => Ok(FieldInfo(ast.name, c.typeName, c.kind, args, sub, SchemaDirectives(declared[ast.name].directives)))
  }

  // ----------------------------------------------------- getFieldSelectionSet

  /** `getFieldSelectionSet(context, asts, parentType)`. */
  function SelectionSet(info: ResolveInfo, fuel: nat, asts: Asts, parent: Option<TypeRef>): Result<Obj<FieldInfo>>
    decreases fuel, AstsSize(asts), 0
  {
    match Selections(asts)
    case Err(e) => Err(e)
    case Ok(sels) => Collect(info, fuel, [], sels, Effective(info, parent))
  }

  function Collect(info: ResolveInfo, fuel: nat, acc: Obj<FieldInfo>, sels: seq<Selection>, parent: Option<TypeRef>): Result<Obj<FieldInfo>>
    decreases fuel, SizeList(sels), 4
  {
    if sels == [] then Ok(acc)
    else match Step(info, fuel, acc, sels[0], parent)
      case Err(e) => Err(e)
      case Ok(next) => Collect(info, fuel, next, sels[1..], parent)
  }

  /** `Object.assign(acc, sub)` behind an error check. */
  function Merge(acc: Obj<FieldInfo>, r: Result<Obj<FieldInfo>>): Result<Obj<FieldInfo>> {
    match r
    case Err(e) => Err(e)
    case Ok(sub) => Ok(Assign(acc, sub))
  }

  function Step(info: ResolveInfo, fuel: nat, acc: Obj<FieldInfo>, ast: Selection, parent: Option<TypeRef>): Result<Obj<FieldInfo>>
    decreases fuel, Size(ast), 3
  {
    match Excluded(info.variableValues, ast)
    case Err(e) => Err(e)
    case Ok(excluded) =>
      if excluded then Ok(acc)
      else match ast
        case Field(_, _, _, _, _) => FieldStep(info, fuel, acc, ast, parent)
        case InlineFragment(_, _, _) => Merge(acc, SelectionSet(info, fuel, Single(ast), parent))
        case FragmentSpread(_, _) => SpreadStep(info, fuel, acc, ast, parent)
  }

  /** A Field node the parent declares goes in under its name; one it
      does not declare is skipped. */
  function FieldStep(info: ResolveInfo, fuel: nat, acc: Obj<FieldInfo>, ast: Selection, parent: Option<TypeRef>): Result<Obj<FieldInfo>>
    requires ast.Field?
    decreases fuel, Size(ast), 2
  {
    match FieldsOf(info.schema, parent)
    case Err(e) => Err(e)
    case Ok(declared) =>
      if ast.name !in declared then Ok(acc)
      else match GetField(info, fuel, ast, parent.value)
        case Err(e) => Err(e)
        case Ok(d) => Ok(Put(acc, ast.name, d))
  }

  /** A fragment spread walks the fragment's selections, or the resolver's
      own field nodes when the name is unknown, one level of fuel down. */
  function SpreadStep(info: ResolveInfo, fuel: nat, acc: Obj<FieldInfo>, ast: Selection, parent: Option<TypeRef>): Result<Obj<FieldInfo>>
    requires ast.FragmentSpread?
    decreases fuel, Size(ast), 2
  {
    if fuel == 0 then Err(StackOverflow)
    else Merge(acc, SelectionSet(info, fuel - 1, SpreadSource(info, ast.name), parent))
  }

  /** The exported `getFieldSelection(context)`. */
  function GetFieldSelection(info: ResolveInfo, fuel: nat): Result<Obj<FieldInfo>> {
    SelectionSet(info, fuel, Nodes(info.fieldNodes), None)
  }

  // ------------------------------------------------- reference definition

  /** The keys a walk writes, in the order it writes them and with repeats:
      the name of every kept field that its parent type declares, with the
      selections of fragments listed in place. */
  function KeptNames(info: ResolveInfo, fuel: nat, asts: Asts, parent: Option<TypeRef>): seq<string>
    decreases fuel, AstsSize(asts), 0
  {
    match Selections(asts)
    case Err(_) => []
    case Ok(sels) => KeptNamesOf(info, fuel, sels, Effective(info, parent))
  }

  function KeptNamesOf(info: ResolveInfo, fuel: nat, sels: seq<Selection>, parent: Option<TypeRef>): seq<string>
    decreases fuel, SizeList(sels), 2
  {
    if sels == [] then []
    else KeptNamesAt(info, fuel, sels[0], parent) + KeptNamesOf(info, fuel, sels[1..], parent)
  }

  function KeptNamesAt(info: ResolveInfo, fuel: nat, ast: Selection, parent: Option<TypeRef>): seq<string>
    decreases fuel, Size(ast), 1
  {
    if Excluded(info.variableValues, ast) != Ok(false) then []
    else match ast
      case Field(name, _, _, _, _) => if Declared(info.schema, parent, name) then [name] else []
      case InlineFragment(_, _, _) => KeptNames(info, fuel, Single(ast), parent)
      case FragmentSpread(name, _) => if fuel == 0 then [] else KeptNames(info, fuel - 1, SpreadSource(info, name), parent)
  }

  // ---------------------------------------------------------------- theorems

  /** A walk's outcome has the shape: every entry keyed by the name of its
      field, that field declared on `parent`, and no key twice. */
  ghost predicate Shaped(schema: Schema, parent: Option<TypeRef>, r: Result<Obj<FieldInfo>>) {
    r.Ok? ==> All(r.value, Entry(schema, parent)) && UniqueKeys(r.value)
  }

  function Entry(schema: Schema, parent: Option<TypeRef>): (string, FieldInfo) -> bool {
    (k: string, d: FieldInfo) => d.name == k && Declared(schema, parent, k)
  }

  /** Every entry is keyed by the name of the field it describes (never an
      alias), that field is declared on the parent type the walk is rooted at
      (the return type unwrapped one level when none is given), and no key
      occurs twice. */
  lemma {:induction false} SelectionSetShape(info: ResolveInfo, fuel: nat, asts: Asts, parent: Option<TypeRef>)
    ensures Shaped(info.schema, Effective(info, parent), SelectionSet(info, fuel, asts, parent))
    decreases fuel, AstsSize(asts), 0
  {
    match Selections(asts)
    case Err(e) =>
    case Ok(sels) => CollectShape(info, fuel, [], sels, Effective(info, parent));
  }

  lemma {:induction false} CollectShape(info: ResolveInfo, fuel: nat, acc: Obj<FieldInfo>, sels: seq<Selection>, parent: Option<TypeRef>)
    requires All(acc, Entry(info.schema, parent))
    requires UniqueKeys(acc)
    requires Effective(info, parent) == parent
    ensures Shaped(info.schema, parent, Collect(info, fuel, acc, sels, parent))
    decreases fuel, SizeList(sels), 4
  {
    if sels != [] {
      StepShape(info, fuel, acc, sels[0], parent);
      match Step(info, fuel, acc, sels[0], parent)
      case Err(e) =>
      case Ok(next) => CollectShape(info, fuel, next, sels[1..], parent);
    }
  }

  lemma {:induction false} StepShape(info: ResolveInfo, fuel: nat, acc: Obj<FieldInfo>, ast: Selection, parent: Option<TypeRef>)
    requires All(acc, Entry(info.schema, parent))
    requires UniqueKeys(acc)
    requires Effective(info, parent) == parent
    ensures Shaped(info.schema, parent, Step(info, fuel, acc, ast, parent))
    decreases fuel, Size(ast), 3
  {
    match ast
    case Field(_, _, _, _, _) => FieldShape(info, fuel, acc, ast, parent);
    case InlineFragment(_, _, _) => MergedShape(info, fuel, acc, Single(ast), parent);
    case FragmentSpread(_, _) => if fuel > 0 { SpreadShape(info, fuel - 1, acc, ast, parent); }
  }

  lemma FieldShape(info: ResolveInfo, fuel: nat, acc: Obj<FieldInfo>, ast: Selection, parent: Option<TypeRef>)
    requires ast.Field?
    requires All(acc, Entry(info.schema, parent))
    requires UniqueKeys(acc)
    ensures Shaped(info.schema, parent, FieldStep(info, fuel, acc, ast, parent))
  {
    var p := Entry(info.schema, parent);
    var r := FieldStep(info, fuel, acc, ast, parent);
    if r.Ok? && r.value != acc {
      var d := GetField(info, fuel, ast, parent.value).value;
      assert r.value == Put(acc, ast.name, d);
      assert p(ast.name, d);
      PutAll(acc, ast.name, d, p);
      PutUnique(acc, ast.name, d);
    }
  }

  /** A spread with fuel `f + 1` left walks its source with fuel `f`. */
  lemma {:induction false} SpreadShape(info: ResolveInfo, f: nat, acc: Obj<FieldInfo>, ast: Selection, parent: Option<TypeRef>)
    requires ast.FragmentSpread?
    requires All(acc, Entry(info.schema, parent))
    requires UniqueKeys(acc)
    requires Effective(info, parent) == parent
    ensures Shaped(info.schema, parent, SpreadStep(info, f + 1, acc, ast, parent))
    decreases f + 1, Size(ast), 2
  {
    MergedShape(info, f, acc, SpreadSource(info, ast.name), parent);
  }

  /** Assigning a walk's outcome onto an object of the shape keeps the shape. */
  lemma MergedShape(info: ResolveInfo, fuel: nat, acc: Obj<FieldInfo>, asts: Asts, parent: Option<TypeRef>)
    requires All(acc, Entry(info.schema, parent))
    requires UniqueKeys(acc)
    requires Effective(info, parent) == parent
    ensures Shaped(info.schema, parent, Merge(acc, SelectionSet(info, fuel, asts, parent)))
    decreases fuel, AstsSize(asts), 1
  {
    SelectionSetShape(info, fuel, asts, parent);
    var r := SelectionSet(info, fuel, asts, parent);
    if r.Ok? {
      AssignAll(acc, r.value, Entry(info.schema, parent));
      AssignUnique(acc, r.value);
    }
  }

  /** A kept field that the parent type declares is written under its name:
      the step succeeds exactly when the field's descriptor does, and then
      the name reads that descriptor and every other key reads as before. */
  lemma KeptFieldPresent(info: ResolveInfo, fuel: nat, acc: Obj<FieldInfo>, ast: Selection, parent: Option<TypeRef>)
    requires ast.Field? && Excluded(info.variableValues, ast) == Ok(false) && Declared(info.schema, parent, ast.name)
    ensures var r := Step(info, fuel, acc, ast, parent);
            var d := GetField(info, fuel, ast, parent.value);
            && (d.Err? ==> r == Err(d.error))
            && (d.Ok? ==> r.Ok? && Get(r.value, ast.name) == Some(d.value)
                          && forall k :: k != ast.name ==> Get(r.value, k) == Get(acc, k))
  {
    assert Step(info, fuel, acc, ast, parent) == FieldStep(info, fuel, acc, ast, parent);
  }

  /** A kept inline fragment merges its own walk into the accumulator: the
      step succeeds exactly when that walk does, a key the walk wrote reads
      the walk's value (overwriting an earlier one), and every other key
      reads as before. */
  lemma InlineFragmentMerged(info: ResolveInfo, fuel: nat, acc: Obj<FieldInfo>, ast: Selection, parent: Option<TypeRef>)
    requires ast.InlineFragment? && Excluded(info.variableValues, ast) == Ok(false)
    ensures var r := Step(info, fuel, acc, ast, parent);
            var sub := SelectionSet(info, fuel, Single(ast), parent);
            && (r.Ok? <==> sub.Ok?)
            && (r.Ok? ==> forall k :: Get(r.value, k) == if k in Keys(sub.value) then Get(sub.value, k) else Get(acc, k))
  {
    MergedReads(info, fuel, acc, Single(ast), parent);
  }

  /** A kept spread with fuel `f + 1` left merges the walk of its source with
      fuel `f` in the same way; with no fuel left it overflows. */
  lemma SpreadMerged(info: ResolveInfo, f: nat, acc: Obj<FieldInfo>, ast: Selection, parent: Option<TypeRef>)
    requires ast.FragmentSpread? && Excluded(info.variableValues, ast) == Ok(false)
    ensures Step(info, 0, acc, ast, parent) == Err(StackOverflow)
    ensures var r := Step(info, f + 1, acc, ast, parent);
            var sub := SelectionSet(info, f, SpreadSource(info, ast.name), parent);
            && (r.Ok? <==> sub.Ok?)
            && (r.Ok? ==> forall k :: Get(r.value, k) == if k in Keys(sub.value) then Get(sub.value, k) else Get(acc, k))
  {
    assert Step(info, f + 1, acc, ast, parent) == SpreadStep(info, f + 1, acc, ast, parent);
    MergedReads(info, f, acc, SpreadSource(info, ast.name), parent);
  }

  lemma MergedReads(info: ResolveInfo, fuel: nat, acc: Obj<FieldInfo>, asts: Asts, parent: Option<TypeRef>)
    ensures var r := Merge(acc, SelectionSet(info, fuel, asts, parent));
            var sub := SelectionSet(info, fuel, asts, parent);
            && (r.Ok? <==> sub.Ok?)
            && (r.Ok? ==> forall k :: Get(r.value, k) == if k in Keys(sub.value) then Get(sub.value, k) else Get(acc, k))
  {
    var sub := SelectionSet(info, fuel, asts, parent);
    if sub.Ok? {
      SelectionSetShape(info, fuel, asts, parent);
      forall k ensures Get(Assign(acc, sub.value), k) == if k in Keys(sub.value) then Get(sub.value, k) else Get(acc, k) {
        AssignReads(acc, sub.value, k);
      }
    }
  }

  /** A successful walk lists, as its keys, the name of every kept field that
      its parent type declares, each once, at the position where the walk
      first meets it: fragments contribute their fields in place and a later
      field of a name overwrites the earlier one without moving it. */
  lemma {:induction false} SelectionSetKeys(info: ResolveInfo, fuel: nat, asts: Asts, parent: Option<TypeRef>)
    ensures var r := SelectionSet(info, fuel, asts, parent);
            r.Ok? ==> Keys(r.value) == Dedup(KeptNames(info, fuel, asts, parent))
    decreases fuel, AstsSize(asts), 0
  {
    match Selections(asts)
    case Err(_) =>
    case Ok(sels) => CollectKeys(info, fuel, [], sels, Effective(info, parent));
  }

  lemma {:induction false} CollectKeys(info: ResolveInfo, fuel: nat, acc: Obj<FieldInfo>, sels: seq<Selection>, parent: Option<TypeRef>)
    ensures var r := Collect(info, fuel, acc, sels, parent);
            r.Ok? ==> Keys(r.value) == DedupOnto(Keys(acc), KeptNamesOf(info, fuel, sels, parent))
    decreases fuel, SizeList(sels), 4
  {
    if sels != [] {
      StepKeys(info, fuel, acc, sels[0], parent);
      match Step(info, fuel, acc, sels[0], parent)
      case Err(_) =>
      case Ok(next) =>
        CollectKeys(info, fuel, next, sels[1..], parent);
        DedupOntoConcat(Keys(acc), KeptNamesAt(info, fuel, sels[0], parent), KeptNamesOf(info, fuel, sels[1..], parent));
    }
  }

  lemma {:induction false} StepKeys(info: ResolveInfo, fuel: nat, acc: Obj<FieldInfo>, ast: Selection, parent: Option<TypeRef>)
    ensures var r := Step(info, fuel, acc, ast, parent);
            r.Ok? ==> Keys(r.value) == DedupOnto(Keys(acc), KeptNamesAt(info, fuel, ast, parent))
    decreases fuel, Size(ast), 3
  {
    if Excluded(info.variableValues, ast) != Ok(false) {
      SkippedKeys(info, fuel, acc, ast, parent);
    } else if ast.Field? {
      FieldKeys(info, fuel, acc, ast, parent);
    } else if ast.InlineFragment? {
      InlineFragmentKeys(info, fuel, acc, ast, parent);
    } else if fuel > 0 {
      SpreadKeys(info, fuel - 1, acc, ast, parent);
    } else {
      SpreadKeysNoFuel(info, acc, ast, parent);
    }
  }

  lemma SkippedKeys(info: ResolveInfo, fuel: nat, acc: Obj<FieldInfo>, ast: Selection, parent: Option<TypeRef>)
    requires Excluded(info.variableValues, ast) != Ok(false)
    ensures var r := Step(info, fuel, acc, ast, parent);
            r.Ok? ==> Keys(r.value) == DedupOnto(Keys(acc), KeptNamesAt(info, fuel, ast, parent))
  {
  }

  lemma SpreadKeysNoFuel(info: ResolveInfo, acc: Obj<FieldInfo>, ast: Selection, parent: Option<TypeRef>)
    requires ast.FragmentSpread? && Excluded(info.variableValues, ast) == Ok(false)
    ensures var r := Step(info, 0, acc, ast, parent);
            r.Ok? ==> Keys(r.value) == DedupOnto(Keys(acc), KeptNamesAt(info, 0, ast, parent))
  {
    assert Step(info, 0, acc, ast, parent) == SpreadStep(info, 0, acc, ast, parent);
  }

  lemma FieldKeys(info: ResolveInfo, fuel: nat, acc: Obj<FieldInfo>, ast: Selection, parent: Option<TypeRef>)
    requires ast.Field? && Excluded(info.variableValues, ast) == Ok(false)
    ensures var r := Step(info, fuel, acc, ast, parent);
            r.Ok? ==> Keys(r.value) == DedupOnto(Keys(acc), KeptNamesAt(info, fuel, ast, parent))
  {
    assert Step(info, fuel, acc, ast, parent) == FieldStep(info, fuel, acc, ast, parent);
    if Declared(info.schema, parent, ast.name) {
      assert KeptNamesAt(info, fuel, ast, parent) == [ast.name];
      var d := GetField(info, fuel, ast, parent.value);
      if d.Ok? {
        PutIsDedupOnto(acc, ast.name, d.value);
      }
    } else {
      assert KeptNamesAt(info, fuel, ast, parent) == [];
    }
  }

  lemma {:induction false} InlineFragmentKeys(info: ResolveInfo, fuel: nat, acc: Obj<FieldInfo>, ast: Selection, parent: Option<TypeRef>)
    requires ast.InlineFragment? && Excluded(info.variableValues, ast) == Ok(false)
    ensures var r := Step(info, fuel, acc, ast, parent);
            r.Ok? ==> Keys(r.value) == DedupOnto(Keys(acc), KeptNamesAt(info, fuel, ast, parent))
    decreases fuel, Size(ast), 2
  {
    MergedKeys(info, fuel, acc, Single(ast), parent);
  }

  /** A spread with fuel `f + 1` left adds the keys of its source walked with fuel `f`. */
  lemma {:induction false} SpreadKeys(info: ResolveInfo, f: nat, acc: Obj<FieldInfo>, ast: Selection, parent: Option<TypeRef>)
    requires ast.FragmentSpread? && Excluded(info.variableValues, ast) == Ok(false)
    ensures var r := Step(info, f + 1, acc, ast, parent);
            r.Ok? ==> Keys(r.value) == DedupOnto(Keys(acc), KeptNamesAt(info, f + 1, ast, parent))
    decreases f + 1, Size(ast), 2
  {
    assert Step(info, f + 1, acc, ast, parent) == SpreadStep(info, f + 1, acc, ast, parent);
    MergedKeys(info, f, acc, SpreadSource(info, ast.name), parent);
  }

  lemma {:induction false} MergedKeys(info: ResolveInfo, fuel: nat, acc: Obj<FieldInfo>, asts: Asts, parent: Option<TypeRef>)
    ensures var r := Merge(acc, SelectionSet(info, fuel, asts, parent));
            r.Ok? ==> Keys(r.value) == DedupOnto(Keys(acc), KeptNames(info, fuel, asts, parent))
    decreases fuel, AstsSize(asts), 1
  {
    SelectionSetKeys(info, fuel, asts, parent);
    DedupOntoDedup(Keys(acc), KeptNames(info, fuel, asts, parent));
  }

  /** The descriptor of a declared field: its own name; its kind and type
      classified from the declared type; its arguments the call-site
      arguments, one per name; no sub-fields for a leaf and otherwise the walk of its
      selections against the declared type unwrapped one level; and the
      directives of the schema declaration, whatever the call site carries. */
  lemma GetFieldMeaning(info: ResolveInfo, fuel: nat, ast: Selection, parent: TypeRef)
    requires ast.Field? && HasAstNode(info.schema, Some(parent)) && Declared(info.schema, Some(parent), ast.name)
    requires WellFormed(FieldsOf(info.schema, Some(parent)).value[ast.name].fieldType)
    ensures var decl := FieldsOf(info.schema, Some(parent)).value[ast.name];
            var r := GetField(info, fuel, ast, parent);
            && (r.Ok? <==> !HasSelectionSet(ast) || SelectionSet(info, fuel, Single(ast), Some(Unwrap1(decl.fieldType))).Ok?)
            && (r.Ok? ==>
                  && r.value.name == ast.name
                  && (r.value.kind == CONNECTION <==> IsConnectionType(decl.fieldType))
                  && (r.value.kind == LIST <==> IsListType(decl.fieldType))
                  && (r.value.kind == ONE <==> !IsListType(decl.fieldType) && !IsConnectionType(decl.fieldType))
                  && r.value.typeName ==
                       (if IsInterface(info.schema, Unwrap1(decl.fieldType)) then Some("")
                        else if IsConnectionType(decl.fieldType) then Some(ReplaceFirst(decl.fieldType.name, Connection, ""))
                        else NameOf(Unwrap1(decl.fieldType)))
                  && r.value.args == ArgumentsOf(info.variableValues, ast.arguments)
                  && Keys(r.value.args) == Dedup(Names(ast.arguments))
                  && (forall i :: 0 <= i < |ast.arguments| && (forall j :: i < j < |ast.arguments| ==> ast.arguments[j].name != ast.arguments[i].name) ==>
                        Get(r.value.args, ast.arguments[i].name) == Some(ResolveArgument(info.variableValues, ast.arguments[i])))
                  && (!HasSelectionSet(ast) ==> r.value.fields == [])
                  && (HasSelectionSet(ast) ==> Ok(r.value.fields) == SelectionSet(info, fuel, Single(ast), Some(Unwrap1(decl.fieldType))))
                  && r.value.directives == SchemaDirectives(decl.directives))
  {
    var decl := FieldsOf(info.schema, Some(parent)).value[ast.name];
    ClassifyMeaning(info.schema, decl.fieldType);
    ArgumentsMeaning(info.variableValues, ast.arguments);
  }

  /** A declared field whose type is a list made non-null (`[T]!`) or a list of
      non-null items (`[T!]`) cannot be described with a selection set: one
      level of unwrapping leaves a wrapper, which has no fields to look the
      first sub-field up in. */
  lemma WrappedTargetFails(info: ResolveInfo, fuel: nat, ast: Selection, parent: TypeRef)
    requires ast.Field? && HasAstNode(info.schema, Some(parent)) && Declared(info.schema, Some(parent), ast.name)
    requires WellFormed(FieldsOf(info.schema, Some(parent)).value[ast.name].fieldType)
    requires !Unwrap1(FieldsOf(info.schema, Some(parent)).value[ast.name].fieldType).Named?
    requires HasSelectionSet(ast) && ast.selectionSet[0].Field? && ast.selectionSet[0].directives == []
    ensures GetField(info, fuel, ast, parent) == Err(NotCompositeType)
  {
    var decl := FieldsOf(info.schema, Some(parent)).value[ast.name];
    ClassifyMeaning(info.schema, decl.fieldType);
    var target := Some(Unwrap1(decl.fieldType));
    assert Excluded(info.variableValues, ast.selectionSet[0]) == Ok(false);
    assert FieldStep(info, fuel, [], ast.selectionSet[0], target) == Err(NotCompositeType);
    assert Step(info, fuel, [], ast.selectionSet[0], target) == Err(NotCompositeType);
    assert SelectionSet(info, fuel, Single(ast), target) == Err(NotCompositeType);
  }

  /** An excluded selection contributes nothing, subtree included. */
  lemma {:induction false} ExcludedContributesNothing(info: ResolveInfo, fuel: nat, acc: Obj<FieldInfo>,
                                                      before: seq<Selection>, ast: Selection, after: seq<Selection>,
                                                      parent: Option<TypeRef>)
    requires Excluded(info.variableValues, ast) == Ok(true)
    ensures Collect(info, fuel, acc, before + [ast] + after, parent) == Collect(info, fuel, acc, before + after, parent)
    decreases |before|
  {
    if before == [] {
      assert ([ast] + after)[1..] == after;
      assert before + [ast] + after == [ast] + after;
      assert before + after == after;
      assert Step(info, fuel, acc, ast, parent) == Ok(acc);
    } else {
      assert (before + [ast] + after)[0] == before[0];
      assert (before + [ast] + after)[1..] == before[1..] + [ast] + after;
      assert (before + after)[0] == before[0];
      assert (before + after)[1..] == before[1..] + after;
      match Step(info, fuel, acc, before[0], parent)
      case Err(e) =>
      case Ok(next) => ExcludedContributesNothing(info, fuel, next, before[1..], ast, after, parent);
    }
  }

  /** A kept field that the parent type does not declare is skipped. */
  lemma UndeclaredFieldSkipped(info: ResolveInfo, fuel: nat, acc: Obj<FieldInfo>, ast: Selection, parent: Option<TypeRef>)
    requires ast.Field? && Excluded(info.variableValues, ast) == Ok(false)
    requires FieldsOf(info.schema, parent).Ok? && !Declared(info.schema, parent, ast.name)
    ensures Step(info, fuel, acc, ast, parent) == Ok(acc)
  {
    assert FieldStep(info, fuel, acc, ast, parent) == Ok(acc);
  }

  /** Inline fragments are walked against the enclosing parent type: their
      type condition plays no part. */
  lemma TypeConditionIgnored(info: ResolveInfo, fuel: nat, condition: Option<string>, ds: seq<Directive>,
                             sels: seq<Selection>, parent: Option<TypeRef>)
    ensures SelectionSet(info, fuel, Single(InlineFragment(condition, ds, sels)), parent)
         == SelectionSet(info, fuel, Single(InlineFragment(None, ds, sels)), parent)
  {
    assert Selections(Single(InlineFragment(condition, ds, sels))) == Ok(sels);
    assert Selections(Single(InlineFragment(None, ds, sels))) == Ok(sels);
  }

  /** A spread of an undefined fragment as the first root selection does not
      read a selection set of `undefined`: the default parameter restarts the
      walk from the root, every time, until the stack overflows. */
  lemma {:induction false} UnknownFragmentAtRootOverflows(info: ResolveInfo, fuel: nat, parent: Option<TypeRef>, name: string)
    requires parent == None || parent == RootType(info)
    requires ConcatSelections(info.fieldNodes).Ok? && ConcatSelections(info.fieldNodes).value != []
    requires ConcatSelections(info.fieldNodes).value[0] == FragmentSpread(name, [])
    requires name !in info.fragments
    ensures SelectionSet(info, fuel, Nodes(info.fieldNodes), parent) == Err(StackOverflow)
    decreases fuel, 2
  {
    var sels := ConcatSelections(info.fieldNodes).value;
    assert SelectionSet(info, fuel, Nodes(info.fieldNodes), parent) == Collect(info, fuel, [], sels, RootType(info));
    SpreadAtRootOverflows(info, fuel, sels[0], name);
  }

  lemma SpreadAtRootOverflows(info: ResolveInfo, fuel: nat, spread: Selection, name: string)
    requires ConcatSelections(info.fieldNodes).Ok? && ConcatSelections(info.fieldNodes).value != []
    requires ConcatSelections(info.fieldNodes).value[0] == FragmentSpread(name, []) == spread
    requires name !in info.fragments
    ensures Step(info, fuel, [], spread, RootType(info)) == Err(StackOverflow)
    decreases fuel, 1
  {
    assert Excluded(info.variableValues, spread) == Ok(false);
    if fuel > 0 {
      assert SpreadSource(info, name) == Nodes(info.fieldNodes);
      UnknownFragmentAtRootOverflows(info, fuel - 1, RootType(info), name);
    }
    assert SpreadStep(info, fuel, [], spread, RootType(info)) == Err(StackOverflow);
  }
}
