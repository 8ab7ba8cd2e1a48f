/**
 * The call-site arguments of a field, `__args` in the descriptors of the
 * src and legacy variants: each argument written in the query, by name,
 * mapped to the literal it carries, else to the variable value bound under
 * the argument's own name, else to `null`.
 */
module CallArguments {
  import opened Js
  import opened GraphQL

  /** The `value` property of a value node: the literal text of scalars, the
      flag of booleans; null, variable, list and object nodes have none. */
  function LiteralValue(v: ValueNode): JsValue {
    match v
    case IntValue(raw) => Str(raw)
    case FloatValue(raw) => Str(raw)
    case StringValue(text) => Str(text)
    case BooleanValue(flag) => Bool(flag)
    case EnumValue(symbol) => Str(symbol)
    case _ => Undefined
  }

  /** `argument.value.value || variableValues[argument.name.value] || null`.
      (The src variant also tries `argument.defaultValue`, which argument
      nodes of a query never carry.) */
  function ResolveArgument(vars: map<string, JsValue>, arg: Argument): (r: JsValue)
    ensures Truthy(r) || r == Null
    ensures Truthy(LiteralValue(arg.value)) ==> r == LiteralValue(arg.value)
    ensures !Truthy(LiteralValue(arg.value)) && arg.name in vars && Truthy(vars[arg.name]) ==> r == vars[arg.name]
    ensures r == Null <==> !Truthy(LiteralValue(arg.value)) && (arg.name !in vars || !Truthy(vars[arg.name]))
  {
    var literal := LiteralValue(arg.value);
    if Truthy(literal) then literal
    else if arg.name in vars && Truthy(vars[arg.name]) then vars[arg.name]
    else Null
  }

  /** The `reduce` over the arguments, writing into `obj`. */
  function ArgumentsFrom(vars: map<string, JsValue>, obj: Obj<JsValue>, args: seq<Argument>): Obj<JsValue>
    decreases |args|
  {
    if args == [] then obj
    else ArgumentsFrom(vars, Put(obj, args[0].name, ResolveArgument(vars, args[0])), args[1..])
  }

  function ArgumentsOf(vars: map<string, JsValue>, args: seq<Argument>): Obj<JsValue> {
    ArgumentsFrom(vars, [], args)
  }

  /** `ast.arguments.reduce((obj, argument) => { obj[...] = ...; return obj }, {})`. */
  method ReduceArguments(vars: map<string, JsValue>, args: seq<Argument>) returns (obj: Obj<JsValue>)
    ensures obj == ArgumentsOf(vars, args)
  {
    obj := [];
    var i := 0;
    while i < |args|
      invariant 0 <= i <= |args|
      invariant ArgumentsFrom(vars, obj, args[i..]) == ArgumentsOf(vars, args)
    {
      assert args[i..][0] == args[i] && args[i..][1..] == args[i + 1..];
      obj := Put(obj, args[i].name, ResolveArgument(vars, args[i]));
      i := i + 1;
    }
    assert args[i..] == [];
  }

  function Names(args: seq<Argument>): (ns: seq<string>)
    ensures |ns| == |args| && forall i :: 0 <= i < |args| ==> ns[i] == args[i].name
  {
    seq(|args|, i requires 0 <= i < |args| => args[i].name)
  }

  /** Each argument paired with its resolved value, in order. */
  function Resolved(vars: map<string, JsValue>, args: seq<Argument>): (o: Obj<JsValue>)
    ensures Keys(o) == Names(args)
  {
    seq(|args|, i requires 0 <= i < |args| => (args[i].name, ResolveArgument(vars, args[i])))
  }

  lemma ResolvedTail(vars: map<string, JsValue>, args: seq<Argument>)
    requires args != []
    ensures Resolved(vars, args)[0] == (args[0].name, ResolveArgument(vars, args[0]))
    ensures Resolved(vars, args)[1..] == Resolved(vars, args[1..])
  {
  }

  lemma {:induction false} ArgumentsFromIsAssign(vars: map<string, JsValue>, obj: Obj<JsValue>, args: seq<Argument>)
    ensures ArgumentsFrom(vars, obj, args) == Assign(obj, Resolved(vars, args))
    decreases |args|
  {
    if args != [] {
      var r := Resolved(vars, args);
      ResolvedTail(vars, args);
      ArgumentsFromIsAssign(vars, Put(obj, args[0].name, ResolveArgument(vars, args[0])), args[1..]);
      assert Assign(obj, r) == Assign(Put(obj, r[0].0, r[0].1), r[1..]);
    }
  }

  /** `__args` has exactly one entry per distinct argument name written at the
      call site, in first-seen order, nothing else (schema defaults are not
      merged); the value under a name is that of the last argument so named. */
  lemma ArgumentsMeaning(vars: map<string, JsValue>, args: seq<Argument>)
    ensures Keys(ArgumentsOf(vars, args)) == Dedup(Names(args))
    ensures forall k :: k !in Names(args) ==> Get(ArgumentsOf(vars, args), k) == None
    ensures forall i :: 0 <= i < |args| && (forall j :: i < j < |args| ==> args[j].name != args[i].name) ==>
              Get(ArgumentsOf(vars, args), args[i].name) == Some(ResolveArgument(vars, args[i]))
  {
    ArgumentsFromIsAssign(vars, [], args);
    var o := Resolved(vars, args);
    forall i | 0 <= i < |args| && (forall j :: i < j < |args| ==> args[j].name != args[i].name)
      ensures Get(ArgumentsOf(vars, args), args[i].name) == Some(ResolveArgument(vars, args[i]))
    {
      assert Keys(o)[i] == o[i].0;
      AssignGet([], o, args[i].name);
      LastGetAt(o, i);
    }
  }
}
