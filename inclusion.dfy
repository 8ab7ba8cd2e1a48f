/**
 * The inclusion filter: the `@skip` and `@include` directives of section 3.13 of
 * the GraphQL specification (June 2018), applied to a selection as the
 * CollectFields procedure of section 6.3.2 does.  The analyzer's version reads
 * only the first argument of each directive and evaluates left to right with
 * JavaScript's short-circuiting `||`.
 */
module Inclusion {
  import opened Js
  import opened GraphQL

  /** `getBooleanArgumentValue`: the first argument of the directive, whatever
      its name, as a literal boolean or through the variable it names; any
      other kind of value falls out of the `switch` as `undefined`. */
  function BooleanArgumentValue(vars: map<string, JsValue>, d: Directive): (r: Result<JsValue>)
    ensures r.Err? <==> d.arguments == []
    ensures r.Ok? && d.arguments[0].value.BooleanValue? ==> r.value == Bool(d.arguments[0].value.flag)
    ensures r.Ok? && d.arguments[0].value.Variable? ==>
              r.value == (if d.arguments[0].value.name in vars then vars[d.arguments[0].value.name] else Undefined)
    ensures r.Ok? && !d.arguments[0].value.BooleanValue? && !d.arguments[0].value.Variable? ==> r.value == Undefined
  {
    if d.arguments == [] then Err(MissingConditionArgument(d.name))
    else match d.arguments[0].value
      case BooleanValue(b) => Ok(Bool(b))
      case Variable(n) => Ok(if n in vars then vars[n] else Undefined)
      case _ => Ok(Undefined)
  }

  /** The `forEach` over the directives from a given value of `isExcluded`
      (only its truthiness is ever consulted, so a bool stands for it). */
  function ExcludedFrom(vars: map<string, JsValue>, isExcluded: bool, ds: seq<Directive>): Result<bool>
    decreases |ds|
  {
    if ds == [] then Ok(isExcluded)
    else if ds[0].name == "include" then
      if isExcluded then ExcludedFrom(vars, true, ds[1..])
      else match BooleanArgumentValue(vars, ds[0])
        case Err(e) => Err(e)
        case Ok(v) => ExcludedFrom(vars, !Truthy(v), ds[1..])
    else if ds[0].name == "skip" then
      if isExcluded then ExcludedFrom(vars, true, ds[1..])
      else match BooleanArgumentValue(vars, ds[0])
        case Err(e) => Err(e)
        case Ok(v) => ExcludedFrom(vars, Truthy(v), ds[1..])
    else ExcludedFrom(vars, isExcluded, ds[1..])
  }

  /** `isExcludedByDirective` as a specification: starts from `false`. */
  function Excluded(vars: map<string, JsValue>, s: Selection): Result<bool> {
    ExcludedFrom(vars, false, s.directives)
  }

  /** `isExcludedByDirective(context, ast)`. */
  method IsExcludedByDirective(info: ResolveInfo, ast: Selection) returns (r: Result<bool>)
    ensures r == Excluded(info.variableValues, ast)
  {
    var directives := ast.directives;
    var isExcluded := false;
    var i := 0;
    while i < |directives|
      invariant 0 <= i <= |directives|
      invariant ExcludedFrom(info.variableValues, isExcluded, directives[i..]) == Excluded(info.variableValues, ast)
    {
      var directive := directives[i];
      assert directives[i..][1..] == directives[i + 1..];
      if directive.name == "include" && !isExcluded {
        var value := BooleanArgumentValue(info.variableValues, directive);
        if value.Err? {
          return Err(value.error);
        }
        isExcluded := !Truthy(value.value);
      } else if directive.name == "skip" && !isExcluded {
        var value := BooleanArgumentValue(info.variableValues, directive);
        if value.Err? {
          return Err(value.error);
        }
        isExcluded := Truthy(value.value);
      }
      i := i + 1;
    }
    return Ok(isExcluded);
  }

  // ---------------------------------------------------------------- meaning

  predicate IsCondition(d: Directive) {
    d.name == "include" || d.name == "skip"
  }

  /** An argument-less `@include` or `@skip`: reading its condition throws. */
  predicate Faulty(d: Directive) {
    IsCondition(d) && d.arguments == []
  }

  /** A directive whose condition excludes: an `@include` whose condition is
      falsy, or a `@skip` whose condition is truthy. */
  predicate Excludes(vars: map<string, JsValue>, d: Directive) {
    && IsCondition(d)
    && d.arguments != []
    && var v := BooleanArgumentValue(vars, d).value;
       if d.name == "include" then !Truthy(v) else Truthy(v)
  }

  /** Once excluded, later directives are not evaluated at all. */
  lemma {:induction false} ShortCircuit(vars: map<string, JsValue>, ds: seq<Directive>)
    ensures ExcludedFrom(vars, true, ds) == Ok(true)
    decreases |ds|
  {
    if ds != [] {
      ShortCircuit(vars, ds[1..]);
    }
  }

  /** A selection is excluded exactly when some `@include` is falsy or some
      `@skip` truthy, with no argument-less condition before it; the filter
      fails exactly when an argument-less condition comes before any directive
      that excludes.  Other directive names play no part. */
  lemma {:induction false} ExcludedCharacterised(vars: map<string, JsValue>, ds: seq<Directive>)
    ensures ExcludedFrom(vars, false, ds) == Ok(true) <==>
              exists i :: 0 <= i < |ds| && Excludes(vars, ds[i]) && forall j :: 0 <= j < i ==> !Faulty(ds[j])
    ensures ExcludedFrom(vars, false, ds).Err? <==>
              exists i :: 0 <= i < |ds| && Faulty(ds[i]) && forall j :: 0 <= j < i ==> !Excludes(vars, ds[j])
    decreases |ds|
  {
    if ds != [] {
      var d := ds[0];
      var rest := ds[1..];
      ExcludedCharacterised(vars, rest);
      if Faulty(d) {
        assert !Excludes(vars, d);
        assert ExcludedFrom(vars, false, ds).Err?;
      } else if Excludes(vars, d) {
        ShortCircuit(vars, rest);
        assert ExcludedFrom(vars, false, ds) == Ok(true);
      } else {
        assert ExcludedFrom(vars, false, ds) == ExcludedFrom(vars, false, rest);
        ShiftExcluding(vars, ds);
        ShiftFaulty(vars, ds);
      }
    }
  }

  /** A first directive that neither excludes nor fails does not change whether
      an excluding directive comes before any failing one. */
  lemma ShiftExcluding(vars: map<string, JsValue>, ds: seq<Directive>)
    requires ds != [] && !Faulty(ds[0]) && !Excludes(vars, ds[0])
    ensures (exists i :: 0 <= i < |ds| && Excludes(vars, ds[i]) && forall j :: 0 <= j < i ==> !Faulty(ds[j])) <==>
            (exists i :: 0 <= i < |ds[1..]| && Excludes(vars, ds[1..][i]) && forall j :: 0 <= j < i ==> !Faulty(ds[1..][j]))
  {
    var rest := ds[1..];
    if i :| 0 <= i < |ds| && Excludes(vars, ds[i]) && forall j :: 0 <= j < i ==> !Faulty(ds[j]) {
      assert i > 0;
      assert Excludes(vars, rest[i - 1]) && forall j :: 0 <= j < i - 1 ==> !Faulty(rest[j]) by {
        forall j | 0 <= j < i - 1 ensures !Faulty(rest[j]) { assert rest[j] == ds[j + 1]; }
      }
    }
    if i :| 0 <= i < |rest| && Excludes(vars, rest[i]) && forall j :: 0 <= j < i ==> !Faulty(rest[j]) {
      assert Excludes(vars, ds[i + 1]) && forall j :: 0 <= j < i + 1 ==> !Faulty(ds[j]) by {
        forall j | 0 <= j < i + 1 ensures !Faulty(ds[j]) { if j > 0 { assert ds[j] == rest[j - 1]; } }
      }
    }
  }

  /** Likewise for whether a failing directive comes before any excluding one. */
  lemma ShiftFaulty(vars: map<string, JsValue>, ds: seq<Directive>)
    requires ds != [] && !Faulty(ds[0]) && !Excludes(vars, ds[0])
    ensures (exists i :: 0 <= i < |ds| && Faulty(ds[i]) && forall j :: 0 <= j < i ==> !Excludes(vars, ds[j])) <==>
            (exists i :: 0 <= i < |ds[1..]| && Faulty(ds[1..][i]) && forall j :: 0 <= j < i ==> !Excludes(vars, ds[1..][j]))
  {
    var rest := ds[1..];
    if i :| 0 <= i < |ds| && Faulty(ds[i]) && forall j :: 0 <= j < i ==> !Excludes(vars, ds[j]) {
      assert i > 0;
      assert Faulty(rest[i - 1]) && forall j :: 0 <= j < i - 1 ==> !Excludes(vars, rest[j]) by {
        forall j | 0 <= j < i - 1 ensures !Excludes(vars, rest[j]) { assert rest[j] == ds[j + 1]; }
      }
    }
    if i :| 0 <= i < |rest| && Faulty(rest[i]) && forall j :: 0 <= j < i ==> !Excludes(vars, rest[j]) {
      assert Faulty(ds[i + 1]) && forall j :: 0 <= j < i + 1 ==> !Excludes(vars, ds[j]) by {
        forall j | 0 <= j < i + 1 ensures !Excludes(vars, ds[j]) { if j > 0 { assert ds[j] == rest[j - 1]; } }
      }
    }
  }

  /** When every `@include`/`@skip` carries an argument, a selection is excluded
      iff one of its directives excludes it. */
  lemma ExcludedWithoutFaults(vars: map<string, JsValue>, ds: seq<Directive>)
    requires forall i :: 0 <= i < |ds| ==> !Faulty(ds[i])
    ensures ExcludedFrom(vars, false, ds) == Ok(exists i :: 0 <= i < |ds| && Excludes(vars, ds[i]))
  {
    ExcludedCharacterised(vars, ds);
  }

  /** A condition naming an unbound variable reads `undefined`: it excludes
      under `@include` and does not under `@skip`. */
  lemma UnboundVariable(vars: map<string, JsValue>, name: string, args: seq<Argument>, x: string)
    requires x !in vars && args != [] && args[0].value == Variable(x)
    ensures ExcludedFrom(vars, false, [Directive("include", args)]) == Ok(true)
    ensures ExcludedFrom(vars, false, [Directive("skip", args)]) == Ok(false)
  {
  }
}
