/**
 * The flat path extractor shared by all three variants: `dotConcat`,
 * `getFieldSet` and the exported `getFieldList`, which lists the dot-joined
 * paths of the kept leaf fields below the resolver's field.
 */
module FieldList {
  import opened Js
  import opened GraphQL
  import opened Inclusion

  /** `dotConcat(a, b)`: `a` is falsy only when it is the empty string. */
  function DotConcat(a: string, b: string): string {
    if a == "" then b else a + "." + b
  }

  // ------------------------------------------------------------ getFieldSet

  /** `getFieldSet(context, asts, prefix)`; the fuel bounds the depth of
      fragment expansion, standing for the call stack. */
  function FieldSet(info: ResolveInfo, fuel: nat, asts: Asts, prefix: string): Result<Obj<bool>>
    decreases fuel, AstsSize(asts), 0
  {
    match Selections(asts)
    case Err(e) => Err(e)
    case Ok(sels) => Collect(info, fuel, [], sels, prefix)
  }

  /** The `reduce` over the selections, from the accumulated object. */
  function Collect(info: ResolveInfo, fuel: nat, acc: Obj<bool>, sels: seq<Selection>, prefix: string): Result<Obj<bool>>
    decreases fuel, SizeList(sels), 2
  {
    if sels == [] then Ok(acc)
    else match Step(info, fuel, acc, sels[0], prefix)
      case Err(e) => Err(e)
      case Ok(next) => Collect(info, fuel, next, sels[1..], prefix)
  }

  /** One call of the reducer. */
  function Step(info: ResolveInfo, fuel: nat, acc: Obj<bool>, ast: Selection, prefix: string): Result<Obj<bool>>
    decreases fuel, Size(ast), 1
  {
    match Excluded(info.variableValues, ast)
    case Err(e) => Err(e)
    case Ok(excluded) =>
      if excluded then Ok(acc)
      else match ast
        case Field(name, _, _, _, children) =>
          var newPrefix := DotConcat(prefix, name);
          if children != [] then
            (match FieldSet(info, fuel, Single(ast), newPrefix)
             case Err(e) => Err(e)
             case Ok(sub) => Ok(Assign(acc, sub)))
          else Ok(Put(acc, newPrefix, true))
        case InlineFragment(_, _, _) =>
          (match FieldSet(info, fuel, Single(ast), prefix)
           case Err(e) => Err(e)
           case Ok(sub) => Ok(Assign(acc, sub)))
        case FragmentSpread(name, _) =>
          if fuel == 0 then Err(StackOverflow)
          else match FieldSet(info, fuel - 1, SpreadSource(info, name), prefix)
            case Err(e) => Err(e)
            case Ok(sub) => Ok(Assign(acc, sub))
  }

  function KeysOf(r: Result<Obj<bool>>): Result<seq<string>> {
    match r
    case Err(e) => Err(e)
    case Ok(o) => Ok(Keys(o))
  }

  lemma {:induction false} SizeOfElement(ss: seq<Selection>, i: nat)
    requires i < |ss|
    ensures Size(ss[i]) <= SizeList(ss)
  {
    if i > 0 {
      SizeOfElement(ss[1..], i - 1);
    }
  }

  /** `getFieldSet` as the source writes it: a loop over the selections that
      writes leaf paths into the accumulator and merges the sub-results. */
  method GetFieldSet(info: ResolveInfo, fuel: nat, asts: Asts, prefix: string) returns (r: Result<Obj<bool>>)
    ensures r == FieldSet(info, fuel, asts, prefix)
    decreases fuel, AstsSize(asts), 0
  {
    var flattened := Selections(asts);
    if flattened.Err? {
      return Err(flattened.error);
    }
    var selections := flattened.value;
    var acc: Obj<bool> := [];
    var i := 0;
    while i < |selections|
      invariant 0 <= i <= |selections|
      invariant Collect(info, fuel, acc, selections[i..], prefix) == FieldSet(info, fuel, asts, prefix)
    {
      var ast := selections[i];
      assert selections[i..][0] == ast && selections[i..][1..] == selections[i + 1..];
      SizeOfElement(selections, i);
      var next := GetStep(info, fuel, acc, ast, prefix);
      if next.Err? {
        return Err(next.error);
      }
      acc := next.value;
      i := i + 1;
    }
    return Ok(acc);
  }

  /** The reducer callback: one selection of the loop. */
  method GetStep(info: ResolveInfo, fuel: nat, acc: Obj<bool>, ast: Selection, prefix: string) returns (r: Result<Obj<bool>>)
    ensures r == Step(info, fuel, acc, ast, prefix)
    decreases fuel, Size(ast), 1
  {
    var excluded := IsExcludedByDirective(info, ast);
    if excluded.Err? {
      return Err(excluded.error);
    }
    if excluded.value {
      return Ok(acc);
    }
    match ast
    case Field(name, _, _, _, children) =>
      var newPrefix := DotConcat(prefix, name);
      if children != [] {
        var sub := GetFieldSet(info, fuel, Single(ast), newPrefix);
        if sub.Err? {
          return Err(sub.error);
        }
        return Ok(Assign(acc, sub.value));
      }
      return Ok(Put(acc, newPrefix, true));
    case InlineFragment(_, _, _) =>
      var sub := GetFieldSet(info, fuel, Single(ast), prefix);
      if sub.Err? {
        return Err(sub.error);
      }
      return Ok(Assign(acc, sub.value));
    case FragmentSpread(name, _) =>
      if fuel == 0 {
        return Err(StackOverflow);
      }
      StepSpread(info, fuel, acc, ast, prefix);
      var sub := GetFieldSet(info, fuel - 1, SpreadSource(info, name), prefix);
      if sub.Err? {
        return Err(sub.error);
      }
      return Ok(Assign(acc, sub.value));
  }

  /** The spread arm of Step, unfolded. */
  lemma StepSpread(info: ResolveInfo, fuel: nat, acc: Obj<bool>, ast: Selection, prefix: string)
    requires ast.FragmentSpread? && Excluded(info.variableValues, ast) == Ok(false) && fuel > 0
    ensures Step(info, fuel, acc, ast, prefix) ==
              match FieldSet(info, fuel - 1, SpreadSource(info, ast.name), prefix)
              case Err(e) => Err(e)
              case Ok(sub) => Ok(Assign(acc, sub))
  {
  }

  // ------------------------------------------------- reference definition

  /** Every kept leaf field, in traversal order and with repetitions, as the
      list of the names of the fields enclosing it followed by its own name. */
  function Leaves(info: ResolveInfo, fuel: nat, asts: Asts): Result<seq<seq<string>>>
    decreases fuel, AstsSize(asts), 0
  {
    match Selections(asts)
    case Err(e) => Err(e)
    case Ok(sels) => LeavesOf(info, fuel, sels)
  }

  function LeavesOf(info: ResolveInfo, fuel: nat, sels: seq<Selection>): Result<seq<seq<string>>>
    decreases fuel, SizeList(sels), 2
  {
    if sels == [] then Ok([])
    else match LeavesAt(info, fuel, sels[0])
      case Err(e) => Err(e)
      case Ok(first) =>
        match LeavesOf(info, fuel, sels[1..])
        case Err(e) => Err(e)
        case Ok(rest) => Ok(first + rest)
  }

  function LeavesAt(info: ResolveInfo, fuel: nat, ast: Selection): Result<seq<seq<string>>>
    decreases fuel, Size(ast), 1
  {
    match Excluded(info.variableValues, ast)
    case Err(e) => Err(e)
    case Ok(excluded) =>
      if excluded then Ok([])
      else match ast
        case Field(name, _, _, _, children) =>
          if children == [] then Ok([[name]])
          else (match Leaves(info, fuel, Single(ast))
            case Err(e) => Err(e)
            case Ok(below) => Ok(seq(|below|, i requires 0 <= i < |below| => [name] + below[i])))
        case InlineFragment(_, _, _) => Leaves(info, fuel, Single(ast))
        case FragmentSpread(name, _) =>
          if fuel == 0 then Err(StackOverflow) else Leaves(info, fuel - 1, SpreadSource(info, name))
  }

  /** The path of a leaf below `prefix`: the segments added by `dotConcat`. */
  function PathOf(prefix: string, segments: seq<string>): string
    decreases |segments|
  {
    if segments == [] then prefix else PathOf(DotConcat(prefix, segments[0]), segments[1..])
  }

  function Paths(prefix: string, leaves: seq<seq<string>>): (ps: seq<string>)
    ensures |ps| == |leaves|
    ensures forall i :: 0 <= i < |leaves| ==> ps[i] == PathOf(prefix, leaves[i])
  {
    seq(|leaves|, i requires 0 <= i < |leaves| => PathOf(prefix, leaves[i]))
  }

  function PathsOnto(acc: seq<string>, prefix: string, r: Result<seq<seq<string>>>): Result<seq<string>> {
    match r
    case Err(e) => Err(e)
    case Ok(leaves) => Ok(DedupOnto(acc, Paths(prefix, leaves)))
  }

  /** `s[0] + "." + s[1] + ... `. */
  function JoinDots(segments: seq<string>): string
    requires segments != []
  {
    if |segments| == 1 then segments[0] else segments[0] + "." + JoinDots(segments[1..])
  }

  // ------------------------------------------------------------- theorems

  /** Below a non-empty prefix the segments follow a dot; an empty prefix
      adds no leading dot. */
  lemma {:induction false} PathOfJoins(prefix: string, segments: seq<string>)
    requires segments != [] && forall i :: 0 <= i < |segments| ==> segments[i] != ""
    ensures PathOf(prefix, segments) == if prefix == "" then JoinDots(segments) else prefix + "." + JoinDots(segments)
    decreases |segments|
  {
    var next := DotConcat(prefix, segments[0]);
    if |segments| > 1 {
      PathOfJoins(next, segments[1..]);
      assert next != "";
    }
  }

  lemma {:induction false} PathsAppend(prefix: string, a: seq<seq<string>>, b: seq<seq<string>>)
    ensures Paths(prefix, a + b) == Paths(prefix, a) + Paths(prefix, b)
  {
    assert forall i :: 0 <= i < |a| + |b| ==> (a + b)[i] == if i < |a| then a[i] else b[i - |a|];
  }

  lemma {:induction false} PathsPrepend(prefix: string, name: string, below: seq<seq<string>>)
    ensures Paths(prefix, seq(|below|, i requires 0 <= i < |below| => [name] + below[i]))
         == Paths(DotConcat(prefix, name), below)
  {
    forall i | 0 <= i < |below|
      ensures PathOf(prefix, [name] + below[i]) == PathOf(DotConcat(prefix, name), below[i])
    {
      assert ([name] + below[i])[1..] == below[i];
    }
  }

  /** `getFieldSet` lists each kept leaf path exactly once, at the position
      where the traversal first meets it; it fails exactly when the reference
      traversal does, with the same error. */
  lemma {:induction false} FieldSetIsDedupedLeaves(info: ResolveInfo, fuel: nat, asts: Asts, prefix: string)
    ensures KeysOf(FieldSet(info, fuel, asts, prefix)) == PathsOnto([], prefix, Leaves(info, fuel, asts))
    decreases fuel, AstsSize(asts), 0
  {
    match Selections(asts)
    case Err(e) =>
    case Ok(sels) => CollectIsDedupedLeaves(info, fuel, [], sels, prefix);
  }

  lemma {:induction false} CollectIsDedupedLeaves(info: ResolveInfo, fuel: nat, acc: Obj<bool>, sels: seq<Selection>, prefix: string)
    ensures KeysOf(Collect(info, fuel, acc, sels, prefix)) == PathsOnto(Keys(acc), prefix, LeavesOf(info, fuel, sels))
    decreases fuel, SizeList(sels), 2
  {
    if sels != [] {
      StepIsDedupedLeaves(info, fuel, acc, sels[0], prefix);
      match Step(info, fuel, acc, sels[0], prefix)
      case Err(e) =>
      case Ok(next) =>
        CollectIsDedupedLeaves(info, fuel, next, sels[1..], prefix);
        var first := LeavesAt(info, fuel, sels[0]).value;
        match LeavesOf(info, fuel, sels[1..])
        case Err(e) =>
        case Ok(rest) =>
          PathsAppend(prefix, first, rest);
          DedupOntoConcat(Keys(acc), Paths(prefix, first), Paths(prefix, rest));
    }
  }

  lemma {:induction false} StepIsDedupedLeaves(info: ResolveInfo, fuel: nat, acc: Obj<bool>, ast: Selection, prefix: string)
    ensures KeysOf(Step(info, fuel, acc, ast, prefix)) == PathsOnto(Keys(acc), prefix, LeavesAt(info, fuel, ast))
    decreases fuel, Size(ast), 1
  {
    match Excluded(info.variableValues, ast)
    case Err(e) =>
    case Ok(excluded) =>
      if !excluded {
        match ast
        case Field(name, _, _, _, children) =>
          var newPrefix := DotConcat(prefix, name);
          if children != [] {
            FieldSetIsDedupedLeaves(info, fuel, Single(ast), newPrefix);
            match Leaves(info, fuel, Single(ast)) {
              case Err(e) =>
              case Ok(below) =>
                PathsPrepend(prefix, name, below);
                MergeIsDedupOnto(acc, FieldSet(info, fuel, Single(ast), newPrefix).value, newPrefix, below);
            }
          } else {
            LeafIsDedupOnto(acc, prefix, name);
          }
        case InlineFragment(_, _, _) =>
          FieldSetIsDedupedLeaves(info, fuel, Single(ast), prefix);
          match Leaves(info, fuel, Single(ast)) {
            case Err(e) =>
            case Ok(below) => MergeIsDedupOnto(acc, FieldSet(info, fuel, Single(ast), prefix).value, prefix, below);
          }
        case FragmentSpread(name, _) =>
          if fuel > 0 {
            FieldSetIsDedupedLeaves(info, fuel - 1, SpreadSource(info, name), prefix);
            match Leaves(info, fuel - 1, SpreadSource(info, name)) {
              case Err(e) =>
              case Ok(below) => MergeIsDedupOnto(acc, FieldSet(info, fuel - 1, SpreadSource(info, name), prefix).value, prefix, below);
            }
          }
      }
  }

  lemma {:induction false} LeafIsDedupOnto(acc: Obj<bool>, prefix: string, name: string)
    ensures Keys(Put(acc, DotConcat(prefix, name), true)) == DedupOnto(Keys(acc), Paths(prefix, [[name]]))
  {
    var newPrefix := DotConcat(prefix, name);
    assert [name][1..] == [];
    assert PathOf(prefix, [name]) == newPrefix;
    assert Paths(prefix, [[name]]) == [newPrefix];
    assert [newPrefix][1..] == [];
  }

  lemma {:induction false} MergeIsDedupOnto(acc: Obj<bool>, sub: Obj<bool>, prefix: string, below: seq<seq<string>>)
    requires Keys(sub) == DedupOnto([], Paths(prefix, below))
    ensures Keys(Assign(acc, sub)) == DedupOnto(Keys(acc), Paths(prefix, below))
  {
    DedupOntoDedup(Keys(acc), Paths(prefix, below));
  }

  /** An excluded selection contributes nothing, its subtree included: the
      walk is the same with the selection removed. */
  lemma {:induction false} ExcludedContributesNothing(info: ResolveInfo, fuel: nat, acc: Obj<bool>,
                                                      before: seq<Selection>, ast: Selection, after: seq<Selection>, prefix: string)
    requires Excluded(info.variableValues, ast) == Ok(true)
    ensures Collect(info, fuel, acc, before + [ast] + after, prefix) == Collect(info, fuel, acc, before + after, prefix)
    decreases |before|
  {
    if before == [] {
      assert ([ast] + after)[1..] == after;
      assert before + [ast] + after == [ast] + after;
      assert before + after == after;
      assert Step(info, fuel, acc, ast, prefix) == Ok(acc);
    } else {
      assert (before + [ast] + after)[0] == before[0];
      assert (before + [ast] + after)[1..] == before[1..] + [ast] + after;
      assert (before + after)[0] == before[0];
      assert (before + after)[1..] == before[1..] + after;
      match Step(info, fuel, acc, before[0], prefix)
      case Err(e) =>
      case Ok(next) => ExcludedContributesNothing(info, fuel, next, before[1..], ast, after, prefix);
    }
  }

  /** A spread of an undefined fragment as the first root selection restarts
      the walk from the root every time: the recursion never ends and the call
      overflows the stack whatever the depth allowed. */
  lemma {:induction false} UnknownFragmentAtRootOverflows(info: ResolveInfo, fuel: nat, prefix: string, name: string)
    requires ConcatSelections(info.fieldNodes).Ok?
    requires ConcatSelections(info.fieldNodes).value != []
    requires ConcatSelections(info.fieldNodes).value[0] == FragmentSpread(name, [])
    requires name !in info.fragments
    ensures FieldSet(info, fuel, Nodes(info.fieldNodes), prefix) == Err(StackOverflow)
    decreases fuel, 2
  {
    var sels := ConcatSelections(info.fieldNodes).value;
    assert FieldSet(info, fuel, Nodes(info.fieldNodes), prefix) == Collect(info, fuel, [], sels, prefix);
    SpreadAtRootOverflows(info, fuel, prefix, sels[0], name);
  }

  lemma SpreadAtRootOverflows(info: ResolveInfo, fuel: nat, prefix: string, spread: Selection, name: string)
    requires ConcatSelections(info.fieldNodes).Ok? && ConcatSelections(info.fieldNodes).value != []
    requires ConcatSelections(info.fieldNodes).value[0] == FragmentSpread(name, []) == spread
    requires name !in info.fragments
    ensures Step(info, fuel, [], spread, prefix) == Err(StackOverflow)
    decreases fuel, 1
  {
    assert Excluded(info.variableValues, spread) == Ok(false);
    if fuel > 0 {
      assert SpreadSource(info, name) == Nodes(info.fieldNodes);
      UnknownFragmentAtRootOverflows(info, fuel - 1, prefix, name);
      StepSpread(info, fuel, [], spread, prefix);
    }
  }

  // ----------------------------------------------------------- getFieldList

  /** The exported `getFieldList(context)`: `Object.keys(getFieldSet(context))`. */
  method GetFieldList(info: ResolveInfo, fuel: nat) returns (r: Result<seq<string>>)
    ensures r == PathsOnto([], "", Leaves(info, fuel, Nodes(info.fieldNodes)))
  {
    var result := GetFieldSet(info, fuel, Nodes(info.fieldNodes), "");
    FieldSetIsDedupedLeaves(info, fuel, Nodes(info.fieldNodes), "");
    if result.Err? {
      return Err(result.error);
    }
    return Ok(Keys(result.value));
  }
}
