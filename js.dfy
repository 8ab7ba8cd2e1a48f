/**
 * JavaScript values and plain objects as the analyzer uses them.
 *
 * A plain object is an ordered association list: `Object.keys` lists the keys in
 * insertion order, a write to an existing key replaces its value in place, and a
 * write to a new key appends it.  (Keys that look like array indices would be
 * ordered first by JavaScript; GraphQL names and dot-joined paths of names never
 * have that shape.)
 */
module Js {

  datatype Option<+T> = None | Some(value: T)

  /** The runtime values that reach a descriptor: literals read from the query
      and variable values already coerced by the execution engine. */
  datatype JsValue =
    | Undefined
    | Null
    | Bool(b: bool)
    | Num(n: int)
    | Str(s: string)
    | Arr(items: seq<JsValue>)
    | Object(props: seq<(string, JsValue)>)

  /** JavaScript truthiness, as consulted by `||`, `!` and `if`. */
  predicate Truthy(v: JsValue) {
    match v
    case Undefined => false
    case Null => false
    case Bool(b) => b
    case Num(n) => n != 0
    case Str(s) => s != ""
    case Arr(_) => true
    case Object(_) => true
  }

  type Obj<V> = seq<(string, V)>

  function Keys<V>(o: Obj<V>): (ks: seq<string>)
    ensures |ks| == |o|
  {
    seq(|o|, i requires 0 <= i < |o| => o[i].0)
  }

  /** The keys of an object with at least one entry: the first key, then the rest. */
  lemma KeysCons<V>(o: Obj<V>)
    requires o != []
    ensures Keys(o) == [o[0].0] + Keys(o[1..])
  {
    var ks, tail := Keys(o), [o[0].0] + Keys(o[1..]);
    forall i | 0 <= i < |o| ensures ks[i] == tail[i] {
      if i > 0 { assert tail[i] == Keys(o[1..])[i - 1] == o[1..][i - 1].0; }
    }
  }

  /** The keys of an object with at least one entry: all but the last key, then the last. */
  lemma KeysSnoc<V>(o: Obj<V>)
    requires o != []
    ensures Keys(o) == Keys(o[..|o| - 1]) + [o[|o| - 1].0]
  {
    var ks, init := Keys(o), Keys(o[..|o| - 1]) + [o[|o| - 1].0];
    forall i | 0 <= i < |o| ensures ks[i] == init[i] {
      if i < |o| - 1 { assert init[i] == Keys(o[..|o| - 1])[i] == o[..|o| - 1][i].0; }
    }
  }

  ghost predicate Distinct(s: seq<string>) {
    forall i, j :: 0 <= i < j < |s| ==> s[i] != s[j]
  }

  /** Property lookup `o[k]`: the value stored under the first entry named `k`. */
  function Get<V>(o: Obj<V>, k: string): (r: Option<V>)
    ensures r.Some? <==> k in Keys(o)
  {
    if o == [] then None
    else
      KeysCons(o);
      if o[0].0 == k then Some(o[0].1)
      else Get(o[1..], k)
  }

  /** The value of the LAST entry named `k`: what a left-to-right series of
      writes leaves behind. */
  function LastGet<V>(o: Obj<V>, k: string): (r: Option<V>)
    ensures r.Some? <==> k in Keys(o)
  {
    if o == [] then None
    else
      KeysSnoc(o);
      if o[|o| - 1].0 == k then Some(o[|o| - 1].1)
      else LastGet(o[..|o| - 1], k)
  }

  /** `o[k] = v` on a plain object. */
  function Put<V>(o: Obj<V>, k: string, v: V): (r: Obj<V>)
    ensures Keys(r) == if k in Keys(o) then Keys(o) else Keys(o) + [k]
    ensures Get(r, k) == Some(v)
    ensures forall j :: j != k ==> Get(r, j) == Get(o, j)
  {
    if o == [] then [(k, v)]
    else if o[0].0 == k then
      var r := [(k, v)] + o[1..];
      assert r[1..] == o[1..];
      KeysCons(r);
      KeysCons(o);
      r
    else
      var tail := Put(o[1..], k, v);
      var r := [o[0]] + tail;
      assert r[1..] == tail;
      KeysCons(r);
      KeysCons(o);
      r
  }

  /** Appends to `acc` each element of `s` that is not already present, in order. */
  function DedupOnto(acc: seq<string>, s: seq<string>): (r: seq<string>)
    ensures acc <= r
    ensures forall x :: x in r <==> x in acc || x in s
    decreases s
  {
    if s == [] then acc
    else DedupOnto(if s[0] in acc then acc else acc + [s[0]], s[1..])
  }

  /** First-seen-order list of the distinct elements of `s`. */
  function Dedup(s: seq<string>): (r: seq<string>)
    ensures forall x :: x in r <==> x in s
  {
    DedupOnto([], s)
  }

  lemma {:induction false} DedupOntoDistinct(acc: seq<string>, s: seq<string>)
    requires Distinct(acc)
    ensures Distinct(DedupOnto(acc, s))
    decreases s
  {
    if s != [] {
      var acc' := if s[0] in acc then acc else acc + [s[0]];
      assert Distinct(acc') by {
        forall i, j | 0 <= i < j < |acc'| ensures acc'[i] != acc'[j] {
          if j == |acc| { assert acc'[j] == s[0] && acc'[i] == acc[i]; }
        }
      }
      DedupOntoDistinct(acc', s[1..]);
    }
  }

  /** `Dedup` never lists an element twice. */
  lemma DedupDistinct(s: seq<string>)
    ensures Distinct(Dedup(s))
  {
    DedupOntoDistinct([], s);
  }

  /** `Object.assign({}, a, b)` (also `{...a, ...b}`): every entry of `b` written,
      left to right, over a copy of `a`. */
  function Assign<V>(a: Obj<V>, b: Obj<V>): (r: Obj<V>)
    ensures Keys(r) == DedupOnto(Keys(a), Keys(b))
    decreases b
  {
    if b == [] then a
    else
      KeysCons(b);
      Assign(Put(a, b[0].0, b[0].1), b[1..])
  }

  /** After `Object.assign({}, a, b)` a key of `b` holds the value of its last
      entry in `b`, and any other key holds what it held in `a`. */
  lemma {:induction false} AssignGet<V>(a: Obj<V>, b: Obj<V>, k: string)
    ensures Get(Assign(a, b), k) == if k in Keys(b) then LastGet(b, k) else Get(a, k)
    decreases b
  {
    if b != [] {
      KeysCons(b);
      AssignGet(Put(a, b[0].0, b[0].1), b[1..], k);
      LastGetCons(b, k);
    }
  }

  lemma {:induction false} LastGetCons<V>(b: Obj<V>, k: string)
    requires b != []
    ensures LastGet(b, k) == if k in Keys(b[1..]) then LastGet(b[1..], k)
                             else if b[0].0 == k then Some(b[0].1) else None
  {
    if |b| == 1 {
      assert b[1..] == [];
    } else {
      assert b[1..][..|b[1..]| - 1] == b[..|b| - 1][1..];
      assert Keys(b[..|b| - 1][1..]) == Keys(b[1..])[..|b| - 2];
      KeysSnoc(b[1..]);
      LastGetCons(b[..|b| - 1], k);
    }
  }

  /** On an object with distinct keys the first and the last entry named `k`
      are the same entry. */
  lemma {:induction false} LastGetIsGet<V>(o: Obj<V>, k: string)
    requires Distinct(Keys(o))
    ensures LastGet(o, k) == Get(o, k)
  {
    if o != [] {
      LastGetCons(o, k);
      KeysCons(o);
      assert Keys(o[1..]) == Keys(o)[1..];
      assert Distinct(Keys(o[1..]));
      DistinctHead(o);
      LastGetIsGet(o[1..], k);
    }
  }

  /** In an object with distinct keys the first key does not occur again. */
  lemma DistinctHead<V>(o: Obj<V>)
    requires o != [] && Distinct(Keys(o))
    ensures o[0].0 !in Keys(o[1..])
  {
    var ks, tail := Keys(o), Keys(o[1..]);
    forall j | 0 <= j < |tail| ensures tail[j] != o[0].0 {
      assert ks[0] == o[0].0 && tail[j] == o[1..][j].0 == ks[j + 1];
    }
  }

  /** After `Object.assign({}, a, b)` with `b` free of repeated keys, a key of
      `b` reads its value in `b`, and any other key reads its value in `a`. */
  lemma AssignReads<V>(a: Obj<V>, b: Obj<V>, k: string)
    requires UniqueKeys(b)
    ensures Get(Assign(a, b), k) == if k in Keys(b) then Get(b, k) else Get(a, k)
  {
    AssignGet(a, b, k);
    UniqueKeysDistinct(b);
    LastGetIsGet(b, k);
  }

  /** A write adds its key to the key list as a one-element merge would. */
  lemma PutIsDedupOnto<V>(o: Obj<V>, k: string, v: V)
    ensures Keys(Put(o, k, v)) == DedupOnto(Keys(o), [k])
  {
    assert [k][1..] == [];
  }

  lemma {:induction false} AssignEmpty<V>(a: Obj<V>)
    ensures Assign(a, []) == a
  {
  }

  /** Objects built only by Put and Assign from `{}` never repeat a key. */
  lemma PutDistinct<V>(o: Obj<V>, k: string, v: V)
    requires Distinct(Keys(o))
    ensures Distinct(Keys(Put(o, k, v)))
  {
  }

  lemma AssignDistinct<V>(a: Obj<V>, b: Obj<V>)
    requires Distinct(Keys(a))
    ensures Distinct(Keys(Assign(a, b)))
  {
    DedupOntoDistinct(Keys(a), Keys(b));
  }

  /** No key of `o` occurs twice, checked one entry at a time. */
  ghost predicate UniqueKeys<V>(o: Obj<V>)
    decreases o
  {
    o == [] || (o[0].0 !in Keys(o[1..]) && UniqueKeys(o[1..]))
  }

  lemma {:induction false} UniqueKeysDistinct<V>(o: Obj<V>)
    ensures UniqueKeys(o) <==> Distinct(Keys(o))
    decreases o
  {
    if o != [] {
      UniqueKeysDistinct(o[1..]);
      var ks, tail := Keys(o), Keys(o[1..]);
      KeysCons(o);
      if Distinct(ks) {
        forall i, j | 0 <= i < j < |tail| ensures tail[i] != tail[j] {
          assert tail[i] == ks[i + 1] && tail[j] == ks[j + 1];
        }
        DistinctHead(o);
      }
      if UniqueKeys(o) {
        forall i, j | 0 <= i < j < |ks| ensures ks[i] != ks[j] {
          if i == 0 {
            assert ks[j] == tail[j - 1];
          } else {
            assert ks[i] == tail[i - 1] && ks[j] == tail[j - 1];
          }
        }
      }
    }
  }

  lemma PutUnique<V>(o: Obj<V>, k: string, v: V)
    requires UniqueKeys(o)
    ensures UniqueKeys(Put(o, k, v))
  {
    UniqueKeysDistinct(o);
    PutDistinct(o, k, v);
    UniqueKeysDistinct(Put(o, k, v));
  }

  lemma AssignUnique<V>(a: Obj<V>, b: Obj<V>)
    requires UniqueKeys(a)
    ensures UniqueKeys(Assign(a, b))
  {
    UniqueKeysDistinct(a);
    AssignDistinct(a, b);
    UniqueKeysDistinct(Assign(a, b));
  }

  lemma {:induction false} DedupOntoConcat(acc: seq<string>, s: seq<string>, t: seq<string>)
    ensures DedupOnto(DedupOnto(acc, s), t) == DedupOnto(acc, s + t)
    decreases s
  {
    if s != [] {
      assert (s + t)[0] == s[0] && (s + t)[1..] == s[1..] + t;
      DedupOntoConcat(if s[0] in acc then acc else acc + [s[0]], s[1..], t);
    } else {
      assert s + t == t;
    }
  }

  /** Deduplicating a list first does not change what it adds to `acc`. */
  lemma {:induction false} DedupOntoDedup(acc: seq<string>, s: seq<string>)
    ensures DedupOnto(acc, Dedup(s)) == DedupOnto(acc, s)
  {
    DedupOntoAbsorb(acc, [], s);
  }

  lemma {:induction false} DedupOntoAbsorb(acc: seq<string>, seen: seq<string>, s: seq<string>)
    requires forall x :: x in seen ==> x in acc
    ensures DedupOnto(acc, DedupOnto(seen, s)) == DedupOnto(acc, s)
    decreases s
  {
    if s == [] {
      DedupOntoAllIn(acc, seen);
    } else if s[0] in seen {
      DedupOntoAbsorb(acc, seen, s[1..]);
    } else {
      var x, rest := s[0], s[1..];
      var acc' := if x in acc then acc else acc + [x];
      assert DedupOnto(seen, s) == DedupOnto(seen + [x], rest);
      assert DedupOnto(acc, s) == DedupOnto(acc', rest);
      DedupOntoAbsorb(acc', seen + [x], rest);
      DedupOntoAbsorbFresh(acc, seen, x, DedupOnto(seen + [x], rest));
    }
  }

  /** The step of DedupOntoAbsorb where `x` is new to `seen`: the prefix
      `seen + [x]` of `r` adds exactly `x` to `acc`. */
  lemma {:induction false} DedupOntoAbsorbFresh(acc: seq<string>, seen: seq<string>, x: string, r: seq<string>)
    requires forall y :: y in seen ==> y in acc
    requires seen + [x] <= r
    ensures DedupOnto(acc, r) == DedupOnto(if x in acc then acc else acc + [x], r)
  {
    var acc' := if x in acc then acc else acc + [x];
    var seen' := seen + [x];
    var y := r[|seen'|..];
    assert r == seen' + y;
    assert DedupOnto(acc, seen') == acc' by {
      DedupOntoConcat(acc, seen, [x]);
      DedupOntoAllIn(acc, seen);
      assert DedupOnto(acc, [x]) == DedupOnto(acc', []);
    }
    assert DedupOnto(acc', seen') == acc' by {
      DedupOntoAllIn(acc', seen');
    }
    DedupOntoConcat(acc, seen', y);
    DedupOntoConcat(acc', seen', y);
  }

  lemma {:induction false} DedupOntoAllIn(acc: seq<string>, s: seq<string>)
    requires forall x :: x in s ==> x in acc
    ensures DedupOnto(acc, s) == acc
  {
    if s != [] {
      DedupOntoAllIn(acc, s[1..]);
    }
  }

  /** Every entry of `o` satisfies `p`. */
  predicate All<V>(o: Obj<V>, p: (string, V) -> bool) {
    forall i :: 0 <= i < |o| ==> p(o[i].0, o[i].1)
  }

  lemma {:induction false} PutAll<V>(o: Obj<V>, k: string, v: V, p: (string, V) -> bool)
    requires All(o, p) && p(k, v)
    ensures All(Put(o, k, v), p)
  {
    if o != [] && o[0].0 != k {
      assert All(o[1..], p) by {
        forall i | 0 <= i < |o[1..]| ensures p(o[1..][i].0, o[1..][i].1) { assert o[1..][i] == o[i + 1]; }
      }
      PutAll(o[1..], k, v, p);
      var r := Put(o, k, v);
      forall i | 0 <= i < |r| ensures p(r[i].0, r[i].1) {
        if i > 0 { assert r[i] == Put(o[1..], k, v)[i - 1]; }
      }
    } else if o != [] {
      var r := Put(o, k, v);
      forall i | 0 <= i < |r| ensures p(r[i].0, r[i].1) {
        if i > 0 { assert r[i] == o[i]; }
      }
    }
  }

  lemma {:induction false} AssignAll<V>(a: Obj<V>, b: Obj<V>, p: (string, V) -> bool)
    requires All(a, p) && All(b, p)
    ensures All(Assign(a, b), p)
    decreases b
  {
    if b != [] {
      PutAll(a, b[0].0, b[0].1, p);
      assert All(b[1..], p) by {
        forall i | 0 <= i < |b[1..]| ensures p(b[1..][i].0, b[1..][i].1) { assert b[1..][i] == b[i + 1]; }
      }
      AssignAll(Put(a, b[0].0, b[0].1), b[1..], p);
    }
  }

  /** The last entry named `k` is an entry with no later entry of that name. */
  lemma {:induction false} LastGetAt<V>(o: Obj<V>, i: nat)
    requires i < |o| && forall j :: i < j < |o| ==> o[j].0 != o[i].0
    ensures LastGet(o, o[i].0) == Some(o[i].1)
    decreases |o|
  {
    if i < |o| - 1 {
      var init := o[..|o| - 1];
      assert init[i] == o[i];
      LastGetAt(init, i);
    }
  }

  /** In `Object.assign({}, a, b)` the last entry of `b` under a key wins. */
  lemma AssignLastWins<V>(a: Obj<V>, b: Obj<V>, i: nat)
    requires i < |b| && forall j :: i < j < |b| ==> b[j].0 != b[i].0
    ensures Get(Assign(a, b), b[i].0) == Some(b[i].1)
  {
    assert Keys(b)[i] == b[i].0;
    AssignGet(a, b, b[i].0);
    LastGetAt(b, i);
  }
}
