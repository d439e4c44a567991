/** `RTools.merge` of randomizeme.js: the deep merge. Each argument in turn
    is walked with `for..in`; a property whose value is not an object is
    copied over, and an object-valued property (including `null`) is replaced
    by the merge of what the accumulator holds there with that value. */
module DeepMerge {
  import opened JsValues

  /** `merge(undefined, v)`, the accumulator a nested merge starts from:
      a fresh copy of `v`'s properties in which every object-valued property
      is copied recursively (so a `null` property becomes `{}`). */
  function Copy(v: Value): (r: map<string, Value>)
    ensures r.Keys == Enum(v).Keys
  {
    match v
    case Obj(m) => map k | k in m :: if IsObject(m[k]) then Obj(Copy(m[k])) else m[k]
    case _ => map[]
  }

  /** The accumulator `m` after the `for..in` walk over one argument `src`. */
  function Into(m: map<string, Value>, src: Value): (r: map<string, Value>)
    ensures r.Keys == m.Keys + Enum(src).Keys
    decreases src, 0
  {
    match src
    case Obj(f) => map k | k in m.Keys + f.Keys :: if k in f then Visit(m, f, k) else m[k]
    case _ => m
  }

  /** What property `k` of the argument `f` leaves in the accumulator `m`:
      its own value when that is not an object, otherwise
      `merge(m[k], f[k])`. */
  function Visit(m: map<string, Value>, f: map<string, Value>, k: string): Value
    requires k in f
    decreases f[k], 1
  {
    if IsObject(f[k]) then Obj(Into(Copy(Get(m, k)), f[k])) else f[k]
  }

  /** `merge(args...)`: the arguments folded into `{}` from first to last. */
  function MergeAll(args: seq<Value>): map<string, Value>
    decreases |args|
  {
    if args == [] then map[] else Into(MergeAll(args[..|args| - 1]), args[|args| - 1])
  }

  /** The accumulator part way through the walk over `f`: the properties in
      `done` have been visited, in whatever order `for..in` chose. */
  function IntoPart(m: map<string, Value>, f: map<string, Value>, done: set<string>): map<string, Value> {
    map k | k in m.Keys + (f.Keys * done) :: if k in f && k in done then Visit(m, f, k) else m[k]
  }

  /** The merge as the source runs it: a loop over the arguments, a `for..in`
      loop over each argument's properties, and a recursive call for each
      object-valued property. `depth` bounds the nesting of the arguments
      and only serves to show that the recursion ends. */
  method Merge(args: seq<Value>, ghost depth: nat) returns (merged: map<string, Value>)
    requires depth >= 1
    requires forall a :: a in args ==> NestedAtMost(a, depth)
    ensures merged == MergeAll(args)
    ensures NestedAtMost(Obj(merged), depth)
    decreases depth, 2
  {
    merged := map[];
    var i := 0;
    while i < |args|
      invariant 0 <= i <= |args|
      invariant merged == MergeAll(args[..i])
      invariant NestedAtMost(Obj(merged), depth)
    {
      assert args[i] in args;
      merged := Walk(merged, args[i], depth);
      MergeAllPrefix(args, i);
      i := i + 1;
    }
    assert args[..|args|] == args;
  }

  /** The `for..in` loop of `merge` over one argument `arg`, updating the
      accumulator `merged` property by property. */
  method Walk(merged: map<string, Value>, arg: Value, ghost depth: nat) returns (r: map<string, Value>)
    requires depth >= 1 && NestedAtMost(arg, depth) && NestedAtMost(Obj(merged), depth)
    ensures r == Into(merged, arg)
    ensures NestedAtMost(Obj(r), depth)
    decreases depth, 1
  {
    var f := Enum(arg);
    r := merged;
    var props := f.Keys;
    while props != {}
      invariant props <= f.Keys
      invariant r == IntoPart(merged, f, f.Keys - props)
      invariant NestedAtMost(Obj(r), depth)
      decreases props
    {
      var prop :| prop in props;
      var v := f[prop];
      ghost var done := f.Keys - props;
      ChildNested(arg, depth, prop);
      IntoPartUntouched(merged, f, done, prop);
      GetNested(r, depth, prop);
      var value := MergeProperty(Get(r, prop), v, depth);
      assert value == Visit(merged, f, prop);
      UpdateNested(r, depth, prop, value);
      r := r[prop := value];
      IntoPartStep(merged, f, done, prop);
      props := props - {prop};
      assert f.Keys - props == done + {prop};
    }
    IntoPartAll(merged, arg);
  }

  /** The new value of one property: the argument's own value when it is
      not an object, otherwise the merge of the accumulator's value `prev`
      with it. */
  method MergeProperty(prev: Value, v: Value, ghost depth: nat) returns (value: Value)
    requires depth >= 1 && NestedAtMost(prev, depth - 1) && NestedAtMost(v, depth - 1)
    requires IsObject(v) ==> depth >= 2
    ensures value == if IsObject(v) then Obj(Into(Copy(prev), v)) else v
    ensures NestedAtMost(value, depth - 1)
    decreases depth, 0
  {
    if !IsObject(v) {
      value := v;
    } else {
      var sub := Merge([prev, v], depth - 1);
      MergePairIsVisit(prev, v);
      value := Obj(sub);
    }
  }

  /** A property of a value nested at most `depth` deep is nested at most
      one level less. */
  lemma ChildNested(v: Value, depth: nat, k: string)
    requires NestedAtMost(v, depth) && k in Enum(v)
    ensures NestedAtMost(Enum(v)[k], if depth == 0 then 0 else depth - 1)
    ensures IsObject(Enum(v)[k]) ==> depth >= 2
  {
  }

  lemma GetNested(m: map<string, Value>, depth: nat, k: string)
    requires NestedAtMost(Obj(m), depth)
    ensures depth >= 1 && NestedAtMost(Get(m, k), depth - 1)
  {
  }

  lemma MergeAllPrefix(args: seq<Value>, i: nat)
    requires i < |args|
    ensures MergeAll(args[..i + 1]) == Into(MergeAll(args[..i]), args[i])
  {
    assert args[..i + 1][..i] == args[..i];
  }

  /** One step of the `for..in` walk: visiting `k` updates the accumulator
      as `Visit` says. */
  lemma IntoPartStep(m: map<string, Value>, f: map<string, Value>, done: set<string>, k: string)
    requires k in f && k !in done
    ensures IntoPart(m, f, done)[k := Visit(m, f, k)] == IntoPart(m, f, done + {k})
  {
  }

  lemma IntoPartUntouched(m: map<string, Value>, f: map<string, Value>, done: set<string>, k: string)
    requires k !in done
    ensures Get(IntoPart(m, f, done), k) == Get(m, k)
  {
  }

  lemma UpdateNested(m: map<string, Value>, depth: nat, k: string, v: Value)
    requires NestedAtMost(Obj(m), depth) && depth >= 1 && NestedAtMost(v, depth - 1)
    ensures NestedAtMost(Obj(m[k := v]), depth)
  {
  }

  lemma IntoPartAll(m: map<string, Value>, src: Value)
    ensures IntoPart(m, Enum(src), Enum(src).Keys) == Into(m, src)
  {
  }

  /** A two-argument merge, as the nested call makes it. */
  lemma MergePairIsVisit(prev: Value, v: Value)
    ensures MergeAll([prev, v]) == Into(Copy(prev), v)
  {
    assert [prev, v][..1] == [prev];
    assert [prev][..0] == [];
    assert MergeAll([prev]) == Into(map[], prev);
    IntoNothingIsCopy(prev);
    assert MergeAll([prev, v]) == Into(MergeAll([prev]), v);
  }

  /** Folding one value into an empty accumulator is the same as copying
      it, so `merge(undefined, v)` and `Copy(v)` agree. */
  lemma {:induction false} IntoNothingIsCopy(v: Value)
    ensures Into(map[], v) == Copy(v)
  {
    match v
    case Obj(f) =>
      forall k | k in f ensures Into(map[], v)[k] == Copy(v)[k] {
        if IsObject(f[k]) {
          IntoNothingIsCopy(f[k]);
        }
      }
    case _ =>
  }

  /** Every property any argument has, and no other. */
  function AllKeys(args: seq<Value>): set<string>
    decreases |args|
  {
    if args == [] then {} else AllKeys(args[..|args| - 1]) + Enum(args[|args| - 1]).Keys
  }

  /** The merge holds every property of every argument and nothing else. */
  lemma {:induction false} MergeKeys(args: seq<Value>)
    ensures MergeAll(args).Keys == AllKeys(args)
    ensures forall i, k :: 0 <= i < |args| && k in Enum(args[i]) ==> k in MergeAll(args)
  {
    if args != [] {
      var n := |args| - 1;
      MergeKeys(args[..n]);
      forall i, k | 0 <= i < |args| && k in Enum(args[i]) ensures k in MergeAll(args) {
        if i < n {
          assert args[..n][i] == args[i];
        }
      }
    }
  }

  /** A property whose value is not an object (a string, a number, a
      function, `undefined`) takes its value from the last argument that
      has the property. */
  lemma {:induction false} LastPrimitiveWins(args: seq<Value>, j: nat, k: string)
    requires j < |args| && k in Enum(args[j]) && !IsObject(Enum(args[j])[k])
    requires forall i :: j < i < |args| ==> k !in Enum(args[i])
    ensures k in MergeAll(args) && MergeAll(args)[k] == Enum(args[j])[k]
  {
    var n := |args| - 1;
    if j < n {
      forall i | j < i < n ensures k !in Enum(args[..n][i]) {
        assert args[..n][i] == args[i];
      }
      assert args[..n][j] == args[j];
      LastPrimitiveWins(args[..n], j, k);
      assert k !in Enum(args[n]);
      assert MergeAll(args) == Into(MergeAll(args[..n]), args[n]);
    } else {
      assert MergeAll(args) == Into(MergeAll(args[..n]), args[n]);
      assert args[n].Obj? && Visit(MergeAll(args[..n]), args[n].fields, k) == Enum(args[j])[k];
    }
  }

  /** Union of the nested properties the arguments have under `k`. */
  function NestedKeys(args: seq<Value>, k: string): set<string>
    decreases |args|
  {
    if args == [] then {}
    else
      var last := Enum(args[|args| - 1]);
      NestedKeys(args[..|args| - 1], k) + (if k in last then Enum(last[k]).Keys else {})
  }

  /** When every argument that has `k` holds an object there, the merge
      holds an object under `k` whose properties are those of all of them:
      nested properties from earlier and later arguments are all kept. */
  lemma {:induction false} NestedKeysCombine(args: seq<Value>, k: string)
    requires exists i :: 0 <= i < |args| && k in Enum(args[i])
    requires forall i :: 0 <= i < |args| && k in Enum(args[i]) ==> IsObject(Enum(args[i])[k])
    ensures k in MergeAll(args) && MergeAll(args)[k].Obj?
    ensures MergeAll(args)[k].fields.Keys == NestedKeys(args, k)
  {
    var n := |args| - 1;
    var prefix := args[..n];
    forall i | 0 <= i < n && k in Enum(prefix[i]) ensures IsObject(Enum(prefix[i])[k]) {
      assert prefix[i] == args[i];
    }
    var before := MergeAll(prefix);
    assert MergeAll(args) == Into(before, args[n]);
    if k in Enum(args[n]) {
      var f := args[n].fields;
      assert MergeAll(args)[k] == Visit(before, f, k) == Obj(Into(Copy(Get(before, k)), f[k]));
      if exists i :: 0 <= i < n && k in Enum(prefix[i]) {
        NestedKeysCombine(prefix, k);
      } else {
        NoKeyNoNested(prefix, k);
        MergeKeys(prefix);
        assert Get(before, k) == Undefined;
      }
    } else {
      var i :| 0 <= i < |args| && k in Enum(args[i]);
      assert i < n && prefix[i] == args[i];
      NestedKeysCombine(prefix, k);
    }
  }

  /** The two-argument case: an object under `k` in the first argument,
      merged with a second that holds an object or nothing there, keeps the
      properties of both. */
  lemma NestedKeysPair(o: map<string, Value>, extra: Value, k: string)
    requires k in o && o[k].Obj?
    requires k in Enum(extra) ==> IsObject(Enum(extra)[k])
    ensures k in MergeAll([Obj(o), extra]) && MergeAll([Obj(o), extra])[k].Obj?
    ensures MergeAll([Obj(o), extra])[k].fields.Keys
         == o[k].fields.Keys + (if k in Enum(extra) then Enum(Enum(extra)[k]).Keys else {})
  {
    var args := [Obj(o), extra];
    assert k in Enum(args[0]);
    NestedKeysCombine(args, k);
    assert args[..1] == [Obj(o)] && args[..1][..0] == [];
    assert NestedKeys(args[..1], k) == o[k].fields.Keys;
  }

  /** A `null` merged over an object adds nothing: `for..in` over `null`
      visits no property, so the object the earlier argument held stays. */
  lemma NullKeepsEarlier(o: map<string, Value>, k: string)
    requires Normalized(Obj(o)) && k in o && o[k].Obj?
    ensures var merged := MergeAll([Obj(o), Obj(map[k := Null])]);
            k in merged && merged[k] == o[k]
  {
    var extra := Obj(map[k := Null]);
    NestedKeysPair(o, extra, k);
    var merged := MergeAll([Obj(o), extra]);
    forall k2 | k2 in o[k].fields ensures merged[k].fields[k2] == o[k].fields[k2] {
      NestedSurvives(o, extra, k, k2);
    }
    assert merged[k].fields == o[k].fields;
  }

  lemma {:induction false} NoKeyNoNested(args: seq<Value>, k: string)
    requires forall i :: 0 <= i < |args| ==> k !in Enum(args[i])
    ensures NestedKeys(args, k) == {} && k !in AllKeys(args)
  {
    if args != [] {
      var n := |args| - 1;
      forall i | 0 <= i < n ensures k !in Enum(args[..n][i]) {
        assert args[..n][i] == args[i];
      }
      NoKeyNoNested(args[..n], k);
    }
  }

  /** Every merge result is normalized: plain objects all the way down, and
      no `null` survives, since a `null` is merged like an object with no
      properties. */
  lemma {:induction false} CopyNormalized(v: Value)
    ensures Normalized(Obj(Copy(v)))
  {
    match v
    case Obj(m) =>
      forall k | k in m && IsObject(m[k]) ensures Normalized(Obj(Copy(m[k]))) {
        CopyNormalized(m[k]);
      }
    case _ =>
  }

  lemma {:induction false} IntoNormalized(m: map<string, Value>, src: Value)
    requires Normalized(Obj(m))
    ensures Normalized(Obj(Into(m, src)))
    decreases src
  {
    match src
    case Obj(f) =>
      forall k | k in f && IsObject(f[k]) ensures Normalized(Obj(Into(Copy(Get(m, k)), f[k]))) {
        CopyNormalized(Get(m, k));
        IntoNormalized(Copy(Get(m, k)), f[k]);
      }
    case _ =>
  }

  lemma {:induction false} MergeNormalized(args: seq<Value>)
    ensures Normalized(Obj(MergeAll(args)))
  {
    if args != [] {
      MergeNormalized(args[..|args| - 1]);
      IntoNormalized(MergeAll(args[..|args| - 1]), args[|args| - 1]);
    }
  }

  /** Copying a normalized object gives back the same properties. */
  lemma {:induction false} CopyNormalizedIsIdentity(v: Value)
    requires Normalized(v)
    ensures Copy(v) == Enum(v)
  {
    match v
    case Obj(m) =>
      forall k | k in m && IsObject(m[k]) ensures Obj(Copy(m[k])) == m[k] {
        CopyNormalizedIsIdentity(m[k]);
      }
    case _ =>
  }

  /** Merging a normalized object with arguments that contribute no
      properties (`{}`, `undefined`, a number) gives the same object back. */
  lemma {:induction false} MergeWithNothing(o: map<string, Value>, extra: Value)
    requires Normalized(Obj(o)) && Enum(extra) == map[]
    ensures MergeAll([Obj(o), extra]) == o
  {
    assert [Obj(o), extra][..1] == [Obj(o)];
    assert [Obj(o)][..0] == [];
    IntoNothingIsCopy(Obj(o));
    CopyNormalizedIsIdentity(Obj(o));
    assert MergeAll([Obj(o)]) == Into(map[], Obj(o)) == o;
    assert Into(o, extra) == o;
  }

  /** A nested property the later argument does not mention survives the
      merge: where both arguments hold objects under `k`, the result keeps
      the first one's `k2`. */
  lemma NestedSurvives(o: map<string, Value>, extra: Value, k: string, k2: string)
    requires Normalized(Obj(o)) && k in o && o[k].Obj? && k2 in o[k].fields
    requires k in Enum(extra) ==> IsObject(Enum(extra)[k]) && k2 !in Enum(Enum(extra)[k])
    ensures k in MergeAll([Obj(o), extra]) && MergeAll([Obj(o), extra])[k].Obj?
    ensures k2 in MergeAll([Obj(o), extra])[k].fields
    ensures MergeAll([Obj(o), extra])[k].fields[k2] == o[k].fields[k2]
  {
    MergeWithNothing(o, Undefined);
    assert [Obj(o), Undefined][..1] == [Obj(o), extra][..1];
    assert MergeAll([Obj(o), extra]) == Into(o, extra);
    if k in Enum(extra) {
      var f := extra.fields;
      CopyNormalizedIsIdentity(o[k]);
      assert Into(o, extra)[k] == Visit(o, f, k) == Obj(Into(o[k].fields, f[k]));
    }
  }

  /** A nested property the later argument sets to a non-object value
      takes that value, whichever the first argument held. */
  lemma NestedOverrides(o: map<string, Value>, extra: Value, k: string, k2: string)
    requires Normalized(Obj(o)) && k in o && o[k].Obj?
    requires k in Enum(extra) && Enum(extra)[k].Obj?
    requires k2 in Enum(extra)[k].fields && !IsObject(Enum(extra)[k].fields[k2])
    ensures k in MergeAll([Obj(o), extra]) && MergeAll([Obj(o), extra])[k].Obj?
    ensures k2 in MergeAll([Obj(o), extra])[k].fields
    ensures MergeAll([Obj(o), extra])[k].fields[k2] == Enum(extra)[k].fields[k2]
  {
    MergeWithNothing(o, Undefined);
    assert [Obj(o), Undefined][..1] == [Obj(o), extra][..1];
    assert MergeAll([Obj(o), extra]) == Into(o, extra);
    var f := extra.fields;
    var g := f[k].fields;
    assert Into(o, extra)[k] == Visit(o, f, k) == Obj(Into(Copy(o[k]), f[k]));
    assert Into(Copy(o[k]), f[k])[k2] == Visit(Copy(o[k]), g, k2) == g[k2];
  }

  /** The documented example: `merge({a:1}, {b:1}, {f: new f()})`, where the
      constructed object has a string `property` and a function `method`,
      gives `{a:1, b:1, f:{property, method}}`. */
  lemma DocumentedExample()
    ensures
      var f := Obj(map["property" := Str("property"), "method" := Fn("method")]);
      MergeAll([Obj(map["a" := Num(1)]), Obj(map["b" := Num(1)]), Obj(map["f" := f])])
        == map["a" := Num(1), "b" := Num(1), "f" := f]
  {
    var f := Obj(map["property" := Str("property"), "method" := Fn("method")]);
    var a, b := Obj(map["a" := Num(1)]), Obj(map["b" := Num(1)]);
    var args := [a, b, Obj(map["f" := f])];
    assert args[..2] == [a, b];
    ExampleFirstTwo();
    ExampleNested(f);
    assert Visit(MergeAll([a, b]), map["f" := f], "f") == f;
  }

  lemma ExampleFirstTwo()
    ensures MergeAll([Obj(map["a" := Num(1)]), Obj(map["b" := Num(1)])])
            == map["a" := Num(1), "b" := Num(1)]
  {
    var a, b := Obj(map["a" := Num(1)]), Obj(map["b" := Num(1)]);
    assert [a, b][..1] == [a] && [a][..0] == [];
    assert MergeAll([a]) == Into(map[], a) == map["a" := Num(1)];
  }

  lemma ExampleNested(f: Value)
    requires f == Obj(map["property" := Str("property"), "method" := Fn("method")])
    ensures Into(map[], f) == f.fields
  {
  }
}
