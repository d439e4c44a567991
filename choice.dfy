/** `RTools.Choice(array, num, mode)`, the same code in randomizeme.js and
    index.js: shuffle the index list of `array` in place with a forward
    Fisher-Yates pass, then return the first index (or element) or a prefix
    of the indices (or the elements at them). `Math.random()` is replaced by
    the draws `j` it leads to, `draws[i] = Math.floor(Math.random() * (i + 1))`,
    which the caller supplies. */
module Choice {
  import opened JsValues

  /** The first argument as `Choice` tells it apart: an array (its elements),
      `null` or `undefined`, or any other value (which has no keys). */
  datatype Sequence<V> = Array(items: seq<V>) | Nullish | NotArray

  /** What `Choice` returns. `Index(None)` and `Element(None)` are
      `undefined`; `TypeError` is the exception `array[keys[0]]` throws when
      `array` is `null` or `undefined`. */
  datatype Picked<V> =
    | Index(index: Option<nat>)
    | Indices(indices: seq<nat>)
    | Element(element: Option<V>)
    | Elements(elements: seq<V>)
    | TypeError

  /** `Object.keys(array).length` for an array, 0 for anything else. */
  function KeyCount<V>(arr: Sequence<V>): (n: nat)
    ensures n > 0 ==> arr.Array?
    ensures arr.Array? ==> n == |arr.items|
  {
    if arr.Array? then |arr.items| else 0
  }

  /** `(num && typeof num === 'number') ? +num : 1` */
  function Count(num: Value): (c: int)
    ensures c != 0
    ensures c != 1 ==> num == Num(c)
    ensures num.Num? && num.n != 0 ==> c == num.n
    ensures !num.Num? ==> c == 1
  {
    if num.Num? && num.n != 0 then num.n else 1
  }

  /** `(mode && typeof mode === 'boolean') ? mode : false` */
  function ValueMode(mode: Value): (values: bool)
    ensures values ==> mode.Bool?
    ensures mode.Bool? ==> values == mode.b
  {
    mode == Bool(true)
  }

  /** The length of `keys.slice(0, end)` for `keys.length == len`: a
      negative end counts back from the end of the list. */
  function SliceEnd(len: nat, end: int): (r: nat)
    ensures r <= len
    ensures 0 <= end ==> r == if end < len then end else len
  {
    if end < 0 then (if len + end < 0 then 0 else len + end)
    else if end < len then end else len
  }

  /** Step `i` of the shuffle may pick any `j` with `0 <= j <= i`. */
  predicate ValidDraws(draws: seq<nat>) {
    forall i :: 0 <= i < |draws| ==> draws[i] <= i
  }

  /** `[0, 1, ..., n - 1]`, the index list of an `n`-element array. */
  function Iota(n: nat): (r: seq<nat>)
    ensures |r| == n && forall i :: 0 <= i < n ==> r[i] == i
  {
    seq(n, i => i)
  }

  lemma IotaSnoc(n: nat)
    ensures Iota(n + 1) == Iota(n) + [n]
    ensures multiset(Iota(n + 1)) == multiset(Iota(n)) + multiset{n}
    ensures multiset(Iota(n)) == multiset(Iota(n + 1)) - multiset{n}
  {
    assert Iota(n + 1) == Iota(n) + [n];
  }

  /** `s` with positions `a` and `b` exchanged. */
  function Swap(s: seq<nat>, a: nat, b: nat): (r: seq<nat>)
    requires a < |s| && b < |s|
    ensures |r| == |s|
  {
    s[a := s[b]][b := s[a]]
  }

  /** The index list after the shuffle loop has run `|draws|` steps, each
      swapping `keys[i]` (still `i` at that point) with `keys[draws[i]]`.
      Every entry stays an index of the array. */
  function Shuffled(draws: seq<nat>): (keys: seq<nat>)
    requires ValidDraws(draws)
    ensures |keys| == |draws|
    ensures forall t :: 0 <= t < |keys| ==> keys[t] < |draws|
    decreases |draws|
  {
    if draws == [] then []
    else
      var n := |draws| - 1;
      Swap(Shuffled(draws[..n]) + [n], n, draws[n])
  }

  /** The shuffle loop of `Choice`, on the index list `keys` it has just
      built with `Object.keys`. */
  method Shuffle(keys: array<nat>, draws: seq<nat>)
    requires keys[..] == Iota(keys.Length)
    requires |draws| == keys.Length && ValidDraws(draws)
    modifies keys
    ensures keys[..] == Shuffled(draws)
  {
    var n := keys.Length;
    var i := 0;
    while i < n
      invariant 0 <= i <= n
      invariant keys[..i] == Shuffled(draws[..i])
      invariant forall k :: i <= k < n ==> keys[k] == k
    {
      var j := draws[i];
      ghost var before := keys[..i + 1];
      assert before == Shuffled(draws[..i]) + [i];
      var tmp := keys[j];
      keys[j] := keys[i];
      keys[i] := tmp;
      assert keys[..i + 1] == Swap(before, i, j);
      ShuffledStep(draws, i);
      i := i + 1;
    }
    assert draws[..n] == draws && keys[..] == keys[..n];
  }

  /** `for (key of chosen) tmp.push(items[key])`: the elements at the chosen
      indices, in order. */
  method ElementsAt<V>(items: seq<V>, chosen: seq<nat>) returns (values: seq<V>)
    requires forall t :: 0 <= t < |chosen| ==> chosen[t] < |items|
    ensures |values| == |chosen|
    ensures forall t :: 0 <= t < |chosen| ==> values[t] == items[chosen[t]]
  {
    values := [];
    var rest := chosen;
    while |rest| > 0
      invariant |rest| <= |chosen| && rest == chosen[|chosen| - |rest|..]
      invariant |values| == |chosen| - |rest|
      invariant forall t :: 0 <= t < |values| ==> values[t] == items[chosen[t]]
    {
      values := values + [items[rest[0]]];
      rest := rest[1..];
    }
  }

  /** `Choice(array, num, mode)` with the shuffle's random draws given.
      The `switch` on the count compares a number with booleans and never
      changes it, so a count of 0 cannot arise (0 is falsy) but a negative
      count can, and `slice(0, count)` then drops elements from the end. */
  method Choice<V>(arr: Sequence<V>, num: Value, mode: Value, draws: seq<nat>) returns (picked: Picked<V>)
    requires |draws| == KeyCount(arr) && ValidDraws(draws)
    ensures var keys, c := Shuffled(draws), Count(num);
      && (!ValueMode(mode) && c == 1 ==> picked == Index(if keys != [] then Some(keys[0]) else None))
      && (!ValueMode(mode) && c != 1 ==> picked == Indices(keys[..SliceEnd(|keys|, c)]))
      && (ValueMode(mode) && c == 1 ==>
            picked == if arr.Nullish? then TypeError
                      else Element(if keys != [] then Some(arr.items[keys[0]]) else None))
      && (ValueMode(mode) && c != 1 ==>
            && picked.Elements?
            && |picked.elements| == SliceEnd(|keys|, c)
            && forall t :: 0 <= t < |picked.elements| ==> picked.elements[t] == arr.items[keys[t]])
  {
    var valueMode := ValueMode(mode);
    var count := Count(num);
    var n := KeyCount(arr);
    var keys := new nat[n](i => i);

    if StrictEquals(Num(count), Bool(false)) || StrictEquals(Num(count), Bool(count < 1)) {
      count := 1;
    } else if StrictEquals(Num(count), Bool(count > n)) {
      count := n;
    }
    assert count == Count(num);

    Shuffle(keys, draws);

    if !valueMode {
      if count == 1 {
        picked := Index(if n > 0 then Some(keys[0]) else None);
      } else {
        picked := Indices(keys[..SliceEnd(n, count)]);
      }
    } else if count == 1 {
      if arr.Nullish? {
        picked := TypeError;
      } else {
        picked := Element(if n > 0 then Some(arr.items[keys[0]]) else None);
      }
    } else {
      var values := ElementsAt(if arr.Array? then arr.items else [], keys[..SliceEnd(n, count)]);
      picked := Elements(values);
    }
  }

  lemma ShuffledStep(draws: seq<nat>, i: nat)
    requires ValidDraws(draws) && i < |draws|
    ensures Shuffled(draws[..i + 1]) == Swap(Shuffled(draws[..i]) + [i], i, draws[i])
  {
    assert draws[..i + 1][..i] == draws[..i];
  }

  /** The index `n - 1` added last ends at the position its own draw chose,
      and only there. */
  lemma {:induction false} LastIndexPosition(draws: seq<nat>)
    requires ValidDraws(draws) && draws != []
    ensures forall t :: 0 <= t < |draws| ==> (Shuffled(draws)[t] == |draws| - 1 <==> t == draws[|draws| - 1])
  {
  }

  /** The shuffle is a permutation of the index list: every index of the
      array occurs exactly once. */
  lemma {:induction false} ShuffledIsPermutation(draws: seq<nat>)
    requires ValidDraws(draws)
    ensures multiset(Shuffled(draws)) == multiset(Iota(|draws|))
  {
    if draws != [] {
      var n := |draws| - 1;
      ShuffledIsPermutation(draws[..n]);
      SwapPermutes(Shuffled(draws[..n]) + [n], n, draws[n]);
      IotaSnoc(n);
    }
  }

  lemma SwapPermutes(s: seq<nat>, a: nat, b: nat)
    requires a < |s| && b < |s|
    ensures multiset(Swap(s, a, b)) == multiset(s)
  {
    if a != b {
      var t := s[a := s[b]];
      assert multiset(t) == multiset(s) - multiset{s[a]} + multiset{s[b]};
      assert multiset(t[b := s[a]]) == multiset(t) - multiset{t[b]} + multiset{s[a]};
    }
  }

  /** No index occurs twice in the shuffled list. */
  lemma {:induction false} ShuffledDistinct(draws: seq<nat>)
    requires ValidDraws(draws)
    ensures forall a, b :: 0 <= a < b < |draws| ==> Shuffled(draws)[a] != Shuffled(draws)[b]
  {
    if draws != [] {
      var n := |draws| - 1;
      ShuffledDistinct(draws[..n]);
    }
  }

  lemma SwapTwice(s: seq<nat>, a: nat, b: nat)
    requires a < |s| && b < |s|
    ensures Swap(Swap(s, a, b), a, b) == s
  {
  }

  /** Undoing the last swap recovers the shuffle of the shorter draws. */
  lemma ShuffledUndo(draws: seq<nat>)
    requires ValidDraws(draws) && draws != []
    ensures Shuffled(draws[..|draws| - 1]) == Swap(Shuffled(draws), |draws| - 1, draws[|draws| - 1])[..|draws| - 1]
  {
    var n := |draws| - 1;
    SwapTwice(Shuffled(draws[..n]) + [n], n, draws[n]);
  }

  /** Different draws give different orders: a shuffled list determines the
      draws that produced it. */
  lemma {:induction false} ShuffleInjective(d1: seq<nat>, d2: seq<nat>)
    requires ValidDraws(d1) && ValidDraws(d2) && |d1| == |d2|
    requires Shuffled(d1) == Shuffled(d2)
    ensures d1 == d2
  {
    if d1 != [] {
      var n := |d1| - 1;
      PrefixValid(d1, n);
      PrefixValid(d2, n);
      LastDrawDetermined(d1, d2);
      PrefixDetermined(d1, d2);
      ShuffleInjective(d1[..n], d2[..n]);
      SplitLast(d1);
      SplitLast(d2);
    }
  }

  lemma SplitLast(d: seq<nat>)
    requires d != []
    ensures d == d[..|d| - 1] + [d[|d| - 1]]
  {
  }

  lemma PrefixDetermined(d1: seq<nat>, d2: seq<nat>)
    requires ValidDraws(d1) && ValidDraws(d2) && |d1| == |d2| && d1 != []
    requires Shuffled(d1) == Shuffled(d2) && d1[|d1| - 1] == d2[|d2| - 1]
    ensures Shuffled(d1[..|d1| - 1]) == Shuffled(d2[..|d2| - 1])
  {
    ShuffledUndo(d1);
    ShuffledUndo(d2);
  }

  lemma PrefixValid(d: seq<nat>, n: nat)
    requires ValidDraws(d) && n <= |d|
    ensures ValidDraws(d[..n])
  {
    forall i | 0 <= i < n ensures d[..n][i] <= i {
      assert d[..n][i] == d[i];
    }
  }

  lemma LastDrawDetermined(d1: seq<nat>, d2: seq<nat>)
    requires ValidDraws(d1) && ValidDraws(d2) && |d1| == |d2| && d1 != []
    requires Shuffled(d1) == Shuffled(d2)
    ensures d1[|d1| - 1] == d2[|d2| - 1]
  {
    var n := |d1| - 1;
    LastIndexPosition(d1);
    LastIndexPosition(d2);
    assert Shuffled(d1)[d1[n]] == n;
  }

  lemma ShuffledSnoc(d: seq<nat>, j: nat)
    requires ValidDraws(d) && j <= |d|
    ensures ValidDraws(d + [j])
    ensures Shuffled(d + [j]) == Swap(Shuffled(d) + [|d|], |d|, j)
  {
    var e := d + [j];
    assert ValidDraws(e) by {
      forall i | 0 <= i < |e| ensures e[i] <= i {
        if i < |d| {
          assert e[i] == d[i];
        }
      }
    }
    assert e[..|d|] == d;
    assert e[|d|] == j;
  }

  /** Every permutation of the index list is produced by some draws. With
      `ShuffleInjective`, each of the `n!` orders comes from exactly one of
      the `n!` equally likely draw sequences, so all orders are equally
      likely. */
  lemma {:induction false} ShuffleSurjective(p: seq<nat>)
    requires multiset(p) == multiset(Iota(|p|))
    ensures exists draws :: ValidDraws(draws) && |draws| == |p| && Shuffled(draws) == p
    decreases |p|
  {
    if p == [] {
      assert ValidDraws([]) && Shuffled([]) == p;
    } else {
      var n := |p| - 1;
      var j := LastIndexIn(p);
      var q := Swap(p, n, j);
      SwapPermutes(p, n, j);
      ShuffleSurjective(q[..n]);
      var d :| ValidDraws(d) && |d| == n && Shuffled(d) == q[..n];
      ShuffleExtend(p, d, j);
    }
  }

  lemma ShuffleExtend(p: seq<nat>, d: seq<nat>, j: nat)
    requires |p| == |d| + 1 && j < |p| && p[j] == |d|
    requires ValidDraws(d) && Shuffled(d) == Swap(p, |d|, j)[..|d|]
    ensures ValidDraws(d + [j]) && |d + [j]| == |p| && Shuffled(d + [j]) == p
  {
    var n := |d|;
    var q := Swap(p, n, j);
    ShuffledSnoc(d, j);
    assert q == q[..n] + [n];
    SwapTwice(p, n, j);
  }

  /** Where the largest index sits in a permutation of the index list, and
      what remains when it is swapped to the end. */
  lemma LastIndexIn(p: seq<nat>) returns (j: nat)
    requires p != [] && multiset(p) == multiset(Iota(|p|))
    ensures j < |p| && p[j] == |p| - 1
    ensures multiset(Swap(p, |p| - 1, j)[..|p| - 1]) == multiset(Iota(|p| - 1))
  {
    j := IndexOfLast(p);
    SwapLastToEnd(p, j);
  }

  lemma IndexOfLast(p: seq<nat>) returns (j: nat)
    requires p != [] && multiset(p) == multiset(Iota(|p|))
    ensures j < |p| && p[j] == |p| - 1
  {
    var n := |p| - 1;
    assert Iota(|p|)[n] == n;
    assert n in multiset(Iota(|p|));
    assert n in multiset(p);
    assert n in p;
    j :| 0 <= j < |p| && p[j] == n;
  }

  lemma SwapLastToEnd(p: seq<nat>, j: nat)
    requires p != [] && multiset(p) == multiset(Iota(|p|))
    requires j < |p| && p[j] == |p| - 1
    ensures multiset(Swap(p, |p| - 1, j)[..|p| - 1]) == multiset(Iota(|p| - 1))
  {
    var n := |p| - 1;
    IotaSnoc(n);
    SwapPermutes(p, n, j);
    SwapIn(p, n, j);
    DropLast(Swap(p, n, j), n);
  }

  /** The element at `b` moves to `a`. */
  lemma SwapIn(s: seq<nat>, a: nat, b: nat)
    requires a < |s| && b < |s|
    ensures Swap(s, a, b)[a] == s[b]
  {
  }

  /** Dropping a last element `n` from a list removes one `n` from its
      multiset. */
  lemma DropLast(q: seq<nat>, n: nat)
    requires |q| == n + 1 && q[n] == n
    ensures multiset(q[..n]) == multiset(q) - multiset{n}
  {
    assert q == q[..n] + [n];
  }

  /** The indices `Choice` returns in index mode are distinct indices of the
      array; in value mode the elements are taken at distinct indices. */
  lemma PickedIndicesDistinct(draws: seq<nat>, end: nat)
    requires ValidDraws(draws) && end <= |draws|
    ensures forall a, b :: 0 <= a < b < end ==> Shuffled(draws)[a] != Shuffled(draws)[b]
    ensures forall a :: 0 <= a < end ==> Shuffled(draws)[a] < |draws|
  {
    ShuffledDistinct(draws);
  }
}
