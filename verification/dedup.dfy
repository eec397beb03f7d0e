/** First-wins de-duplication by key, the pattern behind the `seen` sets
    of both extensions: items are taken in order, an item is skipped when
    it is not acceptable or when an earlier item already claimed its key. */
module Dedup {

  /** The keys the items of `xs` carry. */
  function KeysOf<T, K(==)>(xs: seq<T>, keyOf: T -> K): set<K> {
    set i | 0 <= i < |xs| :: keyOf(xs[i])
  }

  /** The items of `xs` that are acceptable and whose key neither `seen`
      nor an earlier kept item holds. */
  function FirstByKey<T(==), K(==)>(xs: seq<T>, ok: T -> bool, keyOf: T -> K, seen: set<K>): (r: seq<T>)
    ensures forall x :: x in r ==> x in xs && ok(x) && keyOf(x) !in seen
    ensures forall i, j :: 0 <= i < j < |r| ==> keyOf(r[i]) != keyOf(r[j])
    decreases |xs|
  {
    if xs == [] then []
    else if !ok(xs[0]) || keyOf(xs[0]) in seen then FirstByKey(xs[1..], ok, keyOf, seen)
    else [xs[0]] + FirstByKey(xs[1..], ok, keyOf, seen + {keyOf(xs[0])})
  }

  /** The first acceptable item with a key not in `seen` is always kept. */
  lemma {:induction false} FirstByKeyKeepsFirst<T, K>(xs: seq<T>, ok: T -> bool, keyOf: T -> K, seen: set<K>, i: nat)
    requires i < |xs| && ok(xs[i]) && keyOf(xs[i]) !in seen
    requires forall j :: 0 <= j < i && ok(xs[j]) ==> keyOf(xs[j]) != keyOf(xs[i])
    ensures xs[i] in FirstByKey(xs, ok, keyOf, seen)
    decreases |xs|
  {
    if i > 0 {
      var seen' := if !ok(xs[0]) || keyOf(xs[0]) in seen then seen else seen + {keyOf(xs[0])};
      assert forall j :: 0 <= j < i - 1 ==> xs[1..][j] == xs[j + 1];
      FirstByKeyKeepsFirst(xs[1..], ok, keyOf, seen', i - 1);
    }
  }

  /** Every acceptable item is represented: its key was already seen, or a
      kept item carries it. */
  lemma {:induction false} FirstByKeyCovers<T, K>(xs: seq<T>, ok: T -> bool, keyOf: T -> K, seen: set<K>)
    ensures forall i :: 0 <= i < |xs| && ok(xs[i]) ==>
              keyOf(xs[i]) in seen + KeysOf(FirstByKey(xs, ok, keyOf, seen), keyOf)
    decreases |xs|
  {
    if xs != [] {
      var r := FirstByKey(xs, ok, keyOf, seen);
      if !ok(xs[0]) || keyOf(xs[0]) in seen {
        FirstByKeyCovers(xs[1..], ok, keyOf, seen);
        assert forall i :: 1 <= i < |xs| ==> xs[i] == xs[1..][i - 1];
      } else {
        var seen' := seen + {keyOf(xs[0])};
        var rest := FirstByKey(xs[1..], ok, keyOf, seen');
        FirstByKeyCovers(xs[1..], ok, keyOf, seen');
        assert r == [xs[0]] + rest;
        KeysOfCons(xs[0], rest, keyOf);
        assert forall i :: 1 <= i < |xs| ==> xs[i] == xs[1..][i - 1];
      }
    }
  }

  lemma KeysOfCons<T, K>(x: T, xs: seq<T>, keyOf: T -> K)
    ensures KeysOf([x] + xs, keyOf) == {keyOf(x)} + KeysOf(xs, keyOf)
  {
    var r := [x] + xs;
    assert forall i :: 0 <= i < |xs| ==> xs[i] == r[i + 1];
    forall k | k in KeysOf(r, keyOf)
      ensures k in {keyOf(x)} + KeysOf(xs, keyOf)
    {
      var i :| 0 <= i < |r| && k == keyOf(r[i]);
      if i > 0 {
        assert r[i] == xs[i - 1];
      }
    }
    assert keyOf(r[0]) in KeysOf(r, keyOf);
  }

  /** De-duplicating a concatenation: the first part is de-duplicated on
      its own, and the second part can then only add keys the first did
      not claim. */
  lemma {:induction false} FirstByKeyAppend<T, K>(a: seq<T>, b: seq<T>, ok: T -> bool, keyOf: T -> K, seen: set<K>)
    ensures FirstByKey(a + b, ok, keyOf, seen)
            == FirstByKey(a, ok, keyOf, seen)
               + FirstByKey(b, ok, keyOf, seen + KeysOf(FirstByKey(a, ok, keyOf, seen), keyOf))
    decreases |a|
  {
    if a == [] {
      assert a + b == b;
      assert seen + KeysOf(FirstByKey(a, ok, keyOf, seen), keyOf) == seen;
    } else {
      assert (a + b)[0] == a[0];
      assert (a + b)[1..] == a[1..] + b;
      if !ok(a[0]) || keyOf(a[0]) in seen {
        FirstByKeyAppend(a[1..], b, ok, keyOf, seen);
      } else {
        var seen' := seen + {keyOf(a[0])};
        FirstByKeyAppend(a[1..], b, ok, keyOf, seen');
        var rest := FirstByKey(a[1..], ok, keyOf, seen');
        KeysOfCons(a[0], rest, keyOf);
        var r := [a[0]] + rest;
        assert seen' + KeysOf(rest, keyOf) == seen + KeysOf(r, keyOf);
      }
    }
  }

  /** The keys kept are exactly the unseen keys of acceptable items. */
  lemma FirstByKeyKeys<T, K>(xs: seq<T>, ok: T -> bool, keyOf: T -> K, seen: set<K>, k: K)
    ensures k in KeysOf(FirstByKey(xs, ok, keyOf, seen), keyOf)
            <==> k !in seen && exists i :: 0 <= i < |xs| && ok(xs[i]) && keyOf(xs[i]) == k
  {
    var r := FirstByKey(xs, ok, keyOf, seen);
    FirstByKeyCovers(xs, ok, keyOf, seen);
    if k in KeysOf(r, keyOf) {
      var j :| 0 <= j < |r| && keyOf(r[j]) == k;
      assert r[j] in r;
      var i :| 0 <= i < |xs| && xs[i] == r[j];
    }
  }

  /** Items that are all acceptable, carry pairwise distinct keys and none
      of the seen ones are all kept, in order. */
  lemma {:induction false} FirstByKeyFresh<T, K>(xs: seq<T>, ok: T -> bool, keyOf: T -> K, seen: set<K>)
    requires forall i :: 0 <= i < |xs| ==> ok(xs[i]) && keyOf(xs[i]) !in seen
    requires forall i, j :: 0 <= i < j < |xs| ==> keyOf(xs[i]) != keyOf(xs[j])
    ensures FirstByKey(xs, ok, keyOf, seen) == xs
    decreases |xs|
  {
    if xs != [] {
      assert forall i :: 0 <= i < |xs[1..]| ==> xs[1..][i] == xs[i + 1];
      FirstByKeyFresh(xs[1..], ok, keyOf, seen + {keyOf(xs[0])});
    }
  }
}
