/**
 * A JavaScript `Set` as the bot uses it: membership plus insertion order,
 * which `Array.from(set)` and `for (const x of set)` expose.
 */
module OrderedSets {

  predicate Distinct<T(==)>(xs: seq<T>) {
    forall i, j :: 0 <= i < j < |xs| ==> xs[i] != xs[j]
  }

  /** `set.add(x)`. */
  function Add<T(==,!new)>(xs: seq<T>, x: T): (r: seq<T>)
    ensures Distinct(xs) ==> Distinct(r)
    ensures forall y :: y in r <==> y in xs || y == x
    ensures xs <= r
  {
    if x in xs then xs else xs + [x]
  }

  /** `items.forEach(x => set.add(x))`. */
  function AddAll<T(==,!new)>(xs: seq<T>, items: seq<T>): (r: seq<T>)
    ensures Distinct(xs) ==> Distinct(r)
    ensures forall y :: y in r <==> y in xs || y in items
    ensures xs <= r
    decreases |items|
  {
    if |items| == 0 then xs
    else
      var r := AddAll(Add(xs, items[0]), items[1..]);
      assert forall y :: y in items <==> y == items[0] || y in items[1..];
      r
  }

  /** Where `x` first occurs in `xs`. */
  function FirstIndex<T(==)>(xs: seq<T>, x: T): (i: nat)
    requires x in xs
    ensures i < |xs| && xs[i] == x && x !in xs[..i]
  {
    if xs[0] == x then 0
    else
      assert x in xs[1..];
      var i := 1 + FirstIndex(xs[1..], x);
      assert xs[..i] == [xs[0]] + xs[1..][..i - 1];
      i
  }

  /** `ys` holds elements of `items`, ordered by where each first occurs there. */
  predicate FirstSeenOrder<T(==)>(ys: seq<T>, items: seq<T>) {
    && (forall i :: 0 <= i < |ys| ==> ys[i] in items)
    && forall i, j :: 0 <= i < j < |ys| && ys[i] in items && ys[j] in items ==>
      FirstIndex(items, ys[i]) < FirstIndex(items, ys[j])
  }

  /** Every element of `items` missing from `ys` first occurs after every element of `ys` does. */
  predicate KeepsEarliest<T(==)>(ys: seq<T>, items: seq<T>) {
    forall x, i :: x in items && x !in ys && 0 <= i < |ys| && ys[i] in items ==>
      FirstIndex(items, ys[i]) < FirstIndex(items, x)
  }

  lemma FirstIndexTail<T>(items: seq<T>, y: T)
    requires y in items && |items| > 0 && y != items[0]
    ensures y in items[1..] && FirstIndex(items, y) == 1 + FirstIndex(items[1..], y)
  {
  }

  /** What `set.add` appends is new: past the old entries nothing repeats one of them. */
  lemma AppendedAreNew<T>(xs: seq<T>, r: seq<T>)
    requires Distinct(r) && xs <= r
    ensures forall i :: |xs| <= i < |r| ==> r[i] !in xs
  {
  }

  /** Elements other than the head of `items` keep their relative order when the head is dropped. */
  lemma OrderPastHead<T>(ys: seq<T>, items: seq<T>)
    requires |items| > 0 && FirstSeenOrder(ys, items[1..])
    requires forall i :: 0 <= i < |ys| ==> ys[i] != items[0]
    ensures FirstSeenOrder(ys, items)
  {
    forall i | 0 <= i < |ys|
      ensures ys[i] in items && FirstIndex(items, ys[i]) == 1 + FirstIndex(items[1..], ys[i])
    {
      FirstIndexTail(items, ys[i]);
    }
  }

  /** The head of `items` comes before everything else seen in it. */
  lemma OrderWithHead<T>(ys: seq<T>, items: seq<T>)
    requires |items| > 0 && FirstSeenOrder(ys, items)
    requires forall i :: 0 <= i < |ys| ==> ys[i] != items[0]
    ensures FirstSeenOrder([items[0]] + ys, items)
  {
    var zs := [items[0]] + ys;
    assert FirstIndex(items, items[0]) == 0;
    forall i, j | 0 <= i < j < |zs| && zs[i] in items && zs[j] in items
      ensures FirstIndex(items, zs[i]) < FirstIndex(items, zs[j])
    {
      if i > 0 {
        assert zs[i] == ys[i - 1] && zs[j] == ys[j - 1];
      } else {
        assert zs[j] == ys[j - 1];
      }
    }
  }

  /**
   * Adding `items` one by one appends the new ones in the order they are
   * first seen in `items`.
   */
  lemma {:induction false} AddAllOrder<T(!new)>(xs: seq<T>, items: seq<T>)
    requires Distinct(xs)
    ensures FirstSeenOrder(AddAll(xs, items)[|xs|..], items)
    decreases |items|
  {
    if |items| == 0 {
      assert AddAll(xs, items)[|xs|..] == [];
    } else {
      var xs1 := Add(xs, items[0]);
      var r := AddAll(xs1, items[1..]);
      AddAllOrder(xs1, items[1..]);
      assert AddAll(xs, items) == r;
      AppendedPastHead(xs1, r, items);
      if items[0] !in xs {
        AppendedWithHead(xs, r, items);
      }
    }
  }

  /** Entries appended after the head of `items` was already present keep their order against all of `items`. */
  lemma AppendedPastHead<T>(xs1: seq<T>, r: seq<T>, items: seq<T>)
    requires |items| > 0 && items[0] in xs1 && xs1 <= r && Distinct(r)
    requires FirstSeenOrder(r[|xs1|..], items[1..])
    ensures FirstSeenOrder(r[|xs1|..], items)
    ensures forall i :: |xs1| <= i < |r| ==> r[i] != items[0]
  {
    var n1 := r[|xs1|..];
    AppendedAreNew(xs1, r);
    assert forall i :: 0 <= i < |n1| ==> n1[i] == r[|xs1| + i];
    OrderPastHead(n1, items);
  }

  /** When the head of `items` is what was appended first, it leads the order. */
  lemma AppendedWithHead<T>(xs: seq<T>, r: seq<T>, items: seq<T>)
    requires |items| > 0 && xs + [items[0]] <= r
    requires FirstSeenOrder(r[|xs| + 1..], items)
    requires forall i :: |xs| + 1 <= i < |r| ==> r[i] != items[0]
    ensures FirstSeenOrder(r[|xs|..], items)
  {
    var n1 := r[|xs| + 1..];
    assert r[|xs|] == items[0];
    assert r[|xs|..] == [items[0]] + n1;
    OrderWithHead(n1, items);
  }

  /** Adding two lists in turn is adding their concatenation. */
  lemma {:induction false} AddAllConcat<T(!new)>(xs: seq<T>, a: seq<T>, b: seq<T>)
    ensures AddAll(AddAll(xs, a), b) == AddAll(xs, a + b)
    decreases |a|
  {
    if |a| > 0 {
      assert (a + b)[0] == a[0] && (a + b)[1..] == a[1..] + b;
      AddAllConcat(Add(xs, a[0]), a[1..], b);
    } else {
      assert a + b == b;
    }
  }

  /**
   * The first entries of a set built from `items`, as `Array.from(set).slice`
   * takes them: the earliest-seen elements, in the order first seen.
   */
  lemma EarliestPrefix<T(!new)>(items: seq<T>, ys: seq<T>)
    requires ys <= AddAll([], items)
    ensures FirstSeenOrder(ys, items)
    ensures KeepsEarliest(ys, items)
  {
    var all := AddAll([], items);
    AddAllOrder([], items);
    assert all[0..] == all;
    PrefixKeepsEarliest(all, ys, items);
  }

  /** A prefix of a list that holds all of `items` in first-seen order keeps the earliest of them. */
  lemma PrefixKeepsEarliest<T>(all: seq<T>, ys: seq<T>, items: seq<T>)
    requires FirstSeenOrder(all, items) && ys <= all
    requires forall x :: x in items ==> x in all
    ensures FirstSeenOrder(ys, items)
    ensures KeepsEarliest(ys, items)
  {
    assert forall i :: 0 <= i < |ys| ==> ys[i] == all[i];
    forall x, i | x in items && x !in ys && 0 <= i < |ys| && ys[i] in items
      ensures FirstIndex(items, ys[i]) < FirstIndex(items, x)
    {
      var m :| 0 <= m < |all| && all[m] == x;
      assert m >= |ys|;
    }
  }
}
