/** The query and form items of a request are a Qt `QVariantMap` filled with
    `insertMulti`, so a name may occur several times. The model keeps the
    pairs in insertion order. Qt answers `value(name)` with the most recently
    inserted value and `values(name)` from the most recent to the oldest;
    `unite` inserts every pair of its argument after the existing ones. */
module MultiMap {

  type Item = (string, string)

  /** `contains(name)`. */
  predicate Contains(items: seq<Item>, name: string)
  {
    exists i :: 0 <= i < |items| && items[i].0 == name
  }

  /** `value(name)`: the most recently inserted value, or the empty string. */
  function Value(items: seq<Item>, name: string): (v: string)
    ensures !Contains(items, name) ==> v == ""
  {
    if |items| == 0 then ""
    else if items[|items| - 1].0 == name then items[|items| - 1].1
    else Value(items[..|items| - 1], name)
  }

  /** `value(name, defaultValue)`. */
  function ValueOr(items: seq<Item>, name: string, default: string): (v: string)
    ensures v == if Values(items, name) == [] then default else Values(items, name)[0]
  {
    ValuesOfName(items, name);
    if Contains(items, name) then Value(items, name) else default
  }

  /** `values(name)`: all values of `name`, most recent first. */
  function Values(items: seq<Item>, name: string): (vs: seq<string>)
    ensures |vs| <= |items|
    ensures forall x :: x in vs ==> (name, x) in items
  {
    if |items| == 0 then []
    else
      var rest := Values(items[..|items| - 1], name);
      if items[|items| - 1].0 == name then [items[|items| - 1].1] + rest else rest
  }

  /** The number of pairs named `name`, counted from the front. */
  function Count(items: seq<Item>, name: string): nat
  {
    if |items| == 0 then 0
    else (if items[0].0 == name then 1 else 0) + Count(items[1..], name)
  }

  /** `unite(other)`: every pair of `other` inserted after the existing ones. */
  function Unite(items: seq<Item>, other: seq<Item>): (r: seq<Item>)
    ensures |r| == |items| + |other|
    ensures r[..|items|] == items && r[|items|..] == other
  {
    items + other
  }

  lemma {:induction false} CountAppend(a: seq<Item>, b: seq<Item>, name: string)
    ensures Count(a + b, name) == Count(a, name) + Count(b, name)
    decreases |a|
  {
    if |a| > 0 {
      CountAppend(a[1..], b, name);
      assert (a + b)[1..] == a[1..] + b;
    } else {
      assert a + b == b;
    }
  }

  /** `values(name)` has one entry per pair named `name`; it is empty exactly
      when the name is absent, and it starts with `value(name)`. */
  lemma {:induction false} ValuesOfName(items: seq<Item>, name: string)
    ensures |Values(items, name)| == Count(items, name)
    ensures Contains(items, name) <==> Values(items, name) != []
    ensures Contains(items, name) ==> Value(items, name) == Values(items, name)[0]
    decreases |items|
  {
    if |items| > 0 {
      var init := items[..|items| - 1];
      var last := items[|items| - 1];
      ValuesOfName(init, name);
      CountAppend(init, [last], name);
      assert init + [last] == items;
      assert Count([last], name) == if last.0 == name then 1 else 0;
      if Contains(items, name) && last.0 != name {
        var i :| 0 <= i < |items| && items[i].0 == name;
        assert init[i].0 == name;
      }
      if Contains(init, name) {
        var i :| 0 <= i < |init| && init[i].0 == name;
        assert items[i].0 == name;
      }
    }
  }

  /** Some pair `(name, v)` is followed by exactly `later` more pairs named
      `name`. */
  predicate InsertedBefore(items: seq<Item>, name: string, v: string, later: nat)
  {
    exists i :: 0 <= i < |items| && items[i] == (name, v) && Count(items[i + 1..], name) == later
  }

  /** The `j`-th entry of `values(name)` is the value of the pair named
      `name` that is followed by exactly `j` more pairs of that name: the list
      runs from the most recent insertion to the oldest. */
  lemma {:induction false} ValuesAt(items: seq<Item>, name: string, j: nat)
    requires j < |Values(items, name)|
    ensures InsertedBefore(items, name, Values(items, name)[j], j)
    decreases |items|
  {
    var n := |items| - 1;
    var init, last := items[..n], items[n];
    assert items == init + [last];
    var v := Values(items, name)[j];
    if last.0 == name && j == 0 {
      assert items[n + 1..] == [];
      assert items[n] == (name, v) && Count(items[n + 1..], name) == 0;
    } else {
      var k := if last.0 == name then j - 1 else j;
      assert v == Values(init, name)[k];
      ValuesAt(init, name, k);
      InsertedBeforeExtend(init, last, name, v, k);
    }
  }

  /** Appending a pair keeps every earlier pair, now followed by one more
      pair of `name` when the new pair has that name. */
  lemma InsertedBeforeExtend(init: seq<Item>, last: Item, name: string, v: string, k: nat)
    requires InsertedBefore(init, name, v, k)
    ensures InsertedBefore(init + [last], name, v, k + if last.0 == name then 1 else 0)
  {
    var items := init + [last];
    var i :| 0 <= i < |init| && init[i] == (name, v) && Count(init[i + 1..], name) == k;
    assert items[i + 1..] == init[i + 1..] + [last];
    CountAppend(init[i + 1..], [last], name);
    assert Count([last], name) == if last.0 == name then 1 else 0;
    assert items[i] == (name, v);
  }

  /** `ValuesAt` for every entry of `values(name)`. */
  lemma ValuesInOrder(items: seq<Item>, name: string)
    ensures forall j :: 0 <= j < |Values(items, name)| ==> InsertedBefore(items, name, Values(items, name)[j], j)
  {
    forall j | 0 <= j < |Values(items, name)| {
      ValuesAt(items, name, j);
    }
  }

  /** `value(name)` is the value of the last pair named `name`. */
  lemma {:induction false} ValueIsLatest(items: seq<Item>, name: string)
    requires Contains(items, name)
    ensures exists i ::
      && 0 <= i < |items| && items[i] == (name, Value(items, name))
      && forall j :: i < j < |items| ==> items[j].0 != name
    decreases |items|
  {
    var n := |items| - 1;
    if items[n].0 == name {
      assert items[n] == (name, Value(items, name));
    } else {
      var init := items[..n];
      var k :| 0 <= k < |items| && items[k].0 == name;
      assert init[k].0 == name;
      ValueIsLatest(init, name);
      var i :|
        && 0 <= i < |init| && init[i] == (name, Value(init, name))
        && forall j :: i < j < |init| ==> init[j].0 != name;
      assert items[i] == init[i];
      assert forall j :: i < j < |items| ==> items[j].0 != name by {
        forall j | i < j < |items| ensures items[j].0 != name {
          if j < n { assert items[j] == init[j]; }
        }
      }
    }
  }

  /** A name occurs in a non-empty list when it names the last pair or
      occurs before it. */
  lemma ContainsLast(items: seq<Item>, name: string)
    requires |items| > 0
    ensures Contains(items, name)
      <==> items[|items| - 1].0 == name || Contains(items[..|items| - 1], name)
  {
    var init := items[..|items| - 1];
    if Contains(init, name) {
      var k :| 0 <= k < |init| && init[k].0 == name;
      assert items[k].0 == name;
    }
    if Contains(items, name) && items[|items| - 1].0 != name {
      var k :| 0 <= k < |items| && items[k].0 == name;
      assert init[k].0 == name;
    }
  }

  /** After `unite`, a name occurs when it occurs in either part. */
  lemma UniteContains(items: seq<Item>, other: seq<Item>, name: string)
    ensures Contains(Unite(items, other), name) <==> Contains(items, name) || Contains(other, name)
  {
    var u := Unite(items, other);
    if Contains(u, name) && !Contains(items, name) {
      var k :| 0 <= k < |u| && u[k].0 == name;
      assert other[k - |items|].0 == name;
    }
    if Contains(items, name) {
      var k :| 0 <= k < |items| && items[k].0 == name;
      assert u[k].0 == name;
    }
    if Contains(other, name) {
      var k :| 0 <= k < |other| && other[k].0 == name;
      assert u[|items| + k].0 == name;
    }
  }

  /** After `unite`, a name of `other` answers with `other`'s value, and any
      other name keeps the value it had. */
  lemma {:induction false} UniteValue(items: seq<Item>, other: seq<Item>, name: string)
    ensures Value(Unite(items, other), name)
      == if Contains(other, name) then Value(other, name) else Value(items, name)
    decreases |other|
  {
    var u := Unite(items, other);
    if |other| == 0 {
      assert u == items;
      assert !Contains(other, name);
    } else {
      var n := |other| - 1;
      var init := other[..n];
      assert u[..|u| - 1] == Unite(items, init);
      ContainsLast(other, name);
      UniteValue(items, init, name);
    }
  }

  /** After `unite`, `values(name)` lists `other`'s values before the old ones. */
  lemma {:induction false} UniteValues(items: seq<Item>, other: seq<Item>, name: string)
    ensures Values(Unite(items, other), name) == Values(other, name) + Values(items, name)
    decreases |other|
  {
    var u := Unite(items, other);
    if |other| == 0 {
      assert u == items;
    } else {
      var n := |other| - 1;
      assert u[..|u| - 1] == Unite(items, other[..n]);
      UniteValues(items, other[..n], name);
    }
  }

  /** After `unite`, every name lists `other`'s values before the old ones. */
  lemma UniteValuesAll(items: seq<Item>, other: seq<Item>)
    ensures forall name :: Values(Unite(items, other), name) == Values(other, name) + Values(items, name)
  {
    forall name
      ensures Values(Unite(items, other), name) == Values(other, name) + Values(items, name)
    {
      UniteValues(items, other, name);
    }
  }
}
