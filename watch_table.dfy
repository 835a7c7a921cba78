/** The value of the watch table: filename -> watermark (the number of lines
    already examined), together with the order in which the keys were
    inserted, which is the order in which a Python dictionary iterates. */
module WatchTable {

  /** No element of `s` occurs twice. */
  predicate Distinct(s: seq<string>) {
    s == [] || (s[0] !in s[1..] && Distinct(s[1..]))
  }

  lemma {:induction false} DistinctAppend(s: seq<string>, x: string)
    ensures Distinct(s) && x !in s ==> Distinct(s + [x])
  {
    if s != [] && Distinct(s) && x !in s {
      assert (s + [x])[1..] == s[1..] + [x];
      DistinctAppend(s[1..], x);
    }
  }

  /** Dropping the last element of a distinct sequence leaves it distinct,
      and the last element occurs nowhere before. */
  lemma {:induction false} DistinctInit(s: seq<string>)
    requires Distinct(s) && s != []
    ensures Distinct(s[..|s| - 1]) && s[|s| - 1] !in s[..|s| - 1]
  {
    if |s| > 1 {
      DistinctInit(s[1..]);
      assert s[1..][..|s| - 2] == s[..|s| - 1][1..];
      assert s[..|s| - 1] == [s[0]] + s[1..][..|s| - 2];
    }
  }

  /** Every prefix of a distinct sequence is distinct, and the element after
      it does not occur in it. */
  lemma {:induction false} DistinctPrefix(s: seq<string>, i: nat)
    requires Distinct(s) && i <= |s|
    ensures Distinct(s[..i]) && (i < |s| ==> s[i] !in s[..i])
    decreases |s| - i
  {
    if i == |s| {
      assert s[..i] == s;
    } else {
      DistinctInit(s);
      var init := s[..|s| - 1];
      if i < |s| - 1 {
        DistinctPrefix(init, i);
        assert init[..i] == s[..i] && init[i] == s[i];
      } else {
        assert init == s[..i];
      }
    }
  }

  /** `s` with every occurrence of `k` taken out, the rest in order. */
  function Without(s: seq<string>, k: string): (r: seq<string>)
    ensures forall x :: x in r <==> x in s && x != k
    ensures Distinct(s) ==> Distinct(r)
    ensures k !in s ==> r == s
  {
    if s == [] then []
    else
      var rest := Without(s[1..], k);
      if s[0] == k then rest
      else
        assert [s[0]] + rest == [s[0]] + rest && ([s[0]] + rest)[1..] == rest;
        [s[0]] + rest
  }

  lemma ConsAppend(a: seq<string>, b: seq<string>)
    requires a != []
    ensures a + b == [a[0]] + (a[1..] + b)
  {
    assert a == [a[0]] + a[1..];
  }

  lemma WithoutCons(x: string, s: seq<string>, k: string)
    ensures Without([x] + s, k) == if x == k then Without(s, k) else [x] + Without(s, k)
  {
    assert ([x] + s)[0] == x && ([x] + s)[1..] == s;
  }

  /** Taking out a key that occurs once keeps the other keys in their
      order: the keys before it stay before the keys after it. */
  lemma {:induction false} WithoutKeepsOrder(a: seq<string>, b: seq<string>, k: string)
    requires k !in a && k !in b
    ensures Without(a + [k] + b, k) == a + b
  {
    if a == [] {
      assert a + [k] + b == [k] + b;
      WithoutCons(k, b, k);
    } else {
      assert a + [k] + b == [a[0]] + (a[1..] + [k] + b);
      WithoutCons(a[0], a[1..] + [k] + b, k);
      WithoutKeepsOrder(a[1..], b, k);
      ConsAppend(a, b);
    }
  }

  datatype Table = Table(order: seq<string>, marks: map<string, nat>) {

    /** The order lists every key exactly once and nothing else. */
    ghost predicate Valid() {
      Distinct(order) && forall k :: k in order <==> k in marks
    }

    /** `watch_dict[k] = v`: overwrite in place, or insert at the end. */
    function Put(k: string, v: nat): (t: Table)
      ensures Valid() ==> t.Valid()
      ensures t.marks.Keys == marks.Keys + {k} && t.marks[k] == v
      ensures forall x :: x in marks && x != k ==> x in t.marks && t.marks[x] == marks[x]
      ensures t.order == if k in marks then order else order + [k]
    {
      if k in marks then Table(order, marks[k := v])
      else
        DistinctAppend(order, k);
        Table(order + [k], marks[k := v])
    }

    /** Overwriting a key twice is overwriting it once. */
    lemma PutTwice(k: string, a: nat, b: nat)
      ensures Put(k, a).Put(k, b) == Put(k, b)
    {
    }

    /** `watch_dict.pop(k)`: the key leaves both the map and the order. */
    function Pop(k: string): (t: Table)
      ensures Valid() ==> t.Valid()
      ensures t.marks.Keys == marks.Keys - {k}
      ensures forall x :: x in t.marks ==> t.marks[x] == marks[x]
      ensures t.order == Without(order, k)
    {
      Table(Without(order, k), marks - {k})
    }
  }

  const Empty := Table([], map[])
}
