/** A stable sort by an integer key: the behaviour of `Array.prototype.sort` with a
    comparator `(a, b) => key(a) - key(b)`, which the language requires to be stable. */
module StableSort {

  ghost predicate SortedBy<T>(s: seq<T>, key: T -> int) {
    forall i, j | 0 <= i < j < |s| :: key(s[i]) <= key(s[j])
  }

  /** The elements of `s` whose key is `k`, in their order in `s`. */
  function WithKey<T>(s: seq<T>, key: T -> int, k: int): seq<T> {
    if s == [] then [] else (if key(s[0]) == k then [s[0]] else []) + WithKey(s[1..], key, k)
  }

  lemma {:induction false} WithKeyAppend<T>(a: seq<T>, b: seq<T>, key: T -> int, k: int)
    ensures WithKey(a + b, key, k) == WithKey(a, key, k) + WithKey(b, key, k)
  {
    if a == [] {
      assert a + b == b;
    } else {
      var h := if key(a[0]) == k then [a[0]] else [];
      assert (a + b)[0] == a[0] && (a + b)[1..] == a[1..] + b;
      WithKeyAppend(a[1..], b, key, k);
      calc {
        WithKey(a + b, key, k);
        h + WithKey(a[1..] + b, key, k);
        h + (WithKey(a[1..], key, k) + WithKey(b, key, k));
        (h + WithKey(a[1..], key, k)) + WithKey(b, key, k);
        WithKey(a, key, k) + WithKey(b, key, k);
      }
    }
  }

  lemma SortedCons<T>(h: T, t: seq<T>, key: T -> int)
    requires SortedBy(t, key)
    requires forall i | 0 <= i < |t| :: key(h) <= key(t[i])
    ensures SortedBy([h] + t, key)
  {
    var r := [h] + t;
    forall i, j | 0 <= i < j < |r| ensures key(r[i]) <= key(r[j]) {
      assert r[j] == t[j - 1];
      if i > 0 {
        assert r[i] == t[i - 1];
      }
    }
  }

  /** The inductive step of `Insert`: `s[0]` goes in front of the insertion into `s[1..]`. */
  lemma InsertBehindHead<T>(x: T, s: seq<T>, key: T -> int, rest: seq<T>)
    requires SortedBy(s, key) && |s| > 0 && key(s[0]) < key(x)
    requires |rest| == |s|
    requires forall i | 0 <= i < |rest| :: rest[i] == x || rest[i] in s[1..]
    requires SortedBy(rest, key)
    requires multiset(rest) == multiset(s[1..]) + multiset{x}
    ensures var r := [s[0]] + rest;
      && (forall i | 0 <= i < |r| :: r[i] == x || r[i] in s)
      && SortedBy(r, key)
      && multiset(r) == multiset(s) + multiset{x}
  {
    assert s == [s[0]] + s[1..];
    forall i | 0 <= i < |rest| ensures key(s[0]) <= key(rest[i]) {
      if rest[i] != x {
        var k :| 1 <= k < |s| && s[k] == rest[i];
      }
    }
    SortedCons(s[0], rest, key);
    var r := [s[0]] + rest;
    assert forall i | 1 <= i < |r| :: r[i] == rest[i - 1];
  }

  /** Inserts `x` before the first element whose key is not smaller. */
  function Insert<T>(x: T, s: seq<T>, key: T -> int): (r: seq<T>)
    requires SortedBy(s, key)
    ensures |r| == |s| + 1
    ensures forall i | 0 <= i < |r| :: r[i] == x || r[i] in s
    ensures SortedBy(r, key)
    ensures multiset(r) == multiset(s) + multiset{x}
  {
    if s == [] || key(x) <= key(s[0]) then
      SortedCons(x, s, key);
      [x] + s
    else
      var rest := Insert(x, s[1..], key);
      InsertBehindHead(x, s, key, rest);
      [s[0]] + rest
  }

  /** Insertion into a sorted list keeps every key's elements in their order, `x` first. */
  lemma SortedTail<T>(s: seq<T>, key: T -> int)
    requires SortedBy(s, key) && |s| > 0
    ensures SortedBy(s[1..], key)
  {
    var rest := s[1..];
    forall i, j | 0 <= i < j < |rest| ensures key(rest[i]) <= key(rest[j]) {
      assert rest[i] == s[i + 1] && rest[j] == s[j + 1];
    }
  }

  lemma {:induction false} InsertKeepsKeyOrder<T>(x: T, s: seq<T>, key: T -> int, k: int)
    requires SortedBy(s, key)
    ensures WithKey(Insert(x, s, key), key, k) == WithKey([x] + s, key, k)
  {
    if s != [] && key(s[0]) < key(x) {
      var rest := s[1..];
      SortedTail(s, key);
      InsertKeepsKeyOrder(x, rest, key, k);
      var ins := Insert(x, rest, key);
      assert Insert(x, s, key) == [s[0]] + ins;
      WithKeyAppend([s[0]], ins, key, k);
      WithKeyAppend([x], rest, key, k);
      WithKeyAppend([s[0]], rest, key, k);
      WithKeyAppend([x], s, key, k);
      assert s == [s[0]] + rest;
      GroupsCommute(WithKey([x], key, k), WithKey([s[0]], key, k), WithKey(rest, key, k));
    }
  }

  lemma GroupsCommute<T>(a: seq<T>, b: seq<T>, w: seq<T>)
    requires a == [] || b == []
    ensures b + (a + w) == a + (b + w)
  {
  }

  /** Insertion sort. */
  function Sort<T>(s: seq<T>, key: T -> int): (r: seq<T>)
    ensures SortedBy(r, key)
    ensures multiset(r) == multiset(s)
  {
    if s == [] then []
    else
      assert s == [s[0]] + s[1..];
      Insert(s[0], Sort(s[1..], key), key)
  }

  /** Stability: elements with equal keys come out in their input order. */
  lemma {:induction false} SortIsStable<T>(s: seq<T>, key: T -> int, k: int)
    ensures WithKey(Sort(s, key), key, k) == WithKey(s, key, k)
  {
    if s != [] {
      var t := Sort(s[1..], key);
      calc {
        WithKey(Sort(s, key), key, k);
        WithKey(Insert(s[0], t, key), key, k);
        { InsertKeepsKeyOrder(s[0], t, key, k); }
        WithKey([s[0]] + t, key, k);
        { WithKeyAppend([s[0]], t, key, k); }
        WithKey([s[0]], key, k) + WithKey(t, key, k);
        { SortIsStable(s[1..], key, k); }
        WithKey([s[0]], key, k) + WithKey(s[1..], key, k);
        { WithKeyAppend([s[0]], s[1..], key, k); assert s == [s[0]] + s[1..]; }
        WithKey(s, key, k);
      }
    }
  }

  /** Grouping by a negated key is grouping by the key. */
  lemma {:induction false} WithNegatedKey<T>(s: seq<T>, key: T -> int, negated: T -> int, k: int)
    requires forall x :: negated(x) == -key(x)
    ensures WithKey(s, negated, -k) == WithKey(s, key, k)
  {
    if s != [] {
      WithNegatedKey(s[1..], key, negated, k);
    }
  }
}
