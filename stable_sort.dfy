/** Python's `list.sort(key=..., reverse=...)` on host records: a stable sort.

    `Sort` is an insertion sort, which is one stable sort among many; the
    lemmas below show that a stable sort's result is unique (`SortUnique`), so
    any stable algorithm, CPython's included, returns the same list. */
module StableSort {
  import opened Hosts

  /** Puts `x` after the last element of `t` that does not rank strictly after it. */
  function Insert(o: Order, t: seq<Host>, x: Host): (r: seq<Host>)
    ensures |r| == |t| + 1
    ensures multiset(r) == multiset(t) + multiset{x}
    decreases |t|
  {
    if t == [] then [x]
    else if Before(o, x, t[|t| - 1]) then
      assert t == t[..|t| - 1] + [t[|t| - 1]];
      Insert(o, t[..|t| - 1], x) + [t[|t| - 1]]
    else t + [x]
  }

  /** `s` sorted by `o`, equal keys keeping their order in `s`. */
  function Sort(o: Order, s: seq<Host>): (r: seq<Host>)
    ensures |r| == |s|
    ensures multiset(r) == multiset(s)
  {
    if s == [] then []
    else
      assert s == s[..|s| - 1] + [s[|s| - 1]];
      Insert(o, Sort(o, s[..|s| - 1]), s[|s| - 1])
  }

  /** No element ranks strictly before an element to its left. */
  ghost predicate Sorted(o: Order, t: seq<Host>)
  {
    forall i, j :: 0 <= i < j < |t| ==> !Before(o, t[j], t[i])
  }

  /** The elements of `s` whose key under `o` equals that of `c`, in their order in `s`. */
  function Class(o: Order, c: Host, s: seq<Host>): (r: seq<Host>)
    ensures |r| <= |s|
    ensures forall x :: x in r ==> x in s && Tied(o, x, c)
  {
    if s == [] then []
    else (if Tied(o, s[0], c) then [s[0]] else []) + Class(o, c, s[1..])
  }

  lemma {:induction false} ClassConcat(o: Order, c: Host, a: seq<Host>, b: seq<Host>)
    ensures Class(o, c, a + b) == Class(o, c, a) + Class(o, c, b)
  {
    if a == [] {
      assert a + b == b;
    } else {
      assert (a + b)[1..] == a[1..] + b;
      ClassConcat(o, c, a[1..], b);
    }
  }

  lemma ClassSingle(o: Order, c: Host, x: Host)
    ensures Class(o, c, [x]) == if Tied(o, x, c) then [x] else []
  {
    assert Class(o, c, [x]) == (if Tied(o, x, c) then [x] else []) + Class(o, c, []);
  }

  lemma {:induction false} InsertClass(o: Order, c: Host, t: seq<Host>, x: Host)
    ensures Class(o, c, Insert(o, t, x)) == Class(o, c, t) + (if Tied(o, x, c) then [x] else [])
    decreases |t|, 1
  {
    ClassSingle(o, c, x);
    if t != [] {
      var front, y := t[..|t| - 1], t[|t| - 1];
      assert t == front + [y];
      if Before(o, x, y) {
        InsertClassPast(o, c, front, y, x);
      } else {
        assert Insert(o, t, x) == t + [x];
        ClassConcat(o, c, t, [x]);
      }
    }
  }

  /** The step of `InsertClass` where `x` moves left past `y`, which ranks strictly after it. */
  lemma {:induction false} InsertClassPast(o: Order, c: Host, front: seq<Host>, y: Host, x: Host)
    requires Before(o, x, y)
    ensures Class(o, c, Insert(o, front + [y], x)) == Class(o, c, front + [y]) + (if Tied(o, x, c) then [x] else [])
    decreases |front| + 1, 0
  {
    var t := front + [y];
    var inner := Insert(o, front, x);
    var tail := if Tied(o, x, c) then [x] else [];
    assert t[..|t| - 1] == front && t[|t| - 1] == y;
    assert Insert(o, t, x) == inner + [y];
    InsertClass(o, c, front, x);
    ClassConcat(o, c, inner, [y]);
    ClassConcat(o, c, front, [y]);
    PassedClass(o, c, x, y);
    SwapEmpty(Class(o, c, front), tail, Class(o, c, [y]));
  }

  /** A host that ranks strictly after `x` is not in `x`'s class. */
  lemma PassedClass(o: Order, c: Host, x: Host, y: Host)
    requires Before(o, x, y)
    ensures Tied(o, x, c) ==> Class(o, c, [y]) == []
  {
    OrderLaws(o, c, x, y);
    OrderLaws(o, c, y, x);
    ClassSingle(o, c, y);
  }

  lemma SwapEmpty(a: seq<Host>, b: seq<Host>, e: seq<Host>)
    requires b == [] || e == []
    ensures a + b + e == a + e + b
  {
  }

  /** Stability: sorting keeps every class of equal keys in its original order. */
  lemma {:induction false} SortClass(o: Order, c: Host, s: seq<Host>)
    ensures Class(o, c, Sort(o, s)) == Class(o, c, s)
  {
    if s != [] {
      var front, z := s[..|s| - 1], s[|s| - 1];
      assert s == front + [z];
      assert Sort(o, s) == Insert(o, Sort(o, front), z);
      SortClass(o, c, front);
      InsertClass(o, c, Sort(o, front), z);
      ClassConcat(o, c, front, [z]);
      ClassSingle(o, c, z);
    }
  }

  lemma {:induction false} InsertSorted(o: Order, t: seq<Host>, x: Host)
    requires Sorted(o, t)
    ensures Sorted(o, Insert(o, t, x))
    decreases |t|
  {
    if t != [] {
      var front, y := t[..|t| - 1], t[|t| - 1];
      if Before(o, x, y) {
        SortedFront(o, t);
        InsertSorted(o, front, x);
        InsertSortedPast(o, front, y, x);
      } else {
        AppendSorted(o, t, x);
      }
    }
  }

  lemma SortedFront(o: Order, t: seq<Host>)
    requires Sorted(o, t) && t != []
    ensures Sorted(o, t[..|t| - 1])
  {
  }

  /** `x` goes before the last element `y`: the inner insertion is sorted and `y` may follow all of it. */
  lemma InsertSortedPast(o: Order, front: seq<Host>, y: Host, x: Host)
    requires Sorted(o, front + [y]) && Before(o, x, y)
    requires Sorted(o, Insert(o, front, x))
    ensures Sorted(o, Insert(o, front + [y], x))
  {
    var t := front + [y];
    assert t[..|t| - 1] == front && t[|t| - 1] == y;
    var inner := Insert(o, front, x);
    var r := Insert(o, t, x);
    assert r == inner + [y];
    forall i, j | 0 <= i < j < |r| ensures !Before(o, r[j], r[i]) {
      if j == |r| - 1 {
        var z := r[i];
        assert z in multiset(inner);
        if z == x {
          OrderLaws(o, x, y, x);
        } else {
          assert z in multiset(front);
          var k :| 0 <= k < |front| && front[k] == z;
          assert t[k] == z;
        }
      }
    }
  }

  /** `x` stays at the end: nothing before it ranks after it. */
  lemma AppendSorted(o: Order, t: seq<Host>, x: Host)
    requires Sorted(o, t) && t != [] && !Before(o, x, t[|t| - 1])
    ensures Sorted(o, Insert(o, t, x))
  {
    var y := t[|t| - 1];
    var r := Insert(o, t, x);
    assert r == t + [x];
    forall i, j | 0 <= i < j < |r| ensures !Before(o, r[j], r[i]) {
      if j == |r| - 1 && i < |t| - 1 {
        OrderLaws(o, t[i], y, x);
        OrderLaws(o, x, t[i], y);
      }
    }
  }

  lemma {:induction false} SortSorted(o: Order, s: seq<Host>)
    ensures Sorted(o, Sort(o, s))
  {
    if s != [] {
      SortSorted(o, s[..|s| - 1]);
      InsertSorted(o, Sort(o, s[..|s| - 1]), s[|s| - 1]);
    }
  }

  /** Keeping one class of a sorted list leaves it sorted. */
  lemma {:induction false} ClassSorted(f: Order, g: Order, c: Host, t: seq<Host>)
    requires Sorted(g, t)
    ensures Sorted(g, Class(f, c, t))
  {
    if t != [] {
      var rest := Class(f, c, t[1..]);
      assert Sorted(g, t[1..]) by {
        forall i, j | 0 <= i < j < |t[1..]| ensures !Before(g, t[1..][j], t[1..][i]) {
          assert t[1..][j] == t[j + 1] && t[1..][i] == t[i + 1];
        }
      }
      ClassSorted(f, g, c, t[1..]);
      if Tied(f, t[0], c) {
        var r := Class(f, c, t);
        assert r == [t[0]] + rest;
        forall i, j | 0 <= i < j < |r| ensures !Before(g, r[j], r[i]) {
          if i == 0 {
            assert r[j] in t[1..];
            var k :| 0 <= k < |t[1..]| && t[1..][k] == r[j];
            assert t[k + 1] == r[j];
          } else {
            assert r[j] == rest[j - 1] && r[i] == rest[i - 1];
          }
        }
      }
    }
  }

  /** Where the `i`-th element of `u` lands in its class. */
  lemma {:induction false} ClassPosition(o: Order, c: Host, u: seq<Host>, i: int)
    requires 0 <= i < |u| && Tied(o, u[i], c)
    ensures |Class(o, c, u[..i])| < |Class(o, c, u)|
    ensures Class(o, c, u)[|Class(o, c, u[..i])|] == u[i]
  {
    assert u == u[..i] + u[i..];
    ClassConcat(o, c, u[..i], u[i..]);
    assert u[i..][1..] == u[i + 1..];
  }

  lemma {:induction false} ClassPrefixGrows(o: Order, c: Host, u: seq<Host>, i: int, j: int)
    requires 0 <= i < j <= |u| && Tied(o, u[i], c)
    ensures |Class(o, c, u[..i])| < |Class(o, c, u[..j])|
  {
    assert u[..j] == u[..i] + u[i..j];
    ClassConcat(o, c, u[..i], u[i..j]);
    assert u[i..j][0] == u[i];
  }

  /** Sorting by `f` a list already sorted by `g` leaves it sorted by `f` then `g`. */
  lemma SortedThen(f: Order, g: Order, s: seq<Host>)
    ensures Sorted(Then(f, g), Sort(f, Sort(g, s)))
  {
    var w := Sort(g, s);
    var u := Sort(f, w);
    SortSorted(f, w);
    SortSorted(g, s);
    forall i, j | 0 <= i < j < |u| ensures !Before(Then(f, g), u[j], u[i]) {
      if Tied(f, u[j], u[i]) {
        var c := u[i];
        OrderLaws(f, c, c, c);
        ClassPosition(f, c, u, i);
        ClassPosition(f, c, u, j);
        ClassPrefixGrows(f, c, u, i, j);
        SortClass(f, c, w);
        ClassSorted(f, g, c, w);
      }
    }
  }

  lemma {:induction false} ClassThen(f: Order, g: Order, c: Host, s: seq<Host>)
    ensures Class(Then(f, g), c, s) == Class(g, c, Class(f, c, s))
  {
    if s != [] {
      ClassThen(f, g, c, s[1..]);
      var head := if Tied(f, s[0], c) then [s[0]] else [];
      ClassConcat(g, c, head, Class(f, c, s[1..]));
      assert Class(g, c, head) == (if Tied(f, s[0], c) && Tied(g, s[0], c) then [s[0]] else []) by {
        if Tied(f, s[0], c) {
          assert Class(g, c, head) == (if Tied(g, s[0], c) then [s[0]] else []) + Class(g, c, []);
        }
      }
    }
  }

  lemma {:induction false} ClassCommute(f: Order, g: Order, c: Host, s: seq<Host>)
    ensures Class(g, c, Class(f, c, s)) == Class(f, c, Class(g, c, s))
  {
    ClassThen(f, g, c, s);
    ClassThen(g, f, c, s);
    SameTies(Then(f, g), Then(g, f), c, s);
  }

  /** Two orders with the same ties have the same classes. */
  lemma {:induction false} SameTies(o: Order, p: Order, c: Host, s: seq<Host>)
    requires forall x :: Tied(o, x, c) == Tied(p, x, c)
    ensures Class(o, c, s) == Class(p, c, s)
  {
    if s != [] {
      SameTies(o, p, c, s[1..]);
    }
  }

  /** The first element of a list is in its own class. */
  lemma ClassOfHead(o: Order, t: seq<Host>)
    ensures t != [] ==> Class(o, t[0], t) != [] && Class(o, t[0], t)[0] == t[0]
  {
    if t != [] {
      OrderLaws(o, t[0], t[0], t[0]);
    }
  }

  /** A list sorted by `o` is determined by its classes: a stable sort has one possible result. */
  lemma {:induction false} SortUnique(o: Order, t1: seq<Host>, t2: seq<Host>)
    requires Sorted(o, t1) && Sorted(o, t2)
    requires forall c :: Class(o, c, t1) == Class(o, c, t2)
    ensures t1 == t2
    decreases |t1| + |t2|
  {
    EmptyTogether(o, t1, t2);
    if t1 != [] {
      SameHead(o, t1, t2);
      TailClasses(o, t1, t2);
      SortedTail(o, t1);
      SortedTail(o, t2);
      SortUnique(o, t1[1..], t2[1..]);
      assert t1 == [t1[0]] + t1[1..] && t2 == [t2[0]] + t2[1..];
    }
  }

  /** Lists with the same classes are empty together. */
  lemma EmptyTogether(o: Order, t1: seq<Host>, t2: seq<Host>)
    requires forall c :: Class(o, c, t1) == Class(o, c, t2)
    ensures t1 == [] <==> t2 == []
  {
    ClassOfHead(o, t1);
    ClassOfHead(o, t2);
  }

  /** Two sorted lists with the same classes start with the same element. */
  lemma SameHead(o: Order, t1: seq<Host>, t2: seq<Host>)
    requires Sorted(o, t1) && Sorted(o, t2) && t1 != [] && t2 != []
    requires forall c :: Class(o, c, t1) == Class(o, c, t2)
    ensures t1[0] == t2[0]
  {
    ClassOfHead(o, t1);
    ClassOfHead(o, t2);
    var a, b := t1[0], t2[0];
    OrderLaws(o, a, a, a);
    OrderLaws(o, b, b, b);
    OrderLaws(o, a, b, b);
    assert Class(o, a, t1)[0] == a;
    assert a in t2 by { assert a in Class(o, a, t2); }
    assert b in t1 by { assert b in Class(o, b, t1); assert Class(o, b, t2)[0] == b; }
    var k :| 0 <= k < |t2| && t2[k] == a;
    var m :| 0 <= m < |t1| && t1[m] == b;
    assert k > 0 ==> !Before(o, a, b);
    assert m > 0 ==> !Before(o, b, a);
    assert Tied(o, a, b) ==> Class(o, a, t2)[0] == b;
  }

  /** Removing equal heads keeps the classes equal. */
  lemma TailClasses(o: Order, t1: seq<Host>, t2: seq<Host>)
    requires t1 != [] && t2 != [] && t1[0] == t2[0]
    requires forall c :: Class(o, c, t1) == Class(o, c, t2)
    ensures forall c :: Class(o, c, t1[1..]) == Class(o, c, t2[1..])
  {
    var a := t1[0];
    forall c | true ensures Class(o, c, t1[1..]) == Class(o, c, t2[1..]) {
      var head := if Tied(o, a, c) then [a] else [];
      assert Class(o, c, t1) == head + Class(o, c, t1[1..]);
      assert Class(o, c, t2) == head + Class(o, c, t2[1..]);
      assert Class(o, c, t1[1..]) == Class(o, c, t1)[|head|..];
      assert Class(o, c, t2[1..]) == Class(o, c, t2)[|head|..];
    }
  }

  lemma SortedTail(o: Order, t: seq<Host>)
    requires Sorted(o, t) && t != []
    ensures Sorted(o, t[1..])
  {
    forall i, j | 0 <= i < j < |t| - 1 ensures !Before(o, t[1..][j], t[1..][i]) {
      assert t[1..][j] == t[j + 1] && t[1..][i] == t[i + 1];
    }
  }

  lemma SortThen(f: Order, g: Order, s: seq<Host>)
    ensures Sort(f, Sort(g, s)) == Sort(Then(f, g), s)
  {
    var u := Sort(f, Sort(g, s));
    var v := Sort(Then(f, g), s);
    SortedThen(f, g, s);
    SortSorted(Then(f, g), s);
    forall c | true ensures Class(Then(f, g), c, u) == Class(Then(f, g), c, v) {
      ClassThen(f, g, c, u);
      SortClass(f, c, Sort(g, s));
      ClassCommute(f, g, c, Sort(g, s));
      SortClass(g, c, s);
      ClassCommute(f, g, c, s);
      ClassThen(f, g, c, s);
      SortClass(Then(f, g), c, s);
    }
    SortUnique(Then(f, g), u, v);
  }
}
