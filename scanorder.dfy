/** The orders a search observes. HBase delivers a scan's rows in ascending
    byte order of their keys, and a row's qualifiers in ascending byte order
    (`getFamilyMap` is a sorted map under `Bytes.BYTES_COMPARATOR`); the
    uids are gathered into a `Sets.newLinkedHashSet`, which iterates its
    elements in the order they were first added. */
module ScanOrder {
  import opened Bytes

  predicate Distinct<T(==)>(s: seq<T>)
  {
    forall i, j :: 0 <= i < j < |s| ==> s[i] != s[j]
  }

  // ---------------------------------------------------------------------
  // Byte order is a total order

  lemma {:induction false} LexLeqTotal(a: seq<byte>, b: seq<byte>)
    ensures LexLeq(a, b) || LexLeq(b, a)
    decreases |a|
  {
    if a != [] && b != [] && a[0] == b[0] {
      LexLeqTotal(a[1..], b[1..]);
    }
  }

  lemma {:induction false} LexLeqAntisymmetric(a: seq<byte>, b: seq<byte>)
    requires LexLeq(a, b) && LexLeq(b, a)
    ensures a == b
    decreases |a|
  {
    if a != [] {
      LexLeqAntisymmetric(a[1..], b[1..]);
      assert a == [a[0]] + a[1..] && b == [b[0]] + b[1..];
    }
  }

  lemma {:induction false} LexLeqTransitive(a: seq<byte>, b: seq<byte>, c: seq<byte>)
    requires LexLeq(a, b) && LexLeq(b, c)
    ensures LexLeq(a, c)
    decreases |a|
  {
    if a != [] && b != [] && c != [] && a[0] == b[0] && b[0] == c[0] {
      LexLeqTransitive(a[1..], b[1..], c[1..]);
    }
  }

  /** `m` is the smallest key of `s`. */
  predicate IsLeast(m: seq<byte>, s: set<seq<byte>>)
  {
    m in s && forall x :: x in s ==> LexLeq(m, x)
  }

  /** Every non-empty set of keys has a smallest key. */
  lemma {:induction false} LeastExists(s: set<seq<byte>>)
    requires s != {}
    ensures exists m :: IsLeast(m, s)
    decreases s
  {
    var y :| y in s;
    LexLeqTotal(y, y);
    if s == {y} {
      assert IsLeast(y, s);
    } else {
      LeastExists(s - {y});
      var m :| IsLeast(m, s - {y});
      LexLeqTotal(m, y);
      if LexLeq(m, y) {
        assert IsLeast(m, s);
      } else {
        forall x | x in s
          ensures LexLeq(y, x)
        {
          if x != y {
            LexLeqTransitive(y, m, x);
          }
        }
        assert IsLeast(y, s);
      }
    }
  }

  lemma LeastUnique(s: set<seq<byte>>)
    ensures forall m, n :: IsLeast(m, s) && IsLeast(n, s) ==> m == n
  {
    forall m, n | IsLeast(m, s) && IsLeast(n, s)
      ensures m == n
    {
      LexLeqAntisymmetric(m, n);
    }
  }

  /** The key at `i` comes strictly before the key at `j`. */
  predicate Precedes(r: seq<seq<byte>>, i: int, j: int)
  {
    0 <= i < j < |r| && LexLeq(r[i], r[j]) && r[i] != r[j]
  }

  /** Strictly ascending in byte order. */
  predicate Ascending(r: seq<seq<byte>>)
  {
    forall i, j :: 0 <= i < j < |r| ==> Precedes(r, i, j)
  }

  lemma PrefixSnoc<T>(s: seq<T>, i: nat)
    requires i < |s|
    ensures s[..i + 1] == s[..i] + [s[i]]
  {
  }

  /** No key of an ascending sequence occurs before its position. */
  lemma AscendingFresh(r: seq<seq<byte>>, i: nat)
    requires Ascending(r) && i < |r|
    ensures r[i] !in r[..i]
  {
    forall k | 0 <= k < i
      ensures r[..i][k] != r[i]
    {
      assert Precedes(r, k, i);
    }
  }

  lemma AscendingCons(m: seq<byte>, rest: seq<seq<byte>>)
    requires Ascending(rest)
    requires forall x :: x in rest ==> LexLeq(m, x) && m != x
    ensures Ascending([m] + rest)
  {
    var r := [m] + rest;
    forall i, j | 0 <= i < j < |r|
      ensures Precedes(r, i, j)
    {
      if i == 0 {
        assert r[j] in rest;
      } else {
        assert Precedes(rest, i - 1, j - 1);
      }
    }
  }

  lemma AscendingTail(r: seq<seq<byte>>)
    requires Ascending(r) && r != []
    ensures Ascending(r[1..])
  {
    forall i, j | 0 <= i < j < |r| - 1
      ensures Precedes(r[1..], i, j)
    {
      assert Precedes(r, i + 1, j + 1);
    }
  }

  /** The keys of `s` in the order a scan delivers them. */
  function SortedKeys(s: set<seq<byte>>): (r: seq<seq<byte>>)
    ensures |r| == |s|
    ensures forall x :: x in r <==> x in s
    ensures Ascending(r)
    decreases s
  {
    if s == {} then []
    else
      LeastExists(s);
      LeastUnique(s);
      var m :| IsLeast(m, s);
      var rest := SortedKeys(s - {m});
      AscendingCons(m, rest);
      [m] + rest
  }

  lemma HeadIsElement(q: seq<seq<byte>>)
    ensures q != [] ==> q[0] in q
  {
  }

  /** Two ascending sequences of the same keys are the same sequence. */
  lemma {:induction false} AscendingUnique(r: seq<seq<byte>>, q: seq<seq<byte>>)
    requires Ascending(r) && Ascending(q)
    requires forall x :: x in r <==> x in q
    ensures r == q
    decreases |r|
  {
    if r == [] {
      HeadIsElement(q);
    } else {
      assert r[0] in q;
      var i :| 0 <= i < |q| && q[i] == r[0];
      assert q[0] in r;
      var j :| 0 <= j < |r| && r[j] == q[0];
      if i != 0 && j != 0 {
        assert Precedes(r, 0, j) && Precedes(q, 0, i);
        LexLeqAntisymmetric(r[0], q[0]);
      }
      assert r[0] == q[0];
      TailsAgree(r, q);
      TailsAgree(q, r);
      AscendingTail(r);
      AscendingTail(q);
      AscendingUnique(r[1..], q[1..]);
      assert r == [r[0]] + r[1..] && q == [q[0]] + q[1..];
    }
  }

  lemma TailsAgree(r: seq<seq<byte>>, q: seq<seq<byte>>)
    requires Ascending(r) && r != [] && q != [] && r[0] == q[0]
    requires forall x :: x in r <==> x in q
    ensures forall x :: x in r[1..] ==> x in q[1..]
  {
    forall x | x in r[1..]
      ensures x in q[1..]
    {
      var m :| 0 <= m < |r| - 1 && r[1..][m] == x;
      assert Precedes(r, 0, m + 1);
      assert x == r[m + 1] && x in r;
      var k :| 0 <= k < |q| && q[k] == x;
      assert q[1..][k - 1] == x;
    }
  }

  /** The ascending enumeration of a set of keys is unique: any ascending
      sequence of exactly the keys of `s` is `SortedKeys(s)`. */
  lemma SortedKeysUnique(r: seq<seq<byte>>, s: set<seq<byte>>)
    requires Ascending(r)
    requires forall x :: x in r <==> x in s
    ensures r == SortedKeys(s)
  {
    AscendingUnique(r, SortedKeys(s));
  }

  // ---------------------------------------------------------------------
  // Insertion-ordered sets

  /** `Set.add` on an insertion-ordered set held as the sequence of its
      elements: `x` joins at the end unless it is present. */
  function Add<T(==)>(acc: seq<T>, x: T): seq<T>
  {
    if x in acc then acc else acc + [x]
  }

  /** The elements of `s` added one after another. */
  function AddAll<T(==)>(acc: seq<T>, s: seq<T>): seq<T>
    decreases |s|
  {
    if s == [] then acc else Add(AddAll(acc, s[..|s| - 1]), s[|s| - 1])
  }

  /** Adding two runs one after the other is adding their concatenation. */
  lemma {:induction false} AddAllAppend<T>(acc: seq<T>, a: seq<T>, b: seq<T>)
    ensures AddAll(acc, a + b) == AddAll(AddAll(acc, a), b)
    decreases |b|
  {
    if b == [] {
      assert a + b == a;
    } else {
      var init := b[..|b| - 1];
      AddAllAppend(acc, a, init);
      assert (a + b)[..|a + b| - 1] == a + init;
    }
  }

  /** Adding never removes or reorders what the set held. */
  lemma {:induction false} AddAllExtends<T>(acc: seq<T>, s: seq<T>)
    ensures acc <= AddAll(acc, s)
    decreases |s|
  {
    if s != [] {
      AddAllExtends(acc, s[..|s| - 1]);
    }
  }

  /** The set holds what it held and every added element, each once. */
  lemma {:induction false} AddAllElements<T>(acc: seq<T>, s: seq<T>)
    requires Distinct(acc)
    ensures Distinct(AddAll(acc, s))
    ensures forall x :: x in AddAll(acc, s) <==> x in acc || x in s
    decreases |s|
  {
    if s != [] {
      AddAllElements(acc, s[..|s| - 1]);
      assert s == s[..|s| - 1] + [s[|s| - 1]];
    }
  }

  /** The index of the first occurrence of `x` in `s`. */
  function FirstIndex<T(==)>(s: seq<T>, x: T): (i: nat)
    requires x in s
    ensures i < |s| && s[i] == x && x !in s[..i]
  {
    if s[0] == x then 0
    else
      assert s[1..][..FirstIndex(s[1..], x)] == s[1..1 + FirstIndex(s[1..], x)];
      1 + FirstIndex(s[1..], x)
  }

  /** The first occurrence is the one with no occurrence before it. */
  lemma {:induction false} FirstIndexUnique<T>(s: seq<T>, x: T, i: nat)
    requires i < |s| && s[i] == x && x !in s[..i]
    ensures FirstIndex(s, x) == i
  {
    if i > 0 {
      assert s[0] == s[..i][0];
      assert s[1..][..i - 1] == s[1..i];
      FirstIndexUnique(s[1..], x, i - 1);
    }
  }

  lemma FirstIndexOfPrefix<T>(s: seq<T>, y: T, x: T)
    requires x in s
    ensures FirstIndex(s + [y], x) == FirstIndex(s, x)
  {
    var i := FirstIndex(s, x);
    assert (s + [y])[..i] == s[..i];
    FirstIndexUnique(s + [y], x, i);
  }

  lemma FirstIndexOfLast<T>(s: seq<T>, x: T)
    requires x !in s
    ensures FirstIndex(s + [x], x) == |s|
  {
  }

  /** Starting empty, the elements come out in the order of their first
      occurrence in what was added. */
  lemma {:induction false} AddAllFirstSeen<T>(s: seq<T>)
    ensures forall x :: x in AddAll([], s) <==> x in s
    ensures forall i, j :: 0 <= i < j < |AddAll([], s)| ==>
      FirstIndex(s, AddAll([], s)[i]) < FirstIndex(s, AddAll([], s)[j])
    decreases |s|
  {
    AddAllElements([], s);
    if s != [] {
      var p, x := s[..|s| - 1], s[|s| - 1];
      assert s == p + [x];
      AddAllFirstSeen(p);
      var r0 := AddAll([], p);
      var r := AddAll([], s);
      assert r == Add(r0, x);
      forall i, j | 0 <= i < j < |r|
        ensures FirstIndex(s, r[i]) < FirstIndex(s, r[j])
      {
        FirstIndexOfPrefix(p, x, r[i]);
        if j < |r0| {
          FirstIndexOfPrefix(p, x, r[j]);
        } else {
          FirstIndexOfLast(p, x);
        }
      }
    }
  }
}
