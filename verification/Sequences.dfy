/** Filtering and sorting of sequences, with the facts the components need about them. */
module Sequences {

  datatype Option<+T> = None | Some(value: T)

  function Keep<T>(s: seq<T>, p: T -> bool): (r: seq<T>)
    ensures |r| <= |s|
  {
    if s == [] then [] else (if p(s[0]) then [s[0]] else []) + Keep(s[1..], p)
  }

  lemma {:induction false} KeepConcat<T>(a: seq<T>, b: seq<T>, p: T -> bool)
    ensures Keep(a + b, p) == Keep(a, p) + Keep(b, p)
  {
    if a == [] {
      assert a + b == b;
    } else {
      KeepConcat(a[1..], b, p);
      assert (a + b)[1..] == a[1..] + b;
      var head := if p(a[0]) then [a[0]] else [];
      assert Keep(a + b, p) == head + Keep(a[1..] + b, p);
      assert head + (Keep(a[1..], p) + Keep(b, p)) == (head + Keep(a[1..], p)) + Keep(b, p);
    }
  }

  lemma {:induction false} KeepMembers<T>(s: seq<T>, p: T -> bool, x: T)
    ensures x in Keep(s, p) <==> x in s && p(x)
  {
    if s != [] {
      KeepMembers(s[1..], p, x);
    }
  }

  lemma {:induction false} KeepAll<T>(s: seq<T>, p: T -> bool)
    requires forall i :: 0 <= i < |s| ==> p(s[i])
    ensures Keep(s, p) == s
  {
    if s != [] {
      assert forall i :: 0 <= i < |s[1..]| ==> s[1..][i] == s[i + 1];
      KeepAll(s[1..], p);
    }
  }

  lemma {:induction false} KeepSuffix<T>(s: seq<T>, p: T -> bool, n: nat)
    requires n <= |s|
    requires forall i :: 0 <= i < |s| ==> (p(s[i]) <==> n <= i)
    ensures Keep(s, p) == s[n..]
  {
    if n == 0 {
      KeepAll(s, p);
    } else {
      assert forall i :: 0 <= i < |s[1..]| ==> s[1..][i] == s[i + 1];
      KeepSuffix(s[1..], p, n - 1);
      assert s[1..][n - 1..] == s[n..];
    }
  }

  ghost predicate SortedBy<T>(s: seq<T>, le: (T, T) -> bool) {
    forall i, j :: 0 <= i < j < |s| ==> le(s[i], s[j])
  }

  ghost predicate TotalPreorder<T(!new)>(le: (T, T) -> bool) {
    && (forall a, b :: le(a, b) || le(b, a))
    && (forall a, b, c :: le(a, b) && le(b, c) ==> le(a, c))
  }

  function Insert<T>(x: T, s: seq<T>, le: (T, T) -> bool): seq<T> {
    if s == [] || le(x, s[0]) then [x] + s else [s[0]] + Insert(x, s[1..], le)
  }

  /** Stable sort, as the language's own `sort`. */
  function Sort<T>(s: seq<T>, le: (T, T) -> bool): (r: seq<T>)
    ensures |s| == 0 ==> r == []
  {
    if s == [] then [] else Insert(s[0], Sort(s[1..], le), le)
  }

  lemma {:induction false} InsertKeepsItems<T>(x: T, s: seq<T>, le: (T, T) -> bool)
    ensures multiset(Insert(x, s, le)) == multiset{x} + multiset(s)
  {
    if s != [] && !le(x, s[0]) {
      InsertKeepsItems(x, s[1..], le);
      assert s == [s[0]] + s[1..];
    }
  }

  lemma {:induction false} SortKeepsItems<T>(s: seq<T>, le: (T, T) -> bool)
    ensures multiset(Sort(s, le)) == multiset(s)
    ensures |Sort(s, le)| == |s|
    ensures forall x :: x in Sort(s, le) <==> x in s
  {
    if s != [] {
      SortKeepsItems(s[1..], le);
      InsertKeepsItems(s[0], Sort(s[1..], le), le);
      assert s == [s[0]] + s[1..];
    }
    assert |multiset(Sort(s, le))| == |multiset(s)|;
    forall x ensures x in Sort(s, le) <==> x in s {
      assert x in s <==> x in multiset(s);
      assert x in Sort(s, le) <==> x in multiset(Sort(s, le));
    }
  }

  lemma {:induction false} InsertSorts<T(!new)>(x: T, s: seq<T>, le: (T, T) -> bool)
    requires TotalPreorder(le) && SortedBy(s, le)
    ensures SortedBy(Insert(x, s, le), le)
  {
    if s != [] && !le(x, s[0]) {
      InsertSorts(x, s[1..], le);
      var rest := Insert(x, s[1..], le);
      forall y | y in rest ensures le(s[0], y) {
        InsertKeepsItems(x, s[1..], le);
        assert y in multiset(rest);
        if y != x {
          assert y in s[1..];
        }
      }
    }
  }

  lemma {:induction false} SortSorts<T(!new)>(s: seq<T>, le: (T, T) -> bool)
    requires TotalPreorder(le)
    ensures SortedBy(Sort(s, le), le)
  {
    if s != [] {
      SortSorts(s[1..], le);
      InsertSorts(s[0], Sort(s[1..], le), le);
    }
  }

  lemma KeepCons<T>(x: T, s: seq<T>, p: T -> bool)
    ensures Keep([x] + s, p) == if p(x) then [x] + Keep(s, p) else Keep(s, p)
  {
    assert ([x] + s)[1..] == s;
    assert [] + Keep(s, p) == Keep(s, p);
  }

  lemma KeepSplits<T>(s: seq<T>, p: T -> bool)
    requires s != []
    ensures Keep(s, p) == if p(s[0]) then [s[0]] + Keep(s[1..], p) else Keep(s[1..], p)
  {
    assert [] + Keep(s[1..], p) == Keep(s[1..], p);
  }

  /** Inserting into a sorted sequence and filtering commute. */
  lemma {:induction false} KeepOfInsert<T(!new)>(x: T, s: seq<T>, le: (T, T) -> bool, p: T -> bool)
    requires TotalPreorder(le) && SortedBy(s, le)
    ensures Keep(Insert(x, s, le), p) == if p(x) then Insert(x, Keep(s, p), le) else Keep(s, p)
  {
    if s == [] {
    } else if le(x, s[0]) {
      KeepCons(x, s, p);
      if p(x) && Keep(s, p) != [] {
        KeepMembers(s, p, Keep(s, p)[0]);
        assert le(s[0], Keep(s, p)[0]) by {
          var i :| 0 <= i < |s| && s[i] == Keep(s, p)[0];
          assert i == 0 || le(s[0], s[i]);
        }
      }
    } else {
      KeepOfInsert(x, s[1..], le, p);
      KeepCons(s[0], Insert(x, s[1..], le), p);
      KeepSplits(s, p);
    }
  }

  /** A stable sort and a filter commute. */
  lemma {:induction false} KeepOfSort<T(!new)>(s: seq<T>, le: (T, T) -> bool, p: T -> bool)
    requires TotalPreorder(le)
    ensures Keep(Sort(s, le), p) == Sort(Keep(s, p), le)
  {
    if s != [] {
      KeepOfSort(s[1..], le, p);
      SortSorts(s[1..], le);
      KeepOfInsert(s[0], Sort(s[1..], le), le, p);
      KeepSplits(s, p);
    }
  }

  /** Sorting leaves items alone that are all of one rank. */
  lemma {:induction false} SortOfEquals<T>(s: seq<T>, le: (T, T) -> bool)
    requires forall x, y :: x in s && y in s ==> le(x, y)
    ensures Sort(s, le) == s
  {
    if s != [] {
      SortOfEquals(s[1..], le);
      if |s| > 1 {
        assert s[1..][0] == s[1];
      }
    }
  }

  /** Filtering twice is filtering once by the stricter test. */
  lemma {:induction false} KeepOfKeep<T>(s: seq<T>, p: T -> bool, q: T -> bool)
    requires forall x :: x in s && q(x) ==> p(x)
    ensures Keep(Keep(s, p), q) == Keep(s, q)
  {
    if s != [] {
      KeepOfKeep(s[1..], p, q);
      KeepSplits(s, p);
      KeepSplits(s, q);
      if p(s[0]) {
        KeepCons(s[0], Keep(s[1..], p), q);
      }
    }
  }

  /** If one item passes, it is what is kept. */
  lemma {:induction false} KeepsOne<T>(s: seq<T>, p: T -> bool, i: nat)
    requires i < |s| && forall k :: 0 <= k < |s| ==> (p(s[k]) <==> k == i)
    ensures Keep(s, p) == [s[i]]
  {
    KeepSplits(s, p);
    if i == 0 {
      KeepsNone(s[1..], p);
    } else {
      KeepsOne(s[1..], p, i - 1);
    }
  }

  lemma {:induction false} KeepsNone<T>(s: seq<T>, p: T -> bool)
    requires forall k :: 0 <= k < |s| ==> !p(s[k])
    ensures Keep(s, p) == []
  {
    if s != [] {
      KeepsNone(s[1..], p);
    }
  }

  lemma {:induction false} KeepsTwo<T>(s: seq<T>, p: T -> bool, i: nat, j: nat)
    requires i < j < |s| && forall k :: 0 <= k < |s| ==> (p(s[k]) <==> k == i || k == j)
    ensures Keep(s, p) == [s[i], s[j]]
  {
    KeepSplits(s, p);
    if i == 0 {
      KeepsOne(s[1..], p, j - 1);
    } else {
      KeepsTwo(s[1..], p, i - 1, j - 1);
    }
  }

  /** If one item is kept, exactly one passes. */
  lemma {:induction false} OneIsKept<T>(s: seq<T>, p: T -> bool) returns (i: nat)
    requires |Keep(s, p)| == 1
    ensures i < |s| && Keep(s, p)[0] == s[i] && forall k :: 0 <= k < |s| ==> (p(s[k]) <==> k == i)
  {
    KeepSplits(s, p);
    if p(s[0]) {
      i := 0;
      forall k | 1 <= k < |s| ensures !p(s[k]) {
        KeepMembers(s[1..], p, s[k]);
        assert s[k] == s[1..][k - 1];
      }
    } else {
      i := OneIsKept(s[1..], p);
      i := i + 1;
      forall k | 0 <= k < |s| ensures p(s[k]) <==> k == i {
        assert k > 0 ==> s[k] == s[1..][k - 1];
      }
    }
  }

  ghost predicate Distinct<T>(s: seq<T>) {
    forall i, j :: 0 <= i < j < |s| ==> s[i] != s[j]
  }

  lemma DistinctByMultiset<T>(a: seq<T>, b: seq<T>)
    requires multiset(a) == multiset(b) && Distinct(a)
    ensures Distinct(b)
  {
    forall i, j | 0 <= i < j < |b| ensures b[i] != b[j] {
      if b[i] == b[j] {
        OccursTwice(b, i, j);
        assert b[i] in multiset(a);
        OccursOnce(a, b[i]);
        assert false;
      }
    }
  }

  lemma OccursTwice<T>(s: seq<T>, i: nat, j: nat)
    requires i < j < |s| && s[i] == s[j]
    ensures multiset(s)[s[i]] >= 2
  {
    assert s == s[..j] + [s[j]] + s[j + 1..];
    assert s[i] in s[..j];
  }

  lemma OccursOnce<T>(s: seq<T>, x: T)
    requires Distinct(s) && x in s
    ensures multiset(s)[x] == 1
  {
    var i :| 0 <= i < |s| && s[i] == x;
    assert s == s[..i] + [x] + s[i + 1..];
    assert x !in s[..i] && x !in s[i + 1..];
  }
}
