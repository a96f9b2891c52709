/** Order-preserving removal of a set of elements from a sequence. */
module SeqFilter {

  ghost function IndexOf<T>(s: seq<T>, x: T): (i: nat)
    requires x in s
    ensures i < |s| && s[i] == x
  {
    var i :| 0 <= i < |s| && s[i] == x;
    i
  }

  /** No element occurs twice: each one determines its own index. */
  ghost predicate Distinct<T>(s: seq<T>) {
    forall i {:trigger s[i]} :: 0 <= i < |s| ==> IndexOf(s, s[i]) == i
  }

  /** An element of a duplicate-free sequence is at no other index. */
  lemma NoOther<T>(s: seq<T>, k: nat)
    requires Distinct(s) && k < |s|
    ensures forall i {:trigger s[i]} :: 0 <= i < |s| && i != k ==> s[i] != s[k]
  {
    forall i {:trigger s[i]} | 0 <= i < |s| && i != k ensures s[i] != s[k] {
      assert IndexOf(s, s[i]) == i && IndexOf(s, s[k]) == k;
    }
  }

  /** `s` without the element at index `k`. */
  ghost function CutAt<T>(s: seq<T>, k: nat): (r: seq<T>)
    requires k < |s|
    ensures |r| == |s| - 1
  {
    seq(|s| - 1, i requires 0 <= i < |s| - 1 => if i < k then s[i] else s[i + 1])
  }

  lemma CutDistinct<T>(s: seq<T>, k: nat)
    requires Distinct(s) && k < |s|
    ensures Distinct(CutAt(s, k))
    ensures forall x :: x in CutAt(s, k) <==> x in s && x != s[k]
  {
    var r := CutAt(s, k);
    forall x | x in s && x != s[k] ensures x in r {
      var i := IndexOf(s, x);
      assert r[if i < k then i else i - 1] == x;
    }
  }

  /** The elements of `s` other than `x`. */
  ghost function Others<T>(s: seq<T>, x: T): set<T> {
    set y | y in s && y != x
  }

  /** `s` without the elements of `dead`, in the same order. */
  ghost function Without<T>(s: seq<T>, dead: set<T>): seq<T> {
    if s == [] then []
    else if s[0] in dead then Without(s[1..], dead)
    else [s[0]] + Without(s[1..], dead)
  }

  /** Every sequence of `cs` without the elements of `dead`. */
  ghost function WithoutAll<T>(cs: seq<seq<T>>, dead: set<T>): seq<seq<T>> {
    seq(|cs|, b requires 0 <= b < |cs| => Without(cs[b], dead))
  }

  lemma {:induction false} WithoutMembers<T>(s: seq<T>, dead: set<T>)
    ensures forall x :: x in Without(s, dead) <==> x in s && x !in dead
    ensures |Without(s, dead)| <= |s|
  {
    if s != [] {
      WithoutMembers(s[1..], dead);
      assert s == [s[0]] + s[1..];
    }
  }

  lemma {:induction false} WithoutDistinct<T>(s: seq<T>, dead: set<T>)
    requires Distinct(s)
    ensures Distinct(Without(s, dead))
  {
    if s != [] {
      WithoutDistinct(s[1..], dead);
      WithoutMembers(s[1..], dead);
    }
  }

  lemma {:induction false} WithoutNone<T>(s: seq<T>, dead: set<T>)
    requires forall x :: x in s ==> x !in dead
    ensures Without(s, dead) == s
  {
    if s != [] {
      WithoutNone(s[1..], dead);
    }
  }

  lemma {:induction false} WithoutConcat<T>(s: seq<T>, t: seq<T>, dead: set<T>)
    ensures Without(s + t, dead) == Without(s, dead) + Without(t, dead)
  {
    if s == [] {
      assert s + t == t;
    } else {
      WithoutFirst(s, dead);
      WithoutFirst(s + t, dead);
      hide Without;
      WithoutConcat(s[1..], t, dead);
      assert (s + t)[1..] == s[1..] + t;
    }
  }

  lemma WithoutFirst<T>(s: seq<T>, dead: set<T>)
    requires s != []
    ensures Without(s, dead) == (if s[0] in dead then [] else [s[0]]) + Without(s[1..], dead)
  {
  }

  /** Removing one element of a duplicate-free sequence cuts it out at its index. */
  lemma {:induction false} WithoutOne<T>(s: seq<T>, k: nat)
    requires Distinct(s) && k < |s|
    ensures Without(s, {s[k]}) == CutAt(s, k)
  {
    var x := s[k];
    hide Without;
    assert s == s[..k] + ([x] + s[k + 1..]);
    WithoutEvery([x], {x});
    WithoutConcat(s[..k], [x] + s[k + 1..], {x});
    WithoutConcat([x], s[k + 1..], {x});
    WithoutNone(s[..k], {x});
    WithoutNone(s[k + 1..], {x});
    assert s[..k] + s[k + 1..] == CutAt(s, k);
  }

  lemma {:induction false} WithoutTwice<T>(s: seq<T>, a: set<T>, b: set<T>)
    ensures Without(Without(s, a), b) == Without(s, a + b)
  {
    if s != [] {
      WithoutTwice(s[1..], a, b);
      if s[0] !in a {
        assert ([s[0]] + Without(s[1..], a))[1..] == Without(s[1..], a);
      }
    }
  }

  lemma WithoutAllTwice<T>(cs: seq<seq<T>>, a: set<T>, b: set<T>)
    ensures WithoutAll(WithoutAll(cs, a), b) == WithoutAll(cs, a + b)
  {
    forall i | 0 <= i < |cs| ensures Without(Without(cs[i], a), b) == Without(cs[i], a + b) {
      WithoutTwice(cs[i], a, b);
    }
  }

  lemma WithoutAllNone<T>(cs: seq<seq<T>>)
    ensures WithoutAll(cs, {}) == cs
  {
    forall i | 0 <= i < |cs| ensures Without(cs[i], {}) == cs[i] {
      WithoutNone(cs[i], {});
    }
  }

  /** The elements of `dead` among the first `i` of `s`. */
  ghost function Taken<T>(s: seq<T>, dead: set<T>, i: nat): set<T>
    requires i <= |s|
  {
    set j | 0 <= j < i && s[j] in dead :: s[j]
  }

  lemma TakenNext<T>(s: seq<T>, dead: set<T>, i: nat)
    requires i < |s|
    ensures Taken(s, dead, i + 1) == if s[i] in dead then Taken(s, dead, i) + {s[i]} else Taken(s, dead, i)
  {
  }

  lemma TakenAll<T>(s: seq<T>, dead: set<T>)
    requires forall x :: x in dead ==> x in s
    ensures Taken(s, dead, |s|) == dead
  {
  }

  /** Moving an element to the end changes neither the length nor the membership. */
  lemma MovedToEnd<T>(s: seq<T>, k: nat)
    requires Distinct(s) && k < |s|
    ensures var r := Without(s, {s[k]}) + [s[k]]; |r| == |s| && forall x :: Others(r, x) == Others(s, x)
  {
    WithoutOne(s, k);
    CutDistinct(s, k);
  }

  lemma {:induction false} DistinctSize<T>(s: seq<T>)
    requires Distinct(s)
    ensures |set x | x in s| == |s|
    decreases |s|
  {
    if s != [] {
      var r := CutAt(s, 0);
      CutDistinct(s, 0);
      DistinctSize(r);
      assert (set x | x in s) == (set x | x in r) + {s[0]};
    }
  }

  /** When the elements to drop are a run after the first one, what stays is the first one and the rest. */
  lemma WithoutRun<T>(s: seq<T>, dead: set<T>, i: nat)
    requires 0 < i <= |s| && s[0] !in dead
    requires forall j :: 0 < j < i ==> s[j] in dead
    requires forall j :: i <= j < |s| ==> s[j] !in dead
    ensures Without(s, dead) == [s[0]] + s[i..]
  {
    RunParts(s, dead, i);
    hide Without;
    WithoutFirst(s, dead);
    WithoutConcat(s[1..i], s[i..], dead);
    WithoutEvery(s[1..i], dead);
    WithoutNone(s[i..], dead);
    assert [] + s[i..] == s[i..];
  }

  lemma RunParts<T>(s: seq<T>, dead: set<T>, i: nat)
    requires 0 < i <= |s|
    requires forall j :: 0 < j < i ==> s[j] in dead
    requires forall j :: i <= j < |s| ==> s[j] !in dead
    ensures (forall x :: x in s[1..i] ==> x in dead) && (forall x :: x in s[i..] ==> x !in dead)
    ensures s[1..] == s[1..i] + s[i..]
  {
  }

  lemma {:induction false} WithoutEvery<T>(s: seq<T>, dead: set<T>)
    requires forall x :: x in s ==> x in dead
    ensures Without(s, dead) == []
  {
    if s != [] {
      WithoutEvery(s[1..], dead);
    }
  }

  /** The elements of `s` from index `i` on. */
  ghost function From<T>(s: seq<T>, i: nat): set<T> {
    set j | i <= j < |s| :: s[j]
  }

  lemma FromNext<T>(s: seq<T>, i: nat)
    requires Distinct(s) && i < |s|
    ensures s[i] in From(s, i) && From(s, i + 1) == From(s, i) - {s[i]}
  {
    forall j | i < j < |s| ensures s[j] != s[i] {
      assert IndexOf(s, s[j]) == j && IndexOf(s, s[i]) == i;
    }
  }

  lemma TakenRun<T>(s: seq<T>, dead: set<T>, i: nat)
    requires 0 < i <= |s| && s[0] !in dead && forall x :: x in dead ==> x in s
    requires forall j :: i <= j < |s| ==> s[j] !in dead
    ensures Taken(s, dead, i) == dead
  {
  }

  lemma SuffixDistinct<T>(s: seq<T>, i: nat)
    requires Distinct(s) && 0 < i <= |s|
    ensures Distinct([s[0]] + s[i..])
  {
    var r := [s[0]] + s[i..];
    forall j | 0 <= j < |r| ensures IndexOf(r, r[j]) == j {
      var k := IndexOf(r, r[j]);
      assert r[k] == s[if k == 0 then 0 else k + i - 1] && r[j] == s[if j == 0 then 0 else j + i - 1];
    }
  }
}
