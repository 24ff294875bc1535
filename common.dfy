/** Sequence vocabulary and the Option/Result wrappers shared by the other modules. */
module Common {

  /** No element occurs twice. */
  predicate Distinct<T(==)>(s: seq<T>) {
    forall i, j :: 0 <= i < j < |s| ==> s[i] != s[j]
  }

  /** `xs` can be obtained from `ys` by deleting elements (order is kept). */
  predicate Subseq<T(==)>(xs: seq<T>, ys: seq<T>)
    decreases |ys|
  {
    if xs == [] then true
    else if ys == [] then false
    else if xs[0] == ys[0] then Subseq(xs[1..], ys[1..])
    else Subseq(xs, ys[1..])
  }

  lemma {:induction false} SubseqMembers<T>(xs: seq<T>, ys: seq<T>)
    requires Subseq(xs, ys)
    ensures |xs| <= |ys|
    ensures forall x :: x in xs ==> x in ys
    decreases |ys|
  {
    if xs != [] && ys != [] {
      if xs[0] == ys[0] {
        SubseqMembers(xs[1..], ys[1..]);
        forall x | x in xs ensures x in ys {
          if x != xs[0] { assert x in xs[1..]; }
        }
      } else {
        SubseqMembers(xs, ys[1..]);
      }
    }
  }

  /** Deleting elements keeps a sequence free of repetitions. */
  lemma {:induction false} SubseqDistinct<T>(xs: seq<T>, ys: seq<T>)
    requires Subseq(xs, ys) && Distinct(ys)
    ensures Distinct(xs)
    decreases |ys|
  {
    if xs != [] && ys != [] {
      assert Distinct(ys[1..]) by {
        forall i, j | 0 <= i < j < |ys| - 1 ensures ys[1..][i] != ys[1..][j] {
          assert ys[i + 1] != ys[j + 1];
        }
      }
      if xs[0] == ys[0] {
        SubseqDistinct(xs[1..], ys[1..]);
        SubseqMembers(xs[1..], ys[1..]);
        forall i, j | 0 <= i < j < |xs| ensures xs[i] != xs[j] {
          if i == 0 {
            assert xs[j] in ys[1..] by { assert xs[j] == xs[1..][j - 1]; }
            forall k | 0 <= k < |ys| - 1 ensures ys[1..][k] != ys[0] {
              assert ys[k + 1] != ys[0];
            }
          } else {
            assert xs[1..][i - 1] != xs[1..][j - 1];
          }
        }
      } else {
        SubseqDistinct(xs, ys[1..]);
      }
    }
  }

  /** Java's `List.remove(Object)`: drop the first occurrence, if any. */
  function RemoveFirst<T(==)>(s: seq<T>, x: T): (r: seq<T>)
    ensures x !in s ==> r == s
    ensures x in s ==> |r| == |s| - 1
    ensures forall y :: y in r ==> y in s
    ensures forall y :: y in s && y != x ==> y in r
  {
    if s == [] then []
    else if s[0] == x then s[1..]
    else [s[0]] + RemoveFirst(s[1..], x)
  }

  /** The element removed is the first occurrence, and the others keep their
      order: removing `x` whose first occurrence is at `i` cuts out exactly
      position `i`. */
  lemma {:induction false} RemoveFirstCutsFirst<T>(s: seq<T>, x: T, i: nat)
    requires i < |s| && s[i] == x && x !in s[..i]
    ensures RemoveFirst(s, x) == s[..i] + s[i + 1..]
  {
    if i > 0 {
      assert s[0] != x by { assert s[0] == s[..i][0]; }
      assert x !in s[1..][..i - 1] by { assert s[1..][..i - 1] == s[1..i]; }
      RemoveFirstCutsFirst(s[1..], x, i - 1);
      assert s[..i] == [s[0]] + s[1..][..i - 1];
      assert s[i + 1..] == s[1..][i..];
    }
  }

  lemma {:induction false} RemoveFirstDistinct<T>(s: seq<T>, x: T)
    requires Distinct(s)
    ensures x !in RemoveFirst(s, x)
    ensures Distinct(RemoveFirst(s, x))
  {
    if s != [] && s[0] != x {
      RemoveFirstDistinct(s[1..], x);
      var r := RemoveFirst(s, x);
      assert r == [s[0]] + RemoveFirst(s[1..], x);
      forall i, j | 0 <= i < j < |r| ensures r[i] != r[j] {
        if i == 0 {
          assert r[j] in RemoveFirst(s[1..], x);
          assert r[j] in s[1..];
        }
      }
    }
  }

  /** The elements satisfying `p`, in their original order (a stream `filter`). */
  function Filter<T>(s: seq<T>, p: T -> bool): (r: seq<T>)
    ensures |r| <= |s|
    ensures forall i :: 0 <= i < |r| ==> r[i] in s && p(r[i])
    ensures forall i :: 0 <= i < |s| && p(s[i]) ==> s[i] in r
  {
    if s == [] then []
    else
      var init, last := s[..|s| - 1], s[|s| - 1];
      assert s == init + [last];
      Filter(init, p) + (if p(last) then [last] else [])
  }

  lemma FilterMembers<T>(s: seq<T>, p: T -> bool)
    ensures forall x :: x in Filter(s, p) <==> x in s && p(x)
  {
    var r := Filter(s, p);
    forall x | x in r ensures x in s && p(x) {
      var i :| 0 <= i < |r| && r[i] == x;
    }
    forall x | x in s && p(x) ensures x in r {
      var i :| 0 <= i < |s| && s[i] == x;
    }
  }

  lemma FilterSnoc<T>(s: seq<T>, x: T, p: T -> bool)
    ensures Filter(s + [x], p) == Filter(s, p) + (if p(x) then [x] else [])
  {
    assert (s + [x])[..|s|] == s;
  }

  /** A sequence without repetitions is no longer than any sequence holding all its elements. */
  lemma DistinctLengthBound<T>(s: seq<T>, t: seq<T>)
    requires Distinct(s)
    requires forall x :: x in s ==> x in t
    ensures |s| <= |t|
  {
    var a, b := set x | x in s, set x | x in t;
    DistinctCard(s);
    CardBound(t);
    assert b == a + (b - a);
  }

  lemma {:induction false} DistinctCard<T>(s: seq<T>)
    requires Distinct(s)
    ensures |set x | x in s| == |s|
  {
    if s != [] {
      var init, last := s[..|s| - 1], s[|s| - 1];
      assert s == init + [last];
      DistinctCard(init);
      assert (set x | x in s) == (set x | x in init) + {last};
      assert last !in init;
    }
  }

  lemma {:induction false} CardBound<T>(s: seq<T>)
    ensures |set x | x in s| <= |s|
  {
    if s != [] {
      var init, last := s[..|s| - 1], s[|s| - 1];
      assert s == init + [last];
      CardBound(init);
      assert (set x | x in s) == (set x | x in init) + {last};
    }
  }

  /** Java's `Map.putIfAbsent`: an existing entry is kept. */
  function PutIfAbsent<K, V>(m: map<K, V>, k: K, v: V): (r: map<K, V>)
    ensures k in r && r.Keys == m.Keys + {k}
    ensures r[k] == (if k in m then m[k] else v)
    ensures forall j :: j in m && j != k ==> r[j] == m[j]
  {
    if k in m then m else m[k := v]
  }

  /** Of two registrations under one key, the first one stays. */
  lemma FirstRegistrationWins<K, V>(m: map<K, V>, k: K, first: V, second: V)
    requires k !in m
    ensures PutIfAbsent(PutIfAbsent(m, k, first), k, second)[k] == first
    ensures PutIfAbsent(PutIfAbsent(m, k, first), k, second) == m[k := first]
  {
  }

  /** Overwriting an entry is invisible once the entry is taken out. */
  lemma UpdateHidden<K, V>(m: map<K, V>, k: K, v: V)
    ensures m[k := v] - {k} == m - {k}
  {
    assert forall j :: j in m[k := v] - {k} <==> j in m - {k};
  }

  /** Two maps that agree away from `k` agree everywhere once `k` is set. */
  lemma AgreeAfterUpdate<K, V>(a: map<K, V>, b: map<K, V>, k: K, v: V)
    requires a - {k} == b - {k}
    ensures a[k := v] == b[k := v]
  {
    forall j | j != k ensures (j in a <==> j in b) && (j in a ==> a[j] == b[j]) {
      assert j in a <==> j in a - {k};
      assert j in b <==> j in b - {k};
      if j in a { assert a[j] == (a - {k})[j]; }
    }
  }

  /** Java's `Optional`, and a nullable reference, as a value. */
  datatype Option<+T> = None | Some(value: T)

  /** The present values among `os`, in order. */
  function Somes<T>(os: seq<Option<T>>): (r: seq<T>)
    ensures |r| <= |os|
  {
    if os == [] then []
    else Somes(os[..|os| - 1]) + (if os[|os| - 1].Some? then [os[|os| - 1].value] else [])
  }

  /** A value or the exception that a Java method would have thrown instead. */
  datatype Result<+T, +E> = Ok(value: T) | Err(error: E)

  function Get<K, V>(m: map<K, V>, k: K): (r: Option<V>)
    ensures r.Some? <==> k in m
    ensures r.Some? ==> r.value == m[k]
  {
    if k in m then Some(m[k]) else None
  }
}
