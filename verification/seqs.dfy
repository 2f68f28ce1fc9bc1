/** Sequence facts shared by the operation registry: duplicate-freedom, removal
    of the first occurrence of an element (what `std::find` followed by
    `erase` does on a `std::vector`), and ordering by a key. */
module Seqs {

  /** No element occurs twice. */
  predicate NoDup<T(==)>(s: seq<T>) {
    forall i, j :: 0 <= i < j < |s| ==> s[i] != s[j]
  }

  /** The elements of `s` as a set. */
  function Elements<T>(s: seq<T>): set<T> {
    set x | x in s
  }

  /** Removes the first occurrence of `x`; leaves `s` alone when `x` is absent. */
  function RemoveFirst<T(==)>(s: seq<T>, x: T): (r: seq<T>)
    ensures x !in s ==> r == s
    ensures x in s ==> |r| == |s| - 1
    ensures multiset(r) == multiset(s) - multiset{x}
  {
    if |s| == 0 then s
    else
      assert s == [s[0]] + s[1..];
      if s[0] == x then s[1..]
      else [s[0]] + RemoveFirst(s[1..], x)
  }

  /** The tail of a duplicate-free sequence is duplicate-free and lacks the head. */
  lemma NoDupTail<T>(s: seq<T>)
    requires NoDup(s) && |s| > 0
    ensures NoDup(s[1..]) && s[0] !in s[1..]
  {
    forall i, j | 0 <= i < j < |s[1..]| ensures s[1..][i] != s[1..][j] {
      assert s[1..][i] == s[i + 1] && s[1..][j] == s[j + 1];
    }
    forall k | 0 <= k < |s[1..]| ensures s[1..][k] != s[0] {
      assert s[1..][k] == s[k + 1];
    }
  }

  /** Prefixing a fresh element keeps a sequence duplicate-free. */
  lemma NoDupCons<T>(x: T, s: seq<T>)
    requires NoDup(s) && x !in s
    ensures NoDup([x] + s)
  {
    var t := [x] + s;
    forall i, j | 0 <= i < j < |t| ensures t[i] != t[j] {
      assert t[j] == s[j - 1];
      if i > 0 {
        assert t[i] == s[i - 1];
      }
    }
  }

  /** On a duplicate-free sequence, removing `x` removes exactly `x` and keeps
      the sequence duplicate-free. */
  lemma {:induction false} RemoveFirstDistinct<T>(s: seq<T>, x: T)
    requires NoDup(s)
    ensures NoDup(RemoveFirst(s, x))
    ensures forall y :: y in RemoveFirst(s, x) <==> y in s && y != x
  {
    if |s| > 0 {
      NoDupTail(s);
      assert s == [s[0]] + s[1..];
      if s[0] != x {
        RemoveFirstDistinct(s[1..], x);
        NoDupCons(s[0], RemoveFirst(s[1..], x));
      }
    }
  }

  /** Removing an element that is absent from the prefix, from a sequence
      that ends with it, drops exactly that last element. */
  lemma {:induction false} RemoveFirstOfAppended<T>(s: seq<T>, x: T)
    requires x !in s
    ensures RemoveFirst(s + [x], x) == s
  {
    if |s| == 0 {
      assert s + [x] == [x];
    } else {
      assert (s + [x])[1..] == s[1..] + [x];
      assert s[0] != x;
      RemoveFirstOfAppended(s[1..], x);
      assert s == [s[0]] + s[1..];
    }
  }

  /** A duplicate-free sequence has as many distinct elements as entries. */
  lemma {:induction false} DistinctCardinality<T>(s: seq<T>)
    requires NoDup(s)
    ensures |Elements(s)| == |s|
  {
    if |s| > 0 {
      NoDupTail(s);
      DistinctCardinality(s[1..]);
      assert s == [s[0]] + s[1..];
      assert Elements(s) == {s[0]} + Elements(s[1..]);
    }
  }

  /** Every element of `s` has a key, and keys strictly increase along `s`. */
  predicate IncreasingBy<T>(s: seq<T>, key: map<T, nat>) {
    && (forall i :: 0 <= i < |s| ==> s[i] in key)
    && (forall i, j :: 0 <= i < j < |s| ==> key[s[i]] < key[s[j]])
  }

  /** The tail of a key-ordered sequence is key-ordered, and every key in it
      exceeds the head's. */
  lemma IncreasingTail<T>(s: seq<T>, key: map<T, nat>)
    requires IncreasingBy(s, key) && |s| > 0
    ensures IncreasingBy(s[1..], key)
    ensures forall y :: y in s[1..] ==> y in key && key[s[0]] < key[y]
  {
    var tail := s[1..];
    forall i, j | 0 <= i < j < |tail| ensures key[tail[i]] < key[tail[j]] {
      assert tail[i] == s[i + 1] && tail[j] == s[j + 1];
    }
    forall y | y in tail ensures y in key && key[s[0]] < key[y] {
      var k :| 0 <= k < |tail| && tail[k] == y;
      assert s[k + 1] == y;
    }
  }

  /** Prefixing an element whose key is below every key of an ordered
      sequence keeps it ordered. */
  lemma IncreasingCons<T>(x: T, s: seq<T>, key: map<T, nat>)
    requires IncreasingBy(s, key) && x in key
    requires forall y :: y in s ==> key[x] < key[y]
    ensures IncreasingBy([x] + s, key)
  {
    var t := [x] + s;
    forall i, j | 0 <= i < j < |t| ensures key[t[i]] < key[t[j]] {
      assert t[j] == s[j - 1];
      if i > 0 {
        assert t[i] == s[i - 1];
      }
    }
    forall i | 0 <= i < |t| ensures t[i] in key {
      if i > 0 {
        assert t[i] == s[i - 1];
      }
    }
  }

  /** Removing an element keeps a key-ordered sequence ordered. */
  lemma {:induction false} RemoveFirstKeepsOrder<T>(s: seq<T>, x: T, key: map<T, nat>)
    requires IncreasingBy(s, key)
    ensures IncreasingBy(RemoveFirst(s, x), key)
  {
    if |s| > 0 {
      IncreasingTail(s, key);
      if s[0] != x {
        RemoveFirstKeepsOrder(s[1..], x, key);
        var r := RemoveFirst(s[1..], x);
        assert forall y :: y in r ==> y in s[1..] by {
          forall y | y in r ensures y in s[1..] {
            assert y in multiset(r);
          }
        }
        IncreasingCons(s[0], r, key);
      }
    }
  }

  /** Moving a listed element to the back with a key above every other
      keeps a duplicate-free, key-ordered sequence ordered. */
  lemma MoveToBackKeepsOrder<T>(s: seq<T>, x: T, key: map<T, nat>, now: nat)
    requires NoDup(s) && IncreasingBy(s, key) && x in s
    requires forall i :: 0 <= i < |s| ==> key[s[i]] < now
    ensures IncreasingBy(RemoveFirst(s, x) + [x], key[x := now])
  {
    var rest := RemoveFirst(s, x);
    var key' := key[x := now];
    RemoveFirstDistinct(s, x);
    RemoveFirstKeepsOrder(s, x, key);
    var t := rest + [x];
    forall i | 0 <= i < |rest| ensures rest[i] in key && rest[i] != x && key[rest[i]] < now {
      assert rest[i] in rest;
      var k :| 0 <= k < |s| && s[k] == rest[i];
    }
    forall i, j | 0 <= i < j < |t| ensures key'[t[i]] < key'[t[j]] {
      assert t[i] == rest[i];
      if j < |rest| {
        assert t[j] == rest[j];
      }
    }
    forall i | 0 <= i < |t| ensures t[i] in key' {
      if i < |rest| {
        assert t[i] == rest[i];
      }
    }
  }

  /** Moving a listed element of a duplicate-free sequence to the back keeps
      the other elements in their order. */
  lemma MoveToBackKeepsOthers<T>(s: seq<T>, x: T)
    ensures NoDup(s) && x in s ==> RemoveFirst(RemoveFirst(s, x) + [x], x) == RemoveFirst(s, x)
  {
    if NoDup(s) && x in s {
      RemoveFirstDistinct(s, x);
      RemoveFirstOfAppended(RemoveFirst(s, x), x);
    }
  }
}
