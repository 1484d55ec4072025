/** Small shared vocabulary: optional values and the Java `List` operations the
    library relies on (membership, `add`, `remove(Object)`). */
module Common {

  /** A value that may be absent; stands in for a Java `null` result. */
  datatype Option<T> = None | Some(value: T)

  /** No element occurs twice in the list. */
  predicate NoDup<T(==)>(s: seq<T>) {
    forall i, j :: 0 <= i < j < |s| ==> s[i] != s[j]
  }

  /** The elements of a list, as a set. */
  function Elems<T>(s: seq<T>): set<T> {
    set x | x in s
  }

  /** A duplicate-free list has as many elements as its element set. */
  lemma {:induction false} NoDupCard<T>(s: seq<T>)
    ensures NoDup(s) ==> |Elems(s)| == |s|
  {
    if NoDup(s) && |s| > 0 {
      var init := s[..|s| - 1];
      assert NoDup(init) by {
        forall a, b | 0 <= a < b < |init| ensures init[a] != init[b] {
          assert init[a] == s[a] && init[b] == s[b];
        }
      }
      NoDupCard(init);
      assert s == init + [s[|s| - 1]];
      assert s[|s| - 1] !in init by {
        forall k | 0 <= k < |init| ensures init[k] != s[|s| - 1] {
          assert init[k] == s[k];
        }
      }
      assert Elems(s) == Elems(init) + {s[|s| - 1]};
    }
  }

  /** Index of the first occurrence of `x` in `s` (which must contain it). */
  function FirstIndex<T(==)>(s: seq<T>, x: T): (i: nat)
    requires x in s
    ensures i < |s| && s[i] == x
    ensures forall j :: 0 <= j < i ==> s[j] != x
  {
    if s[0] == x then 0 else 1 + FirstIndex(s[1..], x)
  }

  /** Java's `List.remove(Object)`: drops the first occurrence of `x`, if any. */
  function RemoveFirst<T(==)>(s: seq<T>, x: T): (r: seq<T>)
    ensures x !in s ==> r == s
    ensures x in s ==> r == s[..FirstIndex(s, x)] + s[FirstIndex(s, x) + 1..]
  {
    if |s| == 0 then s
    else if s[0] == x then s[1..]
    else
      var rest := RemoveFirst(s[1..], x);
      assert x in s ==> x in s[1..];
      assert x in s ==> (var j := FirstIndex(s[1..], x);
        s[..j + 1] == [s[0]] + s[1..][..j] && s[j + 2..] == s[1..][j + 1..]);
      [s[0]] + rest
  }

  /** Element-wise view of a list with position `i` dropped. */
  lemma DropIndexAt<T>(s: seq<T>, i: nat, k: nat)
    requires i < |s| && k < |s| - 1
    ensures (s[..i] + s[i + 1..])[k] == if k < i then s[k] else s[k + 1]
  {
  }

  /** On a duplicate-free list, removing `x` removes exactly `x` from the
      element set and keeps the list duplicate-free. */
  lemma RemoveFirstNoDup<T>(s: seq<T>, x: T)
    requires NoDup(s)
    ensures NoDup(RemoveFirst(s, x))
    ensures Elems(RemoveFirst(s, x)) == Elems(s) - {x}
    ensures |RemoveFirst(s, x)| <= |s|
  {
    if x in s {
      var i := FirstIndex(s, x);
      var r := s[..i] + s[i + 1..];
      assert RemoveFirst(s, x) == r;
      assert |r| == |s| - 1;
      forall a, b | 0 <= a < b < |r| ensures r[a] != r[b] {
        DropIndexAt(s, i, a);
        DropIndexAt(s, i, b);
      }
      forall y | y in r ensures y in s && y != x {
        var k :| 0 <= k < |r| && r[k] == y;
        DropIndexAt(s, i, k);
      }
      forall y | y in s && y != x ensures y in r {
        var k :| 0 <= k < |s| && s[k] == y;
        if k < i {
          DropIndexAt(s, i, k);
        } else {
          DropIndexAt(s, i, k - 1);
        }
      }
    }
  }

  /** Putting an element that is not yet present in front keeps a list
      duplicate-free. */
  lemma PrependFreshNoDup<T>(x: T, s: seq<T>)
    requires NoDup(s) && x !in s
    ensures NoDup([x] + s)
  {
    var r := [x] + s;
    forall a, b | 0 <= a < b < |r| ensures r[a] != r[b] {
      assert r[b] == s[b - 1];
      if a > 0 { assert r[a] == s[a - 1]; }
    }
  }

  /** Appending an element that is not yet present keeps a list duplicate-free. */
  lemma AppendFreshNoDup<T>(s: seq<T>, x: T)
    requires NoDup(s) && x !in s
    ensures NoDup(s + [x])
    ensures Elems(s + [x]) == Elems(s) + {x}
  {
    var r := s + [x];
    forall a, b | 0 <= a < b < |r| ensures r[a] != r[b] {
      if b == |s| { assert r[a] == s[a]; }
    }
  }
}
