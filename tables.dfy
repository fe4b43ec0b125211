/**
 * The storage operations the controllers use on a table, modelled on a
 * sequence of rows in storage order: Find by key, Remove, and the unique-key
 * constraint of a primary key or a unique index.
 */
module Tables {
  import opened Wrappers

  /** No two rows agree on key: a primary key or a unique index. */
  ghost predicate Distinct<T, K>(s: seq<T>, key: T -> K)
  {
    forall i, j :: 0 <= i < j < |s| ==> key(s[i]) != key(s[j])
  }

  /** DbSet.Find(id): the position of the row whose key is id, if there is one. */
  function Find<T>(s: seq<T>, key: T -> int, id: int): (r: Option<nat>)
    ensures r.Some? ==> r.value < |s| && key(s[r.value]) == id
    ensures r.None? <==> forall i :: 0 <= i < |s| ==> key(s[i]) != id
  {
    if s == [] then None
    else if key(s[0]) == id then Some(0)
    else
      match Find(s[1..], key, id)
      case None => None
      case Some(k) => Some(k + 1)
  }

  /** Under a unique key, Find locates the only row with that key. */
  lemma FindUnique<T>(s: seq<T>, key: T -> int, i: nat)
    requires Distinct(s, key)
    requires i < |s|
    ensures Find(s, key, key(s[i])) == Some(i)
  {
    forall k | 0 <= k < |s| && key(s[k]) == key(s[i])
      ensures k == i
    {
    }
  }

  /** The table without the row at position i, the other rows in their order. */
  function RemoveAt<T>(s: seq<T>, i: nat): (r: seq<T>)
    requires i < |s|
    ensures |r| == |s| - 1
    ensures forall k :: 0 <= k < i ==> r[k] == s[k]
    ensures forall k :: i <= k < |r| ==> r[k] == s[k + 1]
    ensures multiset(r) == multiset(s) - multiset{s[i]}
  {
    assert s == s[..i] + [s[i]] + s[i + 1..];
    s[..i] + s[i + 1..]
  }

  /** Removing a row keeps every unique key of the table. */
  lemma RemoveKeepsDistinct<T, K>(s: seq<T>, key: T -> K, i: nat)
    requires Distinct(s, key)
    requires i < |s|
    ensures Distinct(RemoveAt(s, i), key)
  {
    var r := RemoveAt(s, i);
    forall a, b | 0 <= a < b < |r| ensures key(r[a]) != key(r[b]) {
      var a' := if a < i then a else a + 1;
      var b' := if b < i then b else b + 1;
      assert r[a] == s[a'] && r[b] == s[b'] && a' < b';
    }
  }

  /** Under a unique key, removing the row with key id removes exactly the rows with key id. */
  lemma RemoveExactlyKey<T>(s: seq<T>, key: T -> int, i: nat)
    requires Distinct(s, key)
    requires i < |s|
    ensures forall x :: x in RemoveAt(s, i) <==> x in s && key(x) != key(s[i])
  {
    var r := RemoveAt(s, i);
    forall x ensures x in r <==> x in s && key(x) != key(s[i]) {
      if x in r {
        var a :| 0 <= a < |r| && r[a] == x;
        var a' := if a < i then a else a + 1;
        assert x == s[a'] && a' != i;
        if a' < i {
          assert key(s[a']) != key(s[i]);
        } else {
          assert key(s[i]) != key(s[a']);
        }
      }
      if x in s && key(x) != key(s[i]) {
        var a :| 0 <= a < |s| && s[a] == x;
        assert a != i;
        if a < i {
          assert r[a] == x;
        } else {
          assert r[a - 1] == x;
        }
      }
    }
  }

  /** Replacing a row by one with the same key keeps that key unique. */
  lemma ReplaceKeepsDistinct<T>(s: seq<T>, key: T -> int, i: nat, x: T)
    requires Distinct(s, key)
    requires i < |s| && key(x) == key(s[i])
    ensures Distinct(s[i := x], key)
  {
  }

  /** Appending a row whose key no row has keeps that key unique. */
  lemma AppendKeepsDistinct<T, K>(s: seq<T>, key: T -> K, x: T)
    requires Distinct(s, key)
    requires forall i :: 0 <= i < |s| ==> key(s[i]) != key(x)
    ensures Distinct(s + [x], key)
  {
    var r := s + [x];
    forall a, b | 0 <= a < b < |r| ensures key(r[a]) != key(r[b]) {
      assert r[a] == s[a];
    }
  }
}
