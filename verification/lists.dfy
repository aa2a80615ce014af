/**
 * Sequence views of the two intrusive linked lists of the cache: a bucket chain
 * (`nextInBucket`) and the ordering list (`nextInList`), both read from their head.
 */
module Lists {
  import opened Outcomes

  /** No element occurs twice. */
  predicate NoDup<T(==)>(s: seq<T>)
  {
    forall i, j :: 0 <= i < j < |s| ==> s[i] != s[j]
  }

  /** A list with a fresh element in front is duplicate-free exactly when the tail is. */
  lemma NoDupCons<T>(x: T, s: seq<T>)
    ensures NoDup([x] + s) <==> x !in s && NoDup(s)
  {
    var t := [x] + s;
    if x !in s && NoDup(s) {
      forall i, j | 0 <= i < j < |t|
        ensures t[i] != t[j]
      {
        if i > 0 {
          assert t[i] == s[i - 1] && t[j] == s[j - 1];
        } else {
          assert t[j] == s[j - 1];
        }
      }
    }
    if NoDup(t) {
      forall j | 0 <= j < |s|
        ensures s[j] != x
      {
        assert t[0] != t[j + 1];
      }
      forall i, j | 0 <= i < j < |s|
        ensures s[i] != s[j]
      {
        assert t[i + 1] != t[j + 1];
      }
    }
  }

  /** Dropping the last element keeps a list duplicate-free, and the dropped element is not left behind. */
  lemma NoDupDropLast<T>(s: seq<T>)
    requires NoDup(s) && |s| >= 1
    ensures NoDup(s[..|s| - 1]) && s[|s| - 1] !in s[..|s| - 1]
  {
  }

  /**
   * Unlinking x (`collapseList` / `collapseBucket`): the list with the first
   * occurrence of x removed and every other element kept in order.
   */
  function Remove<T(==)>(s: seq<T>, x: T): (r: seq<T>)
    ensures x !in s ==> r == s
    ensures x in s ==> |r| == |s| - 1
    ensures forall y :: y in r ==> y in s
    ensures forall y :: y in s && y != x ==> y in r
    ensures NoDup(s) ==> NoDup(r) && x !in r
  {
    if s == [] then []
    else if s[0] == x then
      NoDupCons(s[0], s[1..]);
      assert s == [s[0]] + s[1..];
      s[1..]
    else
      var rest := Remove(s[1..], x);
      assert s == [s[0]] + s[1..];
      NoDupCons(s[0], s[1..]);
      NoDupCons(s[0], rest);
      [s[0]] + rest
  }

  /** Unlinking the last element of a list in which it occurs once leaves the rest. */
  lemma {:induction false} RemoveLast<T>(s: seq<T>, x: T)
    requires x !in s
    ensures Remove(s + [x], x) == s
  {
    if s != [] {
      assert (s + [x])[1..] == s[1..] + [x];
      RemoveLast(s[1..], x);
      assert s == [s[0]] + s[1..];
    }
  }

  /** Removing an element that stands at position i cuts exactly that position out. */
  lemma {:induction false} RemoveAt<T>(s: seq<T>, i: nat)
    requires i < |s| && NoDup(s)
    ensures Remove(s, s[i]) == s[..i] + s[i + 1..]
  {
    if i > 0 {
      assert NoDup(s[1..]) by {
        NoDupCons(s[0], s[1..]);
        assert s == [s[0]] + s[1..];
      }
      assert s[0] != s[i];
      RemoveAt(s[1..], i - 1);
      assert s[1..][i - 1] == s[i];
      assert s[1..][..i - 1] + s[1..][i..] == s[1..i] + s[i + 1..];
      assert [s[0]] + s[1..i] == s[..i];
    }
  }

  /**
   * `tryExisted`'s walk along a bucket chain: the position of the first element
   * equal to key, or None when the walk runs off the end of the chain.
   */
  function FindInChain<T(==)>(chain: seq<T>, key: T): (r: Option<nat>)
    ensures r.None? <==> key !in chain
    ensures r.Some? ==> r.value < |chain| && chain[r.value] == key && key !in chain[..r.value]
  {
    if chain == [] then None
    else if chain[0] == key then Some(0)
    else
      match FindInChain(chain[1..], key)
      case None => None
      case Some(i) =>
        assert chain[..i + 1] == [chain[0]] + chain[1..][..i];
        Some(i + 1)
  }

  /**
   * The loop of `tryExisted` as written: step along `nextInBucket` while the entry's
   * key differs, stopping at the first match or at the end of the chain.
   */
  method WalkChain<T(==)>(chain: seq<T>, key: T) returns (r: Option<nat>)
    ensures r.None? <==> key !in chain
    ensures r.Some? ==> r.value < |chain| && chain[r.value] == key && key !in chain[..r.value]
    ensures r == FindInChain(chain, key)
  {
    var i := 0;
    while i < |chain| && chain[i] != key
      invariant 0 <= i <= |chain|
      invariant key !in chain[..i]
    {
      assert chain[..i + 1] == chain[..i] + [chain[i]];
      i := i + 1;
    }
    if i < |chain| {
      r := Some(i);
    } else {
      assert chain[..i] == chain;
      r := None;
    }
  }

  /**
   * Moving an element of the first m positions to the front and cutting to m:
   * unlinking it from the prefix equals cutting the unlinked list one shorter.
   */
  lemma {:induction false} RemoveInPrefix<T>(s: seq<T>, x: T, m: nat)
    requires NoDup(s) && 1 <= m <= |s| && x in s[..m]
    ensures Remove(s[..m], x) == Remove(s, x)[..m - 1]
  {
    var t := s[1..];
    assert s[..m] == [s[0]] + t[..m - 1];
    if s[0] != x {
      assert s == [s[0]] + t;
      NoDupCons(s[0], t);
      assert x in t[..m - 1];
      RemoveInPrefix(t, x, m - 1);
      var rt := Remove(t, x);
      assert Remove(s[..m], x) == [s[0]] + Remove(t[..m - 1], x);
      assert Remove(s, x) == [s[0]] + rt;
      assert ([s[0]] + rt)[..m - 1] == [s[0]] + rt[..m - 2];
    }
  }

  /** Unlinking an element that lies beyond the first m positions leaves those m positions alone. */
  lemma {:induction false} RemoveBeyondPrefix<T>(s: seq<T>, x: T, m: nat)
    requires m <= |s| && x !in s[..m]
    ensures |Remove(s, x)| >= m && Remove(s, x)[..m] == s[..m]
  {
    if m > 0 {
      assert s[0] == s[..m][0];
      assert s[..m][1..] == s[1..][..m - 1];
      RemoveBeyondPrefix(s[1..], x, m - 1);
      assert s[..m] == [s[0]] + s[1..][..m - 1];
    }
  }

  /** The elements of a list, as a set. */
  function Elems<T>(s: seq<T>): set<T>
  {
    set x | x in s
  }

  /** A duplicate-free list has as many distinct elements as positions. */
  lemma {:induction false} ElemsOfNoDup<T>(s: seq<T>)
    requires NoDup(s)
    ensures |Elems(s)| == |s|
  {
    if s != [] {
      assert s == [s[0]] + s[1..];
      NoDupCons(s[0], s[1..]);
      ElemsOfNoDup(s[1..]);
      assert Elems(s) == {s[0]} + Elems(s[1..]);
    }
  }
}
