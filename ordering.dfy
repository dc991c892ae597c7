/** `OrderByDescending(keySelector)`: a stable descending sort by a key in
    which null sorts below every value. */
module Ordering {
  import opened Text
  import opened Paging

  /** A sort key: null sorts below every value. */
  datatype Key = Lowest | At(x: real)

  predicate KeyLe(a: Key, b: Key) {
    a.Lowest? || (b.At? && a.x <= b.x)
  }

  predicate SortedDescending<T>(key: T -> Key, s: seq<T>) {
    forall i, j :: 0 <= i < j < |s| ==> KeyLe(key(s[j]), key(s[i]))
  }

  /** Puts `x` before the first element whose key is not above its own. */
  function Insert<T>(key: T -> Key, x: T, s: seq<T>): (res: seq<T>)
    requires SortedDescending(key, s)
    ensures SortedDescending(key, res)
    ensures multiset(res) == multiset(s) + multiset{x}
    ensures |res| == |s| + 1
  {
    if |s| == 0 || KeyLe(key(s[0]), key(x)) then
      [x] + s
    else
      var rest := Insert(key, x, s[1..]);
      assert s == [s[0]] + s[1..];
      assert forall y :: y in rest ==> KeyLe(key(y), key(s[0])) by {
        forall y | y in rest ensures KeyLe(key(y), key(s[0])) {
          assert y in multiset(rest);
        }
      }
      [s[0]] + rest
  }

  /** Stable descending sort: elements with equal keys keep their order. */
  function SortDescending<T>(key: T -> Key, s: seq<T>): (res: seq<T>)
    ensures SortedDescending(key, res)
    ensures multiset(res) == multiset(s)
    ensures |res| == |s|
  {
    if |s| == 0 then []
    else
      assert s == [s[0]] + s[1..];
      Insert(key, s[0], SortDescending(key, s[1..]))
  }

  function Reverse<T>(s: seq<T>): (r: seq<T>)
    ensures |r| == |s| && forall i :: 0 <= i < |s| ==> r[i] == s[|s| - 1 - i]
  {
    if |s| == 0 then [] else Reverse(s[1..]) + [s[0]]
  }

  /** An element whose key is below every key of a sorted list goes last. */
  lemma {:induction false} InsertBelowAll<T>(key: T -> Key, x: T, t: seq<T>)
    requires SortedDescending(key, t)
    requires forall i :: 0 <= i < |t| ==> !KeyLe(key(t[i]), key(x))
    ensures Insert(key, x, t) == t + [x]
  {
    if |t| > 0 {
      assert forall i :: 0 <= i < |t[1..]| ==> t[1..][i] == t[i + 1];
      InsertBelowAll(key, x, t[1..]);
      assert t == [t[0]] + t[1..];
    }
  }

  /** A sequence whose keys strictly increase comes back reversed. */
  lemma {:induction false} SortAscendingReverses<T>(key: T -> Key, s: seq<T>)
    requires forall i, j :: 0 <= i < j < |s| ==> !KeyLe(key(s[j]), key(s[i]))
    ensures SortDescending(key, s) == Reverse(s)
  {
    if |s| > 0 {
      var t := s[1..];
      var r := Reverse(t);
      assert SortDescending(key, t) == r by {
        assert forall i :: 0 <= i < |t| ==> t[i] == s[i + 1];
        SortAscendingReverses(key, t);
      }
      assert Insert(key, s[0], r) == r + [s[0]] by {
        forall i | 0 <= i < |r| ensures !KeyLe(key(r[i]), key(s[0])) {
          assert r[i] == s[|t| - i];
        }
        InsertBelowAll(key, s[0], r);
      }
    }
  }

  /** A slice of a sorted sequence is sorted and is a sub-multiset of it. */
  lemma SliceOfSorted<T>(key: T -> Key, s: seq<T>, lo: nat, hi: nat)
    requires lo <= hi <= |s| && SortedDescending(key, s)
    ensures SortedDescending(key, s[lo..hi])
    ensures multiset(s[lo..hi]) <= multiset(s)
  {
    assert s == s[..lo] + s[lo..hi] + s[hi..];
    assert forall i :: 0 <= i < hi - lo ==> s[lo..hi][i] == s[lo + i];
  }

  /** A window of a sorted sequence is sorted and is a sub-multiset of it. */
  lemma WindowOfSorted<T>(key: T -> Key, s: seq<T>, page: Int32, pageSize: Int32)
    requires SortedDescending(key, s)
    ensures SortedDescending(key, Window(s, page, pageSize))
    ensures multiset(Window(s, page, pageSize)) <= multiset(s)
  {
    var lo := Clamp(Offset(page, pageSize), |s|);
    var hi := lo + Clamp(pageSize, |s| - lo);
    WindowIsSlice(s, page, pageSize);
    SliceOfSorted(key, s, lo, hi);
    assert Window(s, page, pageSize) == s[lo..hi];
  }
}
