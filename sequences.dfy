/** Facts about strictly ascending integer sequences, the shape of an in-order traversal. */
module Sequences {

  ghost predicate StrictlyAscending(s: seq<int>)
  {
    forall i, j :: 0 <= i < j < |s| ==> s[i] < s[j]
  }

  /** Two strictly ascending sequences holding the same values are the same sequence. */
  lemma {:induction false} AscendingUnique(a: seq<int>, b: seq<int>)
    requires StrictlyAscending(a) && StrictlyAscending(b)
    requires forall k :: k in a <==> k in b
    ensures a == b
    decreases |a|
  {
    if a != [] { assert a[0] in a; }
    if b != [] { assert b[0] in b; }
    if a != [] && b != [] {
      assert a[0] == b[0] by {
        var i :| 0 <= i < |a| && a[i] == b[0];
        var j :| 0 <= j < |b| && b[j] == a[0];
        assert a[0] <= a[i];
        assert b[0] <= b[j];
      }
      forall k ensures k in a[1..] <==> k in b[1..] {
        TailMembers(a, k);
        TailMembers(b, k);
      }
      AscendingUnique(a[1..], b[1..]);
      assert a == [a[0]] + a[1..];
      assert b == [b[0]] + b[1..];
    }
  }

  /** A value lies in the tail of a non-empty strictly ascending sequence exactly when it lies in the sequence and is not its head. */
  lemma TailMembers(s: seq<int>, k: int)
    requires StrictlyAscending(s) && s != []
    ensures k in s[1..] <==> k in s && k != s[0]
  {
  }

  lemma TailAscending(s: seq<int>)
    requires StrictlyAscending(s) && s != []
    ensures StrictlyAscending(s[1..])
  {
  }

  /** Prefixing a value below every element keeps a sequence strictly ascending. */
  lemma ConsAscending(x: int, w: seq<int>)
    requires StrictlyAscending(w)
    requires forall k :: k in w ==> x < k
    ensures StrictlyAscending([x] + w)
  {
    var s := [x] + w;
    forall i, j | 0 <= i < j < |s| ensures s[i] < s[j] {
      assert s[j] == w[j - 1] && w[j - 1] in w;
      if i > 0 { assert s[i] == w[i - 1]; }
    }
  }

  /** The sequence with every occurrence of v taken out. */
  function Without(s: seq<int>, v: int): (r: seq<int>)
    ensures forall k :: k in r <==> k in s && k != v
    ensures |r| <= |s|
  {
    if s == [] then []
    else if s[0] == v then Without(s[1..], v)
    else [s[0]] + Without(s[1..], v)
  }

  lemma {:induction false} WithoutAscending(s: seq<int>, v: int)
    requires StrictlyAscending(s)
    ensures StrictlyAscending(Without(s, v))
  {
    if s != [] {
      TailAscending(s);
      WithoutAscending(s[1..], v);
      var w := Without(s[1..], v);
      forall k | k in w ensures s[0] < k {
        var i :| 0 <= i < |s| - 1 && s[1..][i] == k;
      }
      ConsAscending(s[0], w);
    }
  }

  /** Places v at its ordered position in an ascending sequence, unless v is already there. */
  function InsertSorted(s: seq<int>, v: int): (r: seq<int>)
    ensures forall k :: k in r <==> k in s || k == v
  {
    if s == [] then [v]
    else if v < s[0] then [v] + s
    else if v == s[0] then s
    else [s[0]] + InsertSorted(s[1..], v)
  }

  lemma {:induction false} InsertSortedAscending(s: seq<int>, v: int)
    requires StrictlyAscending(s)
    ensures StrictlyAscending(InsertSorted(s, v))
  {
    if s != [] && v < s[0] {
      ConsAscending(v, s);
    } else if s != [] && v > s[0] {
      TailAscending(s);
      InsertSortedAscending(s[1..], v);
      var w := InsertSorted(s[1..], v);
      forall k | k in w ensures s[0] < k {
        if k != v {
          var i :| 0 <= i < |s| - 1 && s[1..][i] == k;
        }
      }
      ConsAscending(s[0], w);
    }
  }
}
