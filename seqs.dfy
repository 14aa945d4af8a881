/** Sequence facts shared by the deck partitioner and the round engine. */
module Seqs {

  /** `s` with the element at index `i` spliced out, keeping the order of the
      rest: Go's `append(s[:i], s[i+1:]...)`. */
  function RemoveAt<T>(s: seq<T>, i: int): (r: seq<T>)
    requires 0 <= i < |s|
    ensures |r| == |s| - 1
    ensures forall j :: 0 <= j < i ==> r[j] == s[j]
    ensures forall j :: i <= j < |r| ==> r[j] == s[j + 1]
    ensures multiset(r) + multiset{s[i]} == multiset(s)
  {
    assert s == s[..i] + [s[i]] + s[i + 1..];
    s[..i] + s[i + 1..]
  }

  /** All the sequences of `d` laid end to end, in order. */
  function Concat<T>(d: seq<seq<T>>): seq<T>
  {
    if |d| == 0 then [] else Concat(d[..|d| - 1]) + d[|d| - 1]
  }

  lemma ConcatSnoc<T>(d: seq<seq<T>>, k: int)
    requires 0 < k <= |d|
    ensures Concat(d[..k]) == Concat(d[..k - 1]) + d[k - 1]
  {
    assert d[..k][..k - 1] == d[..k - 1];
  }

  lemma {:induction false} ConcatCons<T>(x: seq<T>, d: seq<seq<T>>)
    ensures Concat([x] + d) == x + Concat(d)
    decreases |d|
  {
    if |d| == 0 {
      assert [x] + d == [x];
      assert [x][..0] == [];
    } else {
      var init := d[..|d| - 1];
      assert ([x] + d)[..|d|] == [x] + init;
      ConcatCons(x, init);
    }
  }

  /** `a` can be obtained from `b` by deleting elements: the relative order of
      what is left is that of `b`. */
  predicate Subseq<T(==)>(a: seq<T>, b: seq<T>)
    decreases |b|
  {
    |a| == 0 ||
    (|b| > 0 && ((a[0] == b[0] && Subseq(a[1..], b[1..])) || Subseq(a, b[1..])))
  }

  lemma {:induction false} SubseqRefl<T>(s: seq<T>)
    ensures Subseq(s, s)
    decreases |s|
  {
    if |s| > 0 {
      SubseqRefl(s[1..]);
    }
  }

  lemma {:induction false} SubseqTrans<T>(a: seq<T>, b: seq<T>, c: seq<T>)
    requires Subseq(a, b) && Subseq(b, c)
    ensures Subseq(a, c)
    decreases |c|
  {
    if |a| > 0 {
      assert |b| > 0 && |c| > 0;
      if b[0] == c[0] && Subseq(b[1..], c[1..]) {
        if a[0] == b[0] && Subseq(a[1..], b[1..]) {
          SubseqTrans(a[1..], b[1..], c[1..]);
        } else {
          SubseqTrans(a, b[1..], c[1..]);
        }
      } else {
        SubseqTrans(a, b, c[1..]);
      }
    }
  }

  /** Splicing one element out keeps the relative order of the others. */
  lemma {:induction false} RemoveAtIsSubseq<T>(s: seq<T>, i: int)
    requires 0 <= i < |s|
    ensures Subseq(RemoveAt(s, i), s)
    decreases i
  {
    var r := RemoveAt(s, i);
    if i == 0 {
      assert r == s[1..];
      SubseqRefl(s[1..]);
    } else {
      assert r[0] == s[0];
      assert r[1..] == RemoveAt(s[1..], i - 1);
      RemoveAtIsSubseq(s[1..], i - 1);
    }
  }

  /** A value occurs at least twice in `s` exactly when two distinct
      positions of `s` hold it. */
  lemma {:induction false} TwoOccurrences<T>(s: seq<T>, x: T)
    ensures multiset(s)[x] >= 2 <==>
            exists i, j :: 0 <= i < j < |s| && s[i] == x && s[j] == x
    decreases |s|
  {
    if |s| > 0 {
      var t := s[1..];
      assert s == [s[0]] + t;
      TwoOccurrences(t, x);
      if multiset(s)[x] >= 2 {
        if s[0] == x {
          assert x in multiset(t);
          var j :| 0 <= j < |t| && t[j] == x;
          assert s[0] == x && s[j + 1] == x;
        } else {
          var i, j :| 0 <= i < j < |t| && t[i] == x && t[j] == x;
          assert s[i + 1] == x && s[j + 1] == x;
        }
      }
      if exists i, j :: 0 <= i < j < |s| && s[i] == x && s[j] == x {
        var i, j :| 0 <= i < j < |s| && s[i] == x && s[j] == x;
        if i == 0 {
          assert t[j - 1] == x;
          assert x in multiset(t);
        } else {
          assert t[i - 1] == x && t[j - 1] == x;
        }
      }
    }
  }
}
