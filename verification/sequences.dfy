/** Generic sequence facts used by the wait queue: uniqueness, order-preserving
    deletion (subsequences), and the two ways the queue loses elements
    (`splice(i, 1)` and `filter(x => x !== id)`). */
module Sequences {

  /** Every element occurs at most once. */
  ghost predicate NoDup<T>(s: seq<T>) {
    forall i, j :: 0 <= i < j < |s| ==> s[i] != s[j]
  }

  /** `a` is `b` with zero or more elements deleted, the order of the rest kept. */
  ghost predicate IsSubseq<T>(a: seq<T>, b: seq<T>)
    decreases |b|
  {
    if |b| == 0 then |a| == 0
    else IsSubseq(a, b[1..]) || (|a| > 0 && a[0] == b[0] && IsSubseq(a[1..], b[1..]))
  }

  /** `x` occurs somewhere before `y` in `s`. */
  ghost predicate Precedes<T>(s: seq<T>, x: T, y: T) {
    exists i, j :: 0 <= i < j < |s| && s[i] == x && s[j] == y
  }

  /** `s` with the element at index `i` cut out: the effect of `s.splice(i, 1)`. */
  function Drop<T>(s: seq<T>, i: nat): (r: seq<T>)
    requires i < |s|
    ensures |r| == |s| - 1
    ensures forall k :: 0 <= k < i ==> r[k] == s[k]
    ensures forall k :: i <= k < |r| ==> r[k] == s[k + 1]
  {
    s[..i] + s[i + 1..]
  }

  /** `s` without any occurrence of `x`: the effect of `s.filter(y => y !== x)`. */
  function Remove<T(==,!new)>(s: seq<T>, x: T): (r: seq<T>)
    ensures forall y :: y in r <==> y in s && y != x
    ensures IsSubseq(r, s)
    ensures |r| == |s| - multiset(s)[x]
  {
    if |s| == 0 then []
    else if s[0] == x then
      var r := Remove(s[1..], x);
      SubseqPrepend(s[0], r, s[1..]);
      assert [s[0]] + s[1..] == s;
      assert multiset(s) == multiset{s[0]} + multiset(s[1..]);
      r
    else
      var r := Remove(s[1..], x);
      assert ([s[0]] + r)[1..] == r;
      assert [s[0]] + s[1..] == s;
      assert multiset(s) == multiset{s[0]} + multiset(s[1..]);
      [s[0]] + r
  }

  lemma {:induction false} SubseqRefl<T>(a: seq<T>)
    ensures IsSubseq(a, a)
    decreases |a|
  {
    if |a| > 0 {
      SubseqRefl(a[1..]);
    }
  }

  /** Putting an extra element in front of the longer sequence keeps the relation. */
  lemma SubseqPrepend<T>(x: T, a: seq<T>, c: seq<T>)
    requires IsSubseq(a, c)
    ensures IsSubseq(a, [x] + c)
  {
    assert ([x] + c)[1..] == c;
  }

  /** Putting the same element in front of both sequences keeps the relation. */
  lemma SubseqCons<T>(x: T, a: seq<T>, c: seq<T>)
    requires IsSubseq(a, c)
    ensures IsSubseq([x] + a, [x] + c)
  {
    assert ([x] + a)[1..] == a;
    assert ([x] + c)[1..] == c;
  }

  lemma {:induction false} SubseqTrans<T>(a: seq<T>, b: seq<T>, c: seq<T>)
    requires IsSubseq(a, b) && IsSubseq(b, c)
    ensures IsSubseq(a, c)
    decreases |c|
  {
    if |c| == 0 {
      assert |b| == 0;
    } else if IsSubseq(b, c[1..]) {
      SubseqTrans(a, b, c[1..]);
    } else {
      assert |b| > 0 && b[0] == c[0] && IsSubseq(b[1..], c[1..]);
      if IsSubseq(a, b[1..]) {
        SubseqTrans(a, b[1..], c[1..]);
      } else {
        assert |a| > 0 && a[0] == b[0] && IsSubseq(a[1..], b[1..]);
        SubseqTrans(a[1..], b[1..], c[1..]);
      }
    }
  }

  /** Cutting one element out leaves a subsequence. */
  lemma {:induction false} SubseqDrop<T>(s: seq<T>, i: nat)
    requires i < |s|
    ensures IsSubseq(Drop(s, i), s)
    decreases i
  {
    if i == 0 {
      assert Drop(s, 0) == s[1..];
      SubseqRefl(s[1..]);
    } else {
      assert Drop(s, i)[1..] == Drop(s[1..], i - 1);
      SubseqDrop(s[1..], i - 1);
    }
  }

  /** The tail of a sequence is a subsequence of it. */
  lemma SubseqTail<T>(s: seq<T>)
    requires |s| > 0
    ensures IsSubseq(s[1..], s)
  {
    SubseqRefl(s[1..]);
  }

  lemma {:induction false} SubseqMembers<T>(a: seq<T>, b: seq<T>)
    requires IsSubseq(a, b)
    ensures forall x :: x in a ==> x in b
    decreases |b|
  {
    if |b| > 0 {
      if IsSubseq(a, b[1..]) {
        SubseqMembers(a, b[1..]);
      } else {
        SubseqMembers(a[1..], b[1..]);
        assert a == [a[0]] + a[1..];
      }
    }
  }

  /** Deleting elements cannot create a duplicate. */
  lemma {:induction false} SubseqNoDup<T>(a: seq<T>, b: seq<T>)
    requires IsSubseq(a, b) && NoDup(b)
    ensures NoDup(a)
    decreases |b|
  {
    if |b| > 0 {
      assert NoDup(b[1..]);
      if IsSubseq(a, b[1..]) {
        SubseqNoDup(a, b[1..]);
      } else {
        SubseqNoDup(a[1..], b[1..]);
        SubseqMembers(a[1..], b[1..]);
        forall i, j | 0 <= i < j < |a|
          ensures a[i] != a[j]
        {
          if i == 0 {
            assert a[j] == a[1..][j - 1];
            assert a[j] in b[1..];
          } else {
            assert a[i] == a[1..][i - 1] && a[j] == a[1..][j - 1];
          }
        }
      }
    }
  }

  /** Order between two elements survives in every supersequence. */
  lemma {:induction false} SubseqPrecedes<T>(a: seq<T>, b: seq<T>, x: T, y: T)
    requires IsSubseq(a, b) && Precedes(a, x, y)
    ensures Precedes(b, x, y)
    decreases |b|
  {
    var i, j :| 0 <= i < j < |a| && a[i] == x && a[j] == y;
    assert |b| > 0;
    if IsSubseq(a, b[1..]) {
      SubseqPrecedes(a, b[1..], x, y);
      var i', j' :| 0 <= i' < j' < |b[1..]| && b[1..][i'] == x && b[1..][j'] == y;
      assert b[i' + 1] == x && b[j' + 1] == y;
    } else if i == 0 {
      assert a[0] == b[0];
      assert y == a[1..][j - 1];
      SubseqMembers(a[1..], b[1..]);
      assert y in b[1..];
      var k :| 0 <= k < |b[1..]| && b[1..][k] == y;
      assert b[0] == x && b[k + 1] == y;
    } else {
      assert a[1..][i - 1] == x && a[1..][j - 1] == y;
      SubseqPrecedes(a[1..], b[1..], x, y);
      var i', j' :| 0 <= i' < j' < |b[1..]| && b[1..][i'] == x && b[1..][j'] == y;
      assert b[i' + 1] == x && b[j' + 1] == y;
    }
  }

  /** Appending an element that is not there yet keeps the elements unique. */
  lemma NoDupAppend<T>(s: seq<T>, x: T)
    requires NoDup(s) && x !in s
    ensures NoDup(s + [x])
  {
  }
}
