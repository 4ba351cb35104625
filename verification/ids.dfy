/** Connection ids, room ids and the skip-cooldown pair key
    (backend/src/managers/UserManager.ts, `getPairKey`). */
module Ids {

  /** A socket id. Socket ids are never empty, so the source's falsy-id guard
      in the pairing pass never fires and is not modelled. */
  type Id = s: string | |s| > 0 witness "x"

  /** A room id. The source draws a fresh uuid; here room ids are numbers handed
      out by a counter, which gives the only property the code relies on: the
      id is not the key of any current room. */
  type RoomId = nat

  /** The order JavaScript's default `Array.prototype.sort` puts two strings
      in: character by character, a proper prefix first. */
  predicate Less(a: string, b: string)
    ensures Less(a, b) ==> a != b
    ensures |a| < |b| && a == b[..|a|] ==> Less(a, b)
    decreases |a|
  {
    |b| > 0 && (|a| == 0 || a[0] < b[0] || (a[0] == b[0] && Less(a[1..], b[1..])))
  }

  lemma {:induction false} LessAsymmetric(a: string, b: string)
    ensures !(Less(a, b) && Less(b, a))
    decreases |a|
  {
    if |a| > 0 && |b| > 0 && a[0] == b[0] {
      LessAsymmetric(a[1..], b[1..]);
    }
  }

  lemma {:induction false} LessTotal(a: string, b: string)
    ensures a == b || Less(a, b) || Less(b, a)
    decreases |a|
  {
    if |a| > 0 && |b| > 0 && a[0] == b[0] {
      LessTotal(a[1..], b[1..]);
      if a[1..] == b[1..] {
        assert a == [a[0]] + a[1..] && b == [b[0]] + b[1..];
      }
    }
  }

  const Separator: string := "--"

  /** The cooldown key of a pair: both ids sorted, joined by `--`. */
  function PairKey(a: Id, b: Id): (key: string)
    ensures key == a + Separator + b || key == b + Separator + a
    ensures Less(a, b) ==> key == a + Separator + b
    ensures Less(b, a) ==> key == b + Separator + a
  {
    LessAsymmetric(a, b);
    if Less(b, a) then b + Separator + a else a + Separator + b
  }

  /** The key does not depend on the order of its arguments. */
  lemma PairKeySymmetric(a: Id, b: Id)
    ensures PairKey(a, b) == PairKey(b, a)
  {
    LessAsymmetric(a, b);
    LessTotal(a, b);
  }

  /** No '-' anywhere in the id. */
  predicate DashFree(s: string) {
    forall k :: 0 <= k < |s| ==> s[k] != '-'
  }

  /** In `x + Separator + y` with a dash-free `x`, the first '-' sits right after `x`. */
  lemma FirstDash(x: string, y: string)
    requires DashFree(x)
    ensures (x + Separator + y)[|x|] == '-'
    ensures forall k :: 0 <= k < |x| ==> (x + Separator + y)[k] != '-'
  {
  }

  /** Joining two strings with the separator can be undone when the first part has no '-'. */
  lemma JoinInjective(x: string, y: string, x': string, y': string)
    requires DashFree(x) && DashFree(x')
    requires x + Separator + y == x' + Separator + y'
    ensures x == x' && y == y'
  {
    var s := x + Separator + y;
    FirstDash(x, y);
    FirstDash(x', y');
    assert |x| == |x'|;
    assert x == s[..|x|];
    assert x' == (x' + Separator + y')[..|x'|];
    assert y == s[|x| + 2..];
    assert y' == (x' + Separator + y')[|x'| + 2..];
  }

  /** For dash-free ids, two pairs share a cooldown key exactly when they are
      the same unordered pair. */
  lemma PairKeyIdentifiesPair(a: Id, b: Id, c: Id, d: Id)
    requires DashFree(a) && DashFree(b) && DashFree(c) && DashFree(d)
    ensures PairKey(a, b) == PairKey(c, d) <==> (a == c && b == d) || (a == d && b == c)
  {
    PairKeySymmetric(a, b);
    PairKeySymmetric(c, d);
    if PairKey(a, b) == PairKey(c, d) {
      var lo1, hi1 := if Less(b, a) then b else a, if Less(b, a) then a else b;
      var lo2, hi2 := if Less(d, c) then d else c, if Less(d, c) then c else d;
      assert PairKey(a, b) == lo1 + Separator + hi1;
      assert PairKey(c, d) == lo2 + Separator + hi2;
      JoinInjective(lo1, hi1, lo2, hi2);
    }
  }

  /** Joining two strings with the separator can be undone when the first
      parts have the same length, whatever characters they hold. */
  lemma JoinSameLength(x: string, y: string, x': string, y': string)
    requires |x| == |x'|
    requires x + Separator + y == x' + Separator + y'
    ensures x == x' && y == y'
  {
    var s := x + Separator + y;
    assert x == s[..|x|];
    assert x' == (x' + Separator + y')[..|x'|];
    assert y == s[|x| + 2..];
    assert y' == (x' + Separator + y')[|x'| + 2..];
  }

  /** For ids all of one length, as socket.io generates them, two pairs share
      a cooldown key exactly when they are the same unordered pair, even when
      the ids contain '-'. */
  lemma PairKeyInjectiveSameLength(a: Id, b: Id, c: Id, d: Id)
    requires |a| == |b| == |c| == |d|
    ensures PairKey(a, b) == PairKey(c, d) <==> (a == c && b == d) || (a == d && b == c)
  {
    PairKeySymmetric(a, b);
    PairKeySymmetric(c, d);
    if PairKey(a, b) == PairKey(c, d) {
      var lo1, hi1 := if Less(b, a) then b else a, if Less(b, a) then a else b;
      var lo2, hi2 := if Less(d, c) then d else c, if Less(d, c) then c else d;
      assert PairKey(a, b) == lo1 + Separator + hi1;
      assert PairKey(c, d) == lo2 + Separator + hi2;
      JoinSameLength(lo1, hi1, lo2, hi2);
    }
  }

  /** With dashes allowed, two different pairs can share a key: ("a", "b--c")
      and ("a--b", "c") both become "a--b--c". */
  lemma PairKeyCollision()
    ensures PairKey("a", "b--c") == PairKey("a--b", "c")
    ensures "a" != "a--b" && "a" != "c"
  {
    assert !Less("b--c", "a");
    assert !Less("c", "a--b");
    assert "a" + Separator + "b--c" == "a--b--c";
    assert "a--b" + Separator + "c" == "a--b--c";
  }
}
