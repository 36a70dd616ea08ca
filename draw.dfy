/** The draw of `handleDraw`: a Fisher–Yates shuffle of a copy of the
    approved user ids, run in place on an array, and the loop that pairs each
    giver with a receiver. The random index of each shuffle step is supplied
    by the caller as `swaps[i]`, which must lie in `[0, i]`. */
module Draw {

  /** One line of the draw: who gives a present to whom. */
  datatype Assignment<T> = Assignment(giverId: T, receiverId: T)

  /** No value occurs twice. */
  predicate Distinct<T(==)>(s: seq<T>)
  {
    forall i, j :: 0 <= i < j < |s| ==> s[i] != s[j]
  }

  function Swap<T>(s: seq<T>, i: nat, j: nat): (r: seq<T>)
    requires i < |s| && j < |s|
    ensures |r| == |s|
  {
    s[i := s[j]][j := s[i]]
  }

  lemma SwapPermutes<T>(s: seq<T>, i: nat, j: nat)
    requires i < |s| && j < |s|
    ensures multiset(Swap(s, i, j)) == multiset(s)
  {
  }

  /** One random index per position; the one for position `i > 0` lies in
      `[0, i]` (`Math.floor(Math.random() * (i + 1))`); position 0 draws
      none, so its entry is unused. */
  predicate ValidSwaps(swaps: seq<nat>, n: nat)
  {
    |swaps| == n && forall i :: 0 < i < n ==> swaps[i] <= i
  }

  /** The shuffle steps for positions `i`, `i - 1`, ..., 1. */
  function ShuffleDown<T>(s: seq<T>, swaps: seq<nat>, i: nat): seq<T>
    requires i < |s| && ValidSwaps(swaps, |s|)
    decreases i
  {
    if i == 0 then s else ShuffleDown(Swap(s, i, swaps[i]), swaps, i - 1)
  }

  /** The whole shuffle: every position from the last down to 1. */
  function FisherYates<T>(s: seq<T>, swaps: seq<nat>): seq<T>
    requires ValidSwaps(swaps, |s|)
  {
    if |s| == 0 then s else ShuffleDown(s, swaps, |s| - 1)
  }

  lemma {:induction false} ShuffleDownPermutes<T>(s: seq<T>, swaps: seq<nat>, i: nat)
    requires i < |s| && ValidSwaps(swaps, |s|)
    ensures |ShuffleDown(s, swaps, i)| == |s|
    ensures multiset(ShuffleDown(s, swaps, i)) == multiset(s)
    decreases i
  {
    if i > 0 {
      var t := Swap(s, i, swaps[i]);
      SwapPermutes(s, i, swaps[i]);
      ShuffleDownPermutes(t, swaps, i - 1);
      assert ShuffleDown(s, swaps, i) == ShuffleDown(t, swaps, i - 1);
    }
  }

  /** The shuffle is a permutation: same length, same multiset. */
  lemma FisherYatesPermutes<T>(s: seq<T>, swaps: seq<nat>)
    requires ValidSwaps(swaps, |s|)
    ensures |FisherYates(s, swaps)| == |s|
    ensures multiset(FisherYates(s, swaps)) == multiset(s)
  {
    if |s| > 0 {
      ShuffleDownPermutes(s, swaps, |s| - 1);
    }
  }

  /** The loop of lines 105-108, on the copy `a`: for `i` from the last
      index down to 1, swap `a[i]` with `a[swaps[i]]`. */
  method Shuffle<T>(a: array<T>, swaps: seq<nat>)
    requires ValidSwaps(swaps, a.Length)
    modifies a
    ensures a[..] == FisherYates(old(a[..]), swaps)
  {
    var i: int := a.Length - 1;
    while i > 0
      invariant -1 <= i < a.Length
      invariant i < 0 ==> a[..] == old(a[..]) == []
      invariant i >= 0 ==> ShuffleDown(a[..], swaps, i) == FisherYates(old(a[..]), swaps)
    {
      var j := swaps[i];
      ghost var before := a[..];
      var t := a[i];
      a[i] := a[j];
      a[j] := t;
      assert a[..] == Swap(before, i, j);
      i := i - 1;
    }
  }

  function Givers<T>(asg: seq<Assignment<T>>): (r: seq<T>)
    ensures |r| == |asg|
  {
    seq(|asg|, k requires 0 <= k < |asg| => asg[k].giverId)
  }

  function Receivers<T>(asg: seq<Assignment<T>>): (r: seq<T>)
    ensures |r| == |asg|
  {
    seq(|asg|, k requires 0 <= k < |asg| => asg[k].receiverId)
  }

  /** The pairing as written at lines 112-120: entry `k` has giver `ids[k]`
      (the unshuffled order) and receiver `shuffled[(k + 1) % n]`. */
  ghost predicate PairedAsWritten<T>(ids: seq<T>, shuffled: seq<T>, asg: seq<Assignment<T>>)
  {
    |shuffled| == |ids| && |asg| == |ids| &&
    forall k :: 0 <= k < |ids| ==> asg[k] == Assignment(ids[k], shuffled[(k + 1) % |ids|])
  }

  /** The pairing the comment at line 110 describes: each gives to the next
      in shuffled order, the last to the first. */
  ghost predicate PairedInCycle<T>(shuffled: seq<T>, asg: seq<Assignment<T>>)
  {
    |asg| == |shuffled| &&
    forall k :: 0 <= k < |shuffled| ==> asg[k] == Assignment(shuffled[k], shuffled[(k + 1) % |shuffled|])
  }

  /** The loop of lines 111-120 as written: one entry per index, in the
      original order. */
  method BuildAssignments<T>(ids: seq<T>, shuffled: array<T>) returns (asg: seq<Assignment<T>>)
    requires shuffled.Length == |ids|
    ensures PairedAsWritten(ids, shuffled[..], asg)
  {
    asg := [];
    var i := 0;
    while i < |ids|
      invariant 0 <= i <= |ids| && |asg| == i
      invariant forall k :: 0 <= k < i ==> asg[k] == Assignment(ids[k], shuffled[(k + 1) % shuffled.Length])
    {
      var giverId := ids[i];
      var receiverId := shuffled[(i + 1) % shuffled.Length];
      asg := asg + [Assignment(giverId, receiverId)];
      i := i + 1;
    }
  }

  /** The same loop with the giver taken from the shuffled order, as the
      comment at line 110 intends. */
  method BuildCycle<T>(shuffled: array<T>) returns (asg: seq<Assignment<T>>)
    ensures PairedInCycle(shuffled[..], asg)
  {
    asg := [];
    var i := 0;
    while i < shuffled.Length
      invariant 0 <= i <= shuffled.Length && |asg| == i
      invariant forall k :: 0 <= k < i ==> asg[k] == Assignment(shuffled[k], shuffled[(k + 1) % shuffled.Length])
    {
      var giverId := shuffled[i];
      var receiverId := shuffled[(i + 1) % shuffled.Length];
      asg := asg + [Assignment(giverId, receiverId)];
      i := i + 1;
    }
  }

  /** Steps 2 and 3 of the draw with the pairing in shuffle order: copy
      `ids` into a fresh array (`[...participantIds]`), shuffle the copy in
      place and pair each shuffled id with the next. `ids` is a value, so
      the shuffle cannot change it. */
  method ShuffleAndPair<T>(ids: seq<T>, swaps: seq<nat>) returns (shuffled: seq<T>, asg: seq<Assignment<T>>)
    requires ValidSwaps(swaps, |ids|)
    ensures shuffled == FisherYates(ids, swaps)
    ensures |shuffled| == |ids| && multiset(shuffled) == multiset(ids)
    ensures PairedInCycle(shuffled, asg)
  {
    var a := new T[|ids|](i requires 0 <= i < |ids| => ids[i]);
    assert a[..] == ids;
    Shuffle(a, swaps);
    FisherYatesPermutes(ids, swaps);
    asg := BuildCycle(a);
    shuffled := a[..];
  }

  /** The index after `k` in a cycle of length `n`. */
  lemma Successor(k: nat, n: nat)
    requires k < n
    ensures (k + 1) % n == if k + 1 < n then k + 1 else 0
  {
  }

  /** Taking each element's successor, the last wrapping to the first, is a
      permutation. */
  lemma RotatePermutes<T>(s: seq<T>, r: seq<T>)
    requires |s| > 0 && |r| == |s|
    requires forall k :: 0 <= k < |s| ==> r[k] == s[(k + 1) % |s|]
    ensures multiset(r) == multiset(s)
  {
    var n := |s|;
    var rot := s[1..] + s[..1];
    forall k | 0 <= k < n
      ensures r[k] == rot[k]
    {
      Successor(k, n);
      if k + 1 < n {
        assert rot[k] == s[k + 1];
      } else {
        assert rot[k] == s[0];
      }
    }
    assert r == rot;
    assert s == s[..1] + s[1..];
  }

  /** As written, the givers are the approved ids in order and the receivers
      a permutation of them: every approved user gives once and receives as
      often as they occur among the givers. */
  lemma AsWrittenIsBijection<T>(ids: seq<T>, shuffled: seq<T>, asg: seq<Assignment<T>>)
    requires |ids| > 0 && PairedAsWritten(ids, shuffled, asg)
    requires multiset(shuffled) == multiset(ids)
    ensures Givers(asg) == ids
    ensures multiset(Receivers(asg)) == multiset(ids)
  {
    RotatePermutes(shuffled, Receivers(asg));
  }

  /** The shuffle-order cycle has no fixed point when the ids are distinct
      and there are at least two of them, and it is a bijection: givers and
      receivers are both permutations of the shuffled ids. */
  lemma CycleIsDerangement<T>(shuffled: seq<T>, asg: seq<Assignment<T>>)
    requires |shuffled| >= 2 && Distinct(shuffled) && PairedInCycle(shuffled, asg)
    ensures forall k :: 0 <= k < |asg| ==> asg[k].giverId != asg[k].receiverId
    ensures Givers(asg) == shuffled
    ensures multiset(Receivers(asg)) == multiset(shuffled)
  {
    var n := |shuffled|;
    forall k | 0 <= k < n
      ensures asg[k].giverId != asg[k].receiverId
    {
      Successor(k, n);
    }
    RotatePermutes(shuffled, Receivers(asg));
  }

  /** Indices for which the shuffle only exchanges the first two ids: every
      step keeps its position except the one for position 1, which draws 0. */
  function SelfGiftSwaps(n: nat): seq<nat>
  {
    seq(n, i => if i == 1 then 0 else i)
  }

  lemma {:induction false} ShuffleDownKeeps<T>(s: seq<T>, i: nat)
    requires 1 <= i < |s|
    ensures ValidSwaps(SelfGiftSwaps(|s|), |s|)
    ensures ShuffleDown(s, SelfGiftSwaps(|s|), i) == Swap(s, 1, 0)
  {
    var sw := SelfGiftSwaps(|s|);
    if i > 1 {
      assert Swap(s, i, sw[i]) == s;
      ShuffleDownKeeps(s, i - 1);
    } else {
      assert ShuffleDown(Swap(s, 1, 0), sw, 0) == Swap(s, 1, 0);
    }
  }

  /** As written, a self-gift can be drawn: for any two or more ids some
      legal choice of random indices puts `ids[0]` at position 1 of the
      shuffle, and the giver `ids[0]` then receives `shuffled[1] == ids[0]`. */
  lemma SelfGiftReachable<T>(ids: seq<T>)
    requires |ids| >= 2
    ensures ValidSwaps(SelfGiftSwaps(|ids|), |ids|)
    ensures forall asg: seq<Assignment<T>> :: PairedAsWritten(ids, FisherYates(ids, SelfGiftSwaps(|ids|)), asg) ==>
      asg[0].giverId == asg[0].receiverId
  {
    ShuffleDownKeeps(ids, |ids| - 1);
    var shuffled := FisherYates(ids, SelfGiftSwaps(|ids|));
    assert shuffled[1] == ids[0];
    assert (0 + 1) % |ids| == 1;
  }

  /** The example `[a, b, c]`: drawing 2 at position 2 and 0 at position 1
      shuffles to `[b, a, c]`, and `a` is paired with itself. */
  lemma SelfGiftExample()
    ensures FisherYates(["a", "b", "c"], [0, 0, 2]) == ["b", "a", "c"]
  {
    var s: seq<string> := ["a", "b", "c"];
    assert Swap(s, 2, 2) == s;
    assert ShuffleDown(s, [0, 0, 2], 2) == ShuffleDown(s, [0, 0, 2], 1);
    assert Swap(s, 1, 0) == ["b", "a", "c"];
  }

  lemma {:induction false} DistinctByCount<T>(s: seq<T>)
    ensures Distinct(s) <==> forall x :: multiset(s)[x] <= 1
  {
    if s != [] {
      var h, t := s[0], s[1..];
      DistinctByCount(t);
      assert s == [h] + t;
      assert multiset(s) == multiset{h} + multiset(t);
      if Distinct(s) {
        assert Distinct(t) by {
          forall i, j | 0 <= i < j < |t| ensures t[i] != t[j] {
            assert t[i] == s[i + 1] && t[j] == s[j + 1];
          }
        }
        forall j | 0 <= j < |t| ensures t[j] != h {
          assert t[j] == s[j + 1];
        }
        assert h !in multiset(t);
      } else {
        var i, j :| 0 <= i < j < |s| && s[i] == s[j];
        if i == 0 {
          assert t[j - 1] == h;
          assert h in multiset(t);
          assert multiset(s)[h] >= 2;
        } else {
          assert t[i - 1] == t[j - 1];
          assert !Distinct(t);
          var x :| multiset(t)[x] > 1;
          assert multiset(s)[x] > 1;
        }
      }
    }
  }

  /** A permutation of distinct values is distinct. */
  lemma PermutationKeepsDistinct<T>(s: seq<T>, t: seq<T>)
    requires Distinct(s) && multiset(s) == multiset(t)
    ensures Distinct(t)
  {
    DistinctByCount(s);
    DistinctByCount(t);
  }
}
