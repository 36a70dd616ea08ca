/** The moderator's view of one group (`GroupManage.jsx`): the participant
    list kept in the view, the approve and reject actions that update it, the
    split into pending and approved participants, and the draw, which
    shuffles a copy of the approved user ids, pairs them into a cycle,
    writes each giftee to the participant store and only then marks the
    group drawn. Remote requests are replaced by supplied success or failure
    outcomes. */
module GroupManage {
  import opened Common
  import Draw

  // ---------------------------------------------------------------------
  // List operations (`filter`, `map`, `find` over the participant list)
  // ---------------------------------------------------------------------

  /** `Array.prototype.filter`: the elements that `keep` accepts. */
  function Filter<T(!new)>(s: seq<T>, keep: T -> bool): (r: seq<T>)
    ensures |r| <= |s|
    ensures forall x :: x in r <==> x in s && keep(x)
  {
    if s == [] then []
    else
      assert s == [s[0]] + s[1..];
      var rest := Filter(s[1..], keep);
      if keep(s[0]) then [s[0]] + rest else rest
  }

  /** Filtering keeps every accepted element as often as it occurs and drops
      every other one entirely. */
  lemma {:induction false} FilterCount<T(!new)>(s: seq<T>, keep: T -> bool, x: T)
    ensures multiset(Filter(s, keep))[x] == if keep(x) then multiset(s)[x] else 0
  {
    if s != [] {
      assert s == [s[0]] + s[1..];
      FilterCount(s[1..], keep, x);
    }
  }

  /** Filtering keeps the order: it distributes over concatenation. */
  lemma {:induction false} FilterAppend<T(!new)>(s: seq<T>, t: seq<T>, keep: T -> bool)
    ensures Filter(s + t, keep) == Filter(s, keep) + Filter(t, keep)
  {
    if s == [] {
      assert s + t == t;
    } else {
      assert (s + t)[0] == s[0] && (s + t)[1..] == s[1..] + t;
      FilterAppend(s[1..], t, keep);
    }
  }

  /** Filtering twice with the same test changes nothing more. */
  lemma {:induction false} FilterIdempotent<T(!new)>(s: seq<T>, keep: T -> bool)
    ensures Filter(Filter(s, keep), keep) == Filter(s, keep)
  {
    if s != [] {
      FilterIdempotent(s[1..], keep);
    }
  }

  /** `Array.prototype.find` on `p.userId === u`: the first participant
      whose user id is `u`, if any. */
  function FindByUser(ps: seq<Participant>, u: string): (r: Option<Participant>)
    ensures r.Some? ==> r.value in ps && r.value.userId == Some(u)
    ensures r.None? <==> forall p :: p in ps ==> p.userId != Some(u)
  {
    if ps == [] then None
    else if ps[0].userId == Some(u) then Some(ps[0])
    else
      assert ps == [ps[0]] + ps[1..];
      FindByUser(ps[1..], u)
  }

  /** What `find` finds is the first participant with that user id. */
  lemma {:induction false} FindByUserIsFirst(ps: seq<Participant>, u: string)
    ensures FindByUser(ps, u).Some? ==>
              exists i :: 0 <= i < |ps| && ps[i] == FindByUser(ps, u).value &&
                forall j :: 0 <= j < i ==> ps[j].userId != Some(u)
  {
    if ps != [] && ps[0].userId != Some(u) {
      var r := FindByUser(ps[1..], u);
      FindByUserIsFirst(ps[1..], u);
      if r.Some? {
        var i :| 0 <= i < |ps[1..]| && ps[1..][i] == r.value &&
                 forall j :: 0 <= j < i ==> ps[1..][j].userId != Some(u);
        assert ps[i + 1] == r.value;
        forall j | 0 <= j < i + 1
          ensures ps[j].userId != Some(u)
        {
          if j > 0 {
            assert ps[j] == ps[1..][j - 1];
          }
        }
      }
    }
  }

  // ---------------------------------------------------------------------
  // The participant list of one group (lines 27-31 and 154-155)
  // ---------------------------------------------------------------------

  /** The client-side filter of `fetchData`: the record has a group id equal
      to the group's, and a user id. */
  predicate InGroup(p: Participant, groupId: string)
  {
    Truthy(p.groupId) && p.groupId.value == groupId && Truthy(p.userId)
  }

  /** The fetched records that really belong to the group, in fetched order,
      each as often as it was fetched. */
  function ForGroup(ps: seq<Participant>, groupId: string): (r: seq<Participant>)
    ensures forall p :: p in r <==> p in ps && InGroup(p, groupId)
    ensures forall p :: InGroup(p, groupId) ==> multiset(r)[p] == multiset(ps)[p]
  {
    var keep := (p: Participant) => InGroup(p, groupId);
    assert forall p :: InGroup(p, groupId) ==> multiset(Filter(ps, keep))[p] == multiset(ps)[p] by {
      forall p | InGroup(p, groupId) ensures multiset(Filter(ps, keep))[p] == multiset(ps)[p] {
        FilterCount(ps, keep, p);
      }
    }
    Filter(ps, keep)
  }

  /** The participants shown as awaiting validation. */
  function PendingOf(ps: seq<Participant>): (r: seq<Participant>)
    ensures forall p :: p in r <==> p in ps && p.status == Pending
  {
    Filter(ps, (p: Participant) => p.status == Pending)
  }

  /** The participants who take part in the draw. */
  function ApprovedOf(ps: seq<Participant>): (r: seq<Participant>)
    ensures forall p :: p in r <==> p in ps && p.status == Approved
  {
    Filter(ps, (p: Participant) => p.status == Approved)
  }

  /** No participant is both pending and approved, and the two lists
      together are no longer than the whole list. */
  lemma {:induction false} PendingApprovedPartition(ps: seq<Participant>)
    ensures forall p :: !(p in PendingOf(ps) && p in ApprovedOf(ps))
    ensures |PendingOf(ps)| + |ApprovedOf(ps)| <= |ps|
  {
    if ps != [] {
      PendingApprovedPartition(ps[1..]);
    }
  }

  // ---------------------------------------------------------------------
  // handleStatusChange (lines 65-84)
  // ---------------------------------------------------------------------

  /** The list after rejecting participant `pid`: that entry is gone, every
      other entry stays, as often as before. */
  function Reject(ps: seq<Participant>, pid: string): (r: seq<Participant>)
    ensures forall p :: p in r <==> p in ps && p.id != pid
    ensures forall p: Participant :: p.id != pid ==> multiset(r)[p] == multiset(ps)[p]
  {
    var keep := (p: Participant) => p.id != pid;
    assert forall p: Participant :: p.id != pid ==> multiset(Filter(ps, keep))[p] == multiset(ps)[p] by {
      forall p: Participant | p.id != pid ensures multiset(Filter(ps, keep))[p] == multiset(ps)[p] {
        FilterCount(ps, keep, p);
      }
    }
    Filter(ps, keep)
  }

  /** Rejecting keeps the remaining entries in their order, and rejecting
      the same participant again changes nothing. */
  lemma RejectKeepsOrder(ps: seq<Participant>, qs: seq<Participant>, pid: string)
    ensures Reject(ps + qs, pid) == Reject(ps, pid) + Reject(qs, pid)
    ensures Reject(Reject(ps, pid), pid) == Reject(ps, pid)
  {
    FilterAppend(ps, qs, (p: Participant) => p.id != pid);
    FilterIdempotent(ps, (p: Participant) => p.id != pid);
  }

  /** The list after setting the status of participant `pid`: the same
      entries in the same places, the one with that id differing only in
      its status. */
  function SetStatus(ps: seq<Participant>, pid: string, status: ParticipantStatus): (r: seq<Participant>)
    ensures |r| == |ps|
    ensures forall i :: 0 <= i < |ps| && ps[i].id != pid ==> r[i] == ps[i]
    ensures forall i :: 0 <= i < |ps| && ps[i].id == pid ==>
              r[i].status == status && r[i].(status := ps[i].status) == ps[i]
  {
    seq(|ps|, i requires 0 <= i < |ps| => if ps[i].id == pid then ps[i].(status := status) else ps[i])
  }

  /** Setting the same status twice is the same as setting it once, and a
      status change never moves a participant out of the group. */
  lemma SetStatusFacts(ps: seq<Participant>, pid: string, status: ParticipantStatus, groupId: string)
    ensures SetStatus(SetStatus(ps, pid, status), pid, status) == SetStatus(ps, pid, status)
    ensures (forall p :: p in ps ==> InGroup(p, groupId)) ==>
              forall p :: p in SetStatus(ps, pid, status) ==> InGroup(p, groupId)
  {
    var r := SetStatus(ps, pid, status);
    if forall p :: p in ps ==> InGroup(p, groupId) {
      forall p | p in r ensures InGroup(p, groupId) {
        var i :| 0 <= i < |r| && r[i] == p;
        assert ps[i] in ps;
      }
    }
  }

  /** What `handleStatusChange` reports. */
  datatype StatusOutcome = Cancelled | Failed | Updated

  // ---------------------------------------------------------------------
  // The draw's remote writes (lines 123-136)
  // ---------------------------------------------------------------------

  /** The user ids of a list of participants (`approved.map(p => p.userId)`). */
  function UserIds(ps: seq<Participant>): (r: seq<string>)
    requires forall p :: p in ps ==> p.userId.Some?
    ensures |r| == |ps|
    ensures forall i :: 0 <= i < |ps| ==> ps[i].userId == Some(r[i])
  {
    seq(|ps|, i requires 0 <= i < |ps| => ps[i].userId.value)
  }

  /** The record ids of a list of participants. */
  function RecordIds(ps: seq<Participant>): set<string>
  {
    set p | p in ps :: p.id
  }

  /** The giftee ids held by the participant store after the first `k`
      writes of the draw: write `j` patches the participant found for giver
      `asg[j].giverId` with `asg[j].receiverId` when `oks[j]` says it
      succeeded. Records outside `approved` keep what they had. A giver
      that `find` misses is skipped here, whereas the source would fail on
      `participant.id` (line 126), stop and skip the group update; that
      case never arises, since `GiversFound` shows every giver is found. */
  function Persisted(m0: map<string, string>, approved: seq<Participant>,
                     asg: seq<Draw.Assignment<string>>, oks: seq<bool>, k: nat): (m: map<string, string>)
    requires k <= |asg| && k <= |oks|
    ensures m0.Keys <= m.Keys
    decreases k
  {
    if k == 0 then m0
    else
      var m := Persisted(m0, approved, asg, oks, k - 1);
      match FindByUser(approved, asg[k - 1].giverId)
      case None => m
      case Some(p) => if oks[k - 1] then m[p.id := asg[k - 1].receiverId] else m
  }

  /** The draw writes only the giftees of approved participants: every
      other record keeps what it had, and no record is added. */
  lemma {:induction false} PersistedFrame(m0: map<string, string>, approved: seq<Participant>,
                                          asg: seq<Draw.Assignment<string>>, oks: seq<bool>, k: nat, key: string)
    requires k <= |asg| && k <= |oks| && key !in RecordIds(approved)
    ensures key in Persisted(m0, approved, asg, oks, k) <==> key in m0
    ensures key in m0 ==> Persisted(m0, approved, asg, oks, k)[key] == m0[key]
    decreases k
  {
    if k > 0 {
      PersistedFrame(m0, approved, asg, oks, k - 1, key);
      var found := FindByUser(approved, asg[k - 1].giverId);
      if found.Some? {
        assert found.value.id in RecordIds(approved);
      }
    }
  }

  /** No two participants of the list share a user id. */
  predicate DistinctUsers(ps: seq<Participant>)
  {
    forall i, j :: 0 <= i < j < |ps| ==> ps[i].userId != ps[j].userId
  }

  /** No two participants of the list share a record id. */
  predicate DistinctRecords(ps: seq<Participant>)
  {
    forall i, j :: 0 <= i < j < |ps| ==> ps[i].id != ps[j].id
  }

  /** The facts about the approved participants and the shuffled ids that
      the draw's correctness rests on: every approved participant has a user
      id, user ids and record ids are distinct, and the shuffled ids are the
      user ids in some order. */
  ghost predicate DrawSetting(approved: seq<Participant>, shuffled: seq<string>)
  {
    (forall p :: p in approved ==> p.userId.Some?) &&
    DistinctUsers(approved) && DistinctRecords(approved) &&
    multiset(shuffled) == multiset(UserIds(approved))
  }

  /** In a draw setting there are as many shuffled ids as approved
      participants, and they are distinct. */
  lemma ShuffledDistinct(approved: seq<Participant>, shuffled: seq<string>)
    requires DrawSetting(approved, shuffled)
    ensures |shuffled| == |approved| && Draw.Distinct(shuffled)
  {
    var ids := UserIds(approved);
    assert |shuffled| == |ids| by {
      assert |multiset(shuffled)| == |multiset(ids)|;
    }
    assert Draw.Distinct(ids) by {
      forall i, j | 0 <= i < j < |ids| ensures ids[i] != ids[j] {
        assert approved[i].userId != approved[j].userId;
      }
    }
    Draw.PermutationKeepsDistinct(ids, shuffled);
  }

  /** The approved participant whose user id is the shuffled id `shuffled[a]`. */
  lemma UserOf(approved: seq<Participant>, shuffled: seq<string>, a: nat) returns (c: nat)
    requires DrawSetting(approved, shuffled) && a < |shuffled|
    ensures c < |approved| && approved[c].userId == Some(shuffled[a])
  {
    var ids := UserIds(approved);
    assert shuffled[a] in multiset(ids);
    c :| 0 <= c < |ids| && ids[c] == shuffled[a];
  }

  /** The position in the shuffled order of approved participant `i`. */
  lemma PositionOf(approved: seq<Participant>, shuffled: seq<string>, i: nat) returns (a: nat)
    requires DrawSetting(approved, shuffled) && i < |approved|
    ensures a < |shuffled| && approved[i].userId == Some(shuffled[a])
  {
    var ids := UserIds(approved);
    assert ids[i] in multiset(shuffled);
    a :| 0 <= a < |shuffled| && shuffled[a] == ids[i];
  }

  /** With distinct user ids, `find` finds the one participant with that id. */
  lemma FindUnique(approved: seq<Participant>, c: nat, u: string)
    requires DistinctUsers(approved)
    requires c < |approved| && approved[c].userId == Some(u)
    ensures FindByUser(approved, u) == Some(approved[c])
  {
    assert approved[c] in approved;
    var p := FindByUser(approved, u).value;
    var d :| 0 <= d < |approved| && approved[d] == p;
    assert d == c;
  }

  /** Every giver of the shuffle-order cycle is an approved user, so the
      `find` of line 125 always finds a participant. */
  lemma GiversFound(approved: seq<Participant>, shuffled: seq<string>, asg: seq<Draw.Assignment<string>>)
    requires forall p :: p in approved ==> p.userId.Some?
    requires multiset(shuffled) == multiset(UserIds(approved))
    requires Draw.PairedInCycle(shuffled, asg)
    ensures forall k :: 0 <= k < |asg| ==> FindByUser(approved, asg[k].giverId).Some?
  {
    var ids := UserIds(approved);
    forall k | 0 <= k < |asg|
      ensures FindByUser(approved, asg[k].giverId).Some?
    {
      assert asg[k].giverId == shuffled[k];
      assert shuffled[k] in multiset(ids);
      var i :| 0 <= i < |ids| && ids[i] == shuffled[k];
      assert approved[i] in approved;
    }
  }

  /** The id after position `a` in the cycle over `shuffled`. */
  ghost function NextInCycle(shuffled: seq<string>, a: nat): string
    requires a < |shuffled|
  {
    shuffled[(a + 1) % |shuffled|]
  }

  /** The giftees held after the first `k` writes in shuffle order: the
      participant whose user id is `shuffled[a]`, for `a < k`, holds the
      next id in the cycle. */
  ghost predicate HoldsGiftees(m: map<string, string>, approved: seq<Participant>, shuffled: seq<string>, k: nat)
  {
    forall a, i {:trigger approved[i], NextInCycle(shuffled, a)} ::
      0 <= a < k && a < |shuffled| && 0 <= i < |approved| && approved[i].userId == Some(shuffled[a]) ==>
        approved[i].id in m && m[approved[i].id] == NextInCycle(shuffled, a)
  }

  /** One more successful write, to the participant of `shuffled[k]`, keeps
      the earlier giftees and adds the next one. */
  lemma HoldsGifteesStep(m: map<string, string>, approved: seq<Participant>, shuffled: seq<string>, k: nat, c: nat)
    requires k < |shuffled| && Draw.Distinct(shuffled)
    requires DistinctUsers(approved) && DistinctRecords(approved)
    requires c < |approved| && approved[c].userId == Some(shuffled[k])
    requires HoldsGiftees(m, approved, shuffled, k)
    ensures HoldsGiftees(m[approved[c].id := NextInCycle(shuffled, k)], approved, shuffled, k + 1)
  {
    var next := m[approved[c].id := NextInCycle(shuffled, k)];
    forall a, i | 0 <= a < k + 1 && a < |shuffled| && 0 <= i < |approved| && approved[i].userId == Some(shuffled[a])
      ensures approved[i].id in next && next[approved[i].id] == NextInCycle(shuffled, a)
    {
      if a == k {
        assert i == c;
      } else {
        assert shuffled[a] != shuffled[k];
        assert approved[i].id != approved[c].id;
        ghost var giftee := NextInCycle(shuffled, a);
        assert approved[i].id in m && m[approved[i].id] == giftee;
      }
    }
  }

  /** After the first `k` writes of a draw in shuffle order, all of them
      successful, the participant of each of the first `k` shuffled ids
      holds the next shuffled id. */
  lemma {:induction false} PersistedPrefix(m0: map<string, string>, approved: seq<Participant>,
                                           shuffled: seq<string>, asg: seq<Draw.Assignment<string>>,
                                           oks: seq<bool>, k: nat)
    requires DrawSetting(approved, shuffled)
    requires Draw.PairedInCycle(shuffled, asg) && |oks| == |asg| && k <= |asg|
    requires forall j :: 0 <= j < k ==> oks[j]
    ensures HoldsGiftees(Persisted(m0, approved, asg, oks, k), approved, shuffled, k)
    decreases k
  {
    if k > 0 {
      PersistedPrefix(m0, approved, shuffled, asg, oks, k - 1);
      ShuffledDistinct(approved, shuffled);
      var c := UserOf(approved, shuffled, k - 1);
      FindUnique(approved, c, shuffled[k - 1]);
      var prev := Persisted(m0, approved, asg, oks, k - 1);
      assert asg[k - 1] == Draw.Assignment(shuffled[k - 1], NextInCycle(shuffled, k - 1));
      assert Persisted(m0, approved, asg, oks, k) == prev[approved[c].id := NextInCycle(shuffled, k - 1)];
      HoldsGifteesStep(prev, approved, shuffled, k - 1, c);
    }
  }

  /** Approved participant `i` holds the shuffled id after their own. */
  lemma GifteeOf(approved: seq<Participant>, shuffled: seq<string>, m: map<string, string>, i: nat)
    returns (a: nat)
    requires DrawSetting(approved, shuffled) && HoldsGiftees(m, approved, shuffled, |shuffled|)
    requires i < |approved|
    ensures a < |shuffled| && approved[i].userId == Some(shuffled[a])
    ensures approved[i].id in m && m[approved[i].id] == shuffled[(a + 1) % |shuffled|]
  {
    a := PositionOf(approved, shuffled, i);
    ghost var giftee := NextInCycle(shuffled, a);
    assert approved[i].id in m && m[approved[i].id] == giftee;
  }

  /** Each approved participant's giftee is another approved user. */
  lemma GifteesAreOthers(approved: seq<Participant>, shuffled: seq<string>, m: map<string, string>)
    requires DrawSetting(approved, shuffled) && HoldsGiftees(m, approved, shuffled, |shuffled|)
    requires |approved| >= 2
    ensures forall i :: 0 <= i < |approved| ==>
              approved[i].id in m && m[approved[i].id] in UserIds(approved) &&
              Some(m[approved[i].id]) != approved[i].userId
  {
    var ids := UserIds(approved);
    ShuffledDistinct(approved, shuffled);
    var n := |shuffled|;
    forall i | 0 <= i < |approved|
      ensures approved[i].id in m && m[approved[i].id] in ids && Some(m[approved[i].id]) != approved[i].userId
    {
      var a := GifteeOf(approved, shuffled, m, i);
      Draw.Successor(a, n);
      assert shuffled[(a + 1) % n] in multiset(ids);
    }
  }

  /** No two approved participants hold the same giftee. */
  lemma GifteesInjective(approved: seq<Participant>, shuffled: seq<string>, m: map<string, string>)
    requires DrawSetting(approved, shuffled) && HoldsGiftees(m, approved, shuffled, |shuffled|)
    ensures forall i, j :: 0 <= i < j < |approved| && approved[i].id in m && approved[j].id in m ==>
              m[approved[i].id] != m[approved[j].id]
  {
    ShuffledDistinct(approved, shuffled);
    var n := |shuffled|;
    forall i, j | 0 <= i < j < |approved| && approved[i].id in m && approved[j].id in m
      ensures m[approved[i].id] != m[approved[j].id]
    {
      var a := GifteeOf(approved, shuffled, m, i);
      var b := GifteeOf(approved, shuffled, m, j);
      Draw.Successor(a, n);
      Draw.Successor(b, n);
    }
  }

  /** Some approved participant holds the user id `u` as giftee. */
  ghost predicate HeldBySome(approved: seq<Participant>, m: map<string, string>, u: Option<string>)
  {
    exists i :: 0 <= i < |approved| && approved[i].id in m && Some(m[approved[i].id]) == u
  }

  /** Every approved user is the giftee of some approved participant. */
  lemma GifteesSurjective(approved: seq<Participant>, shuffled: seq<string>, m: map<string, string>)
    requires DrawSetting(approved, shuffled) && HoldsGiftees(m, approved, shuffled, |shuffled|)
    ensures forall j :: 0 <= j < |approved| ==> HeldBySome(approved, m, approved[j].userId)
  {
    forall j | 0 <= j < |approved|
      ensures HeldBySome(approved, m, approved[j].userId)
    {
      var i := GiverOf(approved, shuffled, m, j);
    }
  }

  /** The approved participant who holds approved participant `j` as
      giftee: the one before `j` in the shuffled order. */
  lemma GiverOf(approved: seq<Participant>, shuffled: seq<string>, m: map<string, string>, j: nat)
    returns (i: nat)
    requires DrawSetting(approved, shuffled) && HoldsGiftees(m, approved, shuffled, |shuffled|)
    requires j < |approved|
    ensures i < |approved| && approved[i].id in m && Some(m[approved[i].id]) == approved[j].userId
  {
    ShuffledDistinct(approved, shuffled);
    var n := |shuffled|;
    var b := PositionOf(approved, shuffled, j);
    var a := if b == 0 then n - 1 else b - 1;
    Draw.Successor(a, n);
    i := UserOf(approved, shuffled, a);
    var a' := GifteeOf(approved, shuffled, m, i);
    assert a' == a;
  }

  /** A fully successful draw leaves the store with a derangement of the
      approved users: every approved participant holds a giftee, that giftee
      is an approved user other than themself, no two of them hold the same
      giftee, and every approved user is somebody's giftee. */
  lemma DrawnIsDerangement(m0: map<string, string>, approved: seq<Participant>,
                           shuffled: seq<string>, asg: seq<Draw.Assignment<string>>,
                           oks: seq<bool>, m: map<string, string>)
    requires DrawSetting(approved, shuffled) && |approved| >= 2
    requires Draw.PairedInCycle(shuffled, asg) && |oks| == |asg|
    requires forall j :: 0 <= j < |oks| ==> oks[j]
    requires m == Persisted(m0, approved, asg, oks, |asg|)
    ensures forall i :: 0 <= i < |approved| ==>
              approved[i].id in m && m[approved[i].id] in UserIds(approved) &&
              Some(m[approved[i].id]) != approved[i].userId
    ensures forall i, j :: 0 <= i < j < |approved| ==> m[approved[i].id] != m[approved[j].id]
    ensures forall j :: 0 <= j < |approved| ==> HeldBySome(approved, m, approved[j].userId)
  {
    PersistedPrefix(m0, approved, shuffled, asg, oks, |asg|);
    GifteesAreOthers(approved, shuffled, m);
    GifteesInjective(approved, shuffled, m);
    GifteesSurjective(approved, shuffled, m);
  }

  /** The giftee writes of lines 123-130, one per assignment, in order; a
      write lands when its outcome says it succeeded. The result says
      whether all of them did. */
  method WriteGiftees(store: Store, approved: seq<Participant>, asg: seq<Draw.Assignment<string>>, writeOk: seq<bool>)
    returns (allOk: bool)
    requires |writeOk| == |asg|
    requires forall k :: 0 <= k < |asg| ==> FindByUser(approved, asg[k].giverId).Some?
    modifies store`gifteeIds
    ensures store.gifteeIds == Persisted(old(store.gifteeIds), approved, asg, writeOk, |asg|)
    ensures allOk <==> forall k :: 0 <= k < |asg| ==> writeOk[k]
  {
    var k := 0;
    allOk := true;
    while k < |asg|
      invariant 0 <= k <= |asg|
      invariant store.gifteeIds == Persisted(old(store.gifteeIds), approved, asg, writeOk, k)
      invariant allOk <==> forall j :: 0 <= j < k ==> writeOk[j]
    {
      var giver := FindByUser(approved, asg[k].giverId);
      if writeOk[k] {
        store.gifteeIds := store.gifteeIds[giver.value.id := asg[k].receiverId];
      } else {
        allOk := false;
      }
      k := k + 1;
    }
  }

  /** What the draw reports. */
  datatype DrawOutcome =
    | TooFew       // fewer than two approved participants (lines 88-91)
    | Declined     // the moderator did not confirm (lines 93-95)
    | WriteFailed  // some write failed; the group is not marked (lines 143-145)
    | Drawn        // every write succeeded and the group is marked drawn

  /** The group record and the participants' giftee ids, as held by the
      remote store. */
  class Store {
    /** `gifteeId` of each participant record, by record id. */
    var gifteeIds: map<string, string>
    var isDrawDone: bool
    var groupStatus: string

    constructor (gifteeIds: map<string, string>, isDrawDone: bool, groupStatus: string)
      ensures this.gifteeIds == gifteeIds && this.isDrawDone == isDrawDone
      ensures this.groupStatus == groupStatus
    {
      this.gifteeIds := gifteeIds;
      this.isDrawDone := isDrawDone;
      this.groupStatus := groupStatus;
    }
  }

  /** The moderator's view of the group `groupId`. */
  class GroupManage {
    const groupId: string
    var participants: seq<Participant>
    var loading: bool
    var drawLoading: bool

    /** Every listed participant passed the client-side group filter. */
    ghost predicate Valid()
      reads this
    {
      forall p :: p in participants ==> InGroup(p, groupId)
    }

    constructor (groupId: string)
      ensures this.groupId == groupId && participants == []
      ensures loading && !drawLoading && Valid()
    {
      this.groupId := groupId;
      participants := [];
      loading := true;
      drawLoading := false;
    }

    /** `fetchData` (lines 16-60): the participant records fetched for the
        group, or `None` when a request failed. */
    method FetchData(fetched: Option<seq<Participant>>)
      modifies this
      ensures fetched.Some? ==> participants == ForGroup(fetched.value, groupId)
      ensures fetched.None? ==> participants == old(participants)
      ensures !loading && drawLoading == old(drawLoading)
      ensures fetched.Some? ==> Valid()
      ensures old(Valid()) ==> Valid()
    {
      if fetched.Some? {
        participants := ForGroup(fetched.value, groupId);
      }
      loading := false;
    }

    /** `handleStatusChange` (lines 65-84): `confirmed` is the answer to the
        confirmation asked before a rejection and `writeOk` the outcome of
        the remote delete or patch. */
    method HandleStatusChange(pid: string, newStatus: ParticipantStatus, confirmed: bool, writeOk: bool)
      returns (outcome: StatusOutcome)
      requires Valid()
      modifies this`participants
      ensures Valid()
      ensures outcome == Updated ==>
                participants == if newStatus == Rejected then Reject(old(participants), pid)
                                else SetStatus(old(participants), pid, newStatus)
      ensures outcome != Updated ==> participants == old(participants)
      ensures outcome == Cancelled <==> newStatus == Rejected && !confirmed
      ensures outcome == Updated <==> (newStatus != Rejected || confirmed) && writeOk
    {
      if newStatus == Rejected {
        if !confirmed {
          return Cancelled;
        }
        if !writeOk {
          return Failed;
        }
        participants := Reject(participants, pid);
      } else {
        if !writeOk {
          return Failed;
        }
        SetStatusFacts(participants, pid, newStatus, groupId);
        participants := SetStatus(participants, pid, newStatus);
      }
      outcome := Updated;
    }

    /** `handleDraw` (lines 87-149), with the pairing taken in shuffle order.
        `swaps` supplies the random index of each shuffle step, `writeOk[k]`
        the outcome of the `k`-th giftee write and `groupWriteOk` that of
        the final group update. */
    method HandleDraw(confirmed: bool, swaps: seq<nat>, writeOk: seq<bool>, groupWriteOk: bool, store: Store)
      returns (outcome: DrawOutcome, asg: seq<Draw.Assignment<string>>)
      requires Valid()
      requires Draw.ValidSwaps(swaps, |ApprovedOf(participants)|)
      requires |writeOk| == |ApprovedOf(participants)|
      modifies this`drawLoading, store
      ensures outcome == TooFew <==> |ApprovedOf(participants)| < 2
      ensures outcome == Declined <==> |ApprovedOf(participants)| >= 2 && !confirmed
      ensures outcome == Drawn <==>
                |ApprovedOf(participants)| >= 2 && confirmed && groupWriteOk &&
                forall k :: 0 <= k < |writeOk| ==> writeOk[k]
      ensures outcome == TooFew || outcome == Declined ==>
                asg == [] && drawLoading == old(drawLoading) &&
                store.gifteeIds == old(store.gifteeIds)
      ensures outcome == WriteFailed || outcome == Drawn ==>
                !drawLoading && |asg| == |writeOk| &&
                Draw.PairedInCycle(Draw.FisherYates(UserIds(ApprovedOf(participants)), swaps), asg) &&
                store.gifteeIds == Persisted(old(store.gifteeIds), ApprovedOf(participants), asg, writeOk, |asg|)
      ensures outcome == Drawn ==> store.isDrawDone && store.groupStatus == "drawn"
      ensures outcome != Drawn ==>
                store.isDrawDone == old(store.isDrawDone) && store.groupStatus == old(store.groupStatus)
    {
      var approved := ApprovedOf(participants);
      var n := |approved|;
      if n < 2 {
        return TooFew, [];
      }
      if !confirmed {
        return Declined, [];
      }
      drawLoading := true;

      var ids := UserIds(approved);
      var shuffled;
      shuffled, asg := Draw.ShuffleAndPair(ids, swaps);

      GiversFound(approved, shuffled, asg);
      var allOk := WriteGiftees(store, approved, asg, writeOk);
      if allOk && groupWriteOk {
        store.isDrawDone := true;
        store.groupStatus := "drawn";
        outcome := Drawn;
      } else {
        outcome := WriteFailed;
      }
      drawLoading := false;
    }
  }
}
