/**
 The coordinator's in-memory membership registry: which member sits in which
 replica group, the counter that names the next group, the configured number
 of replicas and the tablet list; the placement of a joining member (Connect),
 the membership test (HasMember) and the tablet-ownership answer (ShouldServe).
 Every operation is atomic here: the lock that serialises them is not modelled.
 */
module Zero {
  import opened Protos

  /** Group id to (member id to the member's stored record). */
  type GroupMap = map<uint32, map<uint64, Membership>>

  datatype ZeroError = Cancelled | InvalidId | InvalidAddress | Unreachable

  /** What Connect reports: the member's final group, or why it was refused. */
  datatype ConnectResult = Joined(groupId: uint32) | Rejected(error: ZeroError)

  datatype Outcome = Pass | Fail(error: ZeroError)

  /** The reply ShouldServe writes, or none at all for a tablet nobody serves. */
  datatype ServeAnswer = Ok | Not | Wrong | NoAnswer

  /** Every stored record sits under its own group id and its own member id. */
  ghost predicate Consistent(gm: GroupMap)
  {
    forall g, id :: g in gm && id in gm[g] ==> gm[g][id].groupId == g && gm[g][id].id == id
  }

  /** No group holds more than n members. */
  ghost predicate WithinCapacity(gm: GroupMap, n: int)
  {
    forall g :: g in gm ==> |gm[g]| <= n
  }

  /** Group g exists and has fewer than n members. */
  predicate HasRoom(gm: GroupMap, n: int, g: uint32)
  {
    g in gm && |gm[g]| < n
  }

  ghost predicate AnyRoom(gm: GroupMap, n: int)
  {
    exists g :: HasRoom(gm, n, g)
  }

  /** The checks Connect makes before it touches the registry all pass. */
  predicate Admitted(cancelled: bool, probeOk: bool, m: Membership)
  {
    !cancelled && m.id != 0 && |m.addr| > 0 && probeOk
  }

  /** The member's preferred group decides its placement (the three early returns). */
  predicate PreferredDecides(gm: GroupMap, n: int, m: Membership)
  {
    m.groupId > 0 && (m.groupId !in gm || m.id in gm[m.groupId] || |gm[m.groupId]| < n)
  }

  /** The owner of the tablet named pred: the group of the last entry with that predicate, 0 if none. */
  function TabletOwner(ts: seq<Tablet>, pred: string): uint32
  {
    if ts == [] then 0
    else if ts[|ts| - 1].pred == pred then ts[|ts| - 1].groupId
    else TabletOwner(ts[..|ts| - 1], pred)
  }

  /** No entry names pred: nobody owns it. */
  lemma {:induction false} TabletOwnerNoMatch(ts: seq<Tablet>, pred: string)
    requires forall i :: 0 <= i < |ts| ==> ts[i].pred != pred
    ensures TabletOwner(ts, pred) == 0
  {
    if ts != [] {
      var init := ts[..|ts| - 1];
      assert forall i :: 0 <= i < |init| ==> init[i] == ts[i];
      TabletOwnerNoMatch(init, pred);
    }
  }

  /** Entry k is the last one naming pred: its group owns the tablet. */
  lemma {:induction false} TabletOwnerLastMatch(ts: seq<Tablet>, pred: string, k: nat)
    requires k < |ts| && ts[k].pred == pred
    requires forall j :: k < j < |ts| ==> ts[j].pred != pred
    ensures TabletOwner(ts, pred) == ts[k].groupId
  {
    var last := |ts| - 1;
    if k < last {
      var init := ts[..last];
      assert forall j :: 0 <= j < |init| ==> init[j] == ts[j];
      TabletOwnerLastMatch(init, pred, k);
    }
  }

  /** A subset is no larger than its superset. */
  lemma {:induction false} SubsetSize<T>(a: set<T>, b: set<T>)
    requires a <= b
    ensures |a| <= |b|
    decreases b
  {
    if a != {} {
      var x :| x in a;
      SubsetSize(a - {x}, b - {x});
    }
  }

  /** The steps from `from` to `to` by repeated Succ. */
  function Gap(from: uint32, to: uint32): (d: nat)
    ensures d < Uint32Limit
    ensures d == 0 <==> from == to
  {
    (to - from) % Uint32Limit
  }

  /** One more Succ step is one more step, short of a full turn. */
  lemma GapSucc(from: uint32, x: uint32)
    requires Gap(from, x) + 1 < Uint32Limit
    ensures Gap(from, Succ(x)) == Gap(from, x) + 1
  {
  }

  /** Different ids lie at different distances from the same start. */
  lemma GapInjective(from: uint32, a: uint32, b: uint32)
    requires Gap(from, a) == Gap(from, b)
    ensures a == b
  {
  }

  /**
   The placement rule Connect applies once the member is admitted: the new
   group map gm', the new counter next' and the member's final group gid.
   When several groups have room the rule leaves open which one is taken.
   */
  ghost predicate Placement(gm: GroupMap, next: uint32, n: int, m: Membership,
                            gm': GroupMap, next': uint32, gid: uint32)
  {
    if m.groupId > 0 && m.groupId !in gm then
      gid == m.groupId && next' == next && gm' == gm[gid := map[m.id := m]]
    else if m.groupId > 0 && (m.id in gm[m.groupId] || |gm[m.groupId]| < n) then
      var group: map<uint64, Membership> := gm[m.groupId];
      gid == m.groupId && next' == next && gm' == gm[gid := group[m.id := m]]
    else if AnyRoom(gm, n) then
      HasRoom(gm, n, gid) && next' == next &&
      var group: map<uint64, Membership> := gm[gid];
      gm' == gm[gid := group[m.id := m.(groupId := gid)]]
    else
      gid == next && next' == Succ(next) && gm' == gm[gid := map[m.id := m.(groupId := gid)]]
  }

  /** The placed member is stored, under its final group, as m with that group. */
  lemma PlacementStoresMember(gm: GroupMap, next: uint32, n: int, m: Membership,
                              gm': GroupMap, next': uint32, gid: uint32)
    requires Placement(gm, next, n, m, gm', next', gid)
    ensures gid in gm' && m.id in gm'[gid] && gm'[gid][m.id] == m.(groupId := gid)
    ensures m.groupId > 0 && (m.groupId !in gm || m.id in gm[m.groupId]) ==> gid == m.groupId
  {
  }

  /** Only the member's final group changes, unless the rule ran out of room and replaced one. */
  lemma PlacementTouchesOneGroup(gm: GroupMap, next: uint32, n: int, m: Membership,
                                 gm': GroupMap, next': uint32, gid: uint32)
    requires Placement(gm, next, n, m, gm', next', gid)
    ensures gm'.Keys == gm.Keys + {gid}
    ensures forall g :: g in gm && g != gid ==> gm'[g] == gm[g]
    ensures gid in gm && next' == next ==> gm[gid].Keys <= gm'[gid].Keys
  {
  }

  /**
   When no group has room, the group stored at the old counter value holds
   only the new member, even if a group with that id existed: its other
   members are dropped.
   */
  lemma PlacementReplacesCounterGroup(gm: GroupMap, next: uint32, n: int, m: Membership,
                                      gm': GroupMap, next': uint32, gid: uint32)
    requires Placement(gm, next, n, m, gm', next', gid)
    requires next' != next && next in gm
    ensures gid == next && gm'[gid].Keys == {m.id}
    ensures forall id :: id in gm[next] && id != m.id ==> id !in gm'[gid]
  {
  }

  /**
   The counter moves only when a new group is made, and a new group is made
   only when the preferred group does not decide and no group has room.
   */
  lemma PlacementCounter(gm: GroupMap, next: uint32, n: int, m: Membership,
                         gm': GroupMap, next': uint32, gid: uint32)
    requires Placement(gm, next, n, m, gm', next', gid)
    ensures next' == next || next' == Succ(next)
    ensures next' != next <==> !PreferredDecides(gm, n, m) && !AnyRoom(gm, n)
    ensures next' != next ==> gid == next
    ensures next' == next ==> gid in gm || gid == m.groupId
  {
  }

  /** Re-registering a member already in its preferred group changes only its record. */
  lemma PlacementReconnect(gm: GroupMap, next: uint32, n: int, m: Membership,
                           gm': GroupMap, next': uint32, gid: uint32)
    requires Placement(gm, next, n, m, gm', next', gid)
    requires m.groupId > 0 && m.groupId in gm && m.id in gm[m.groupId]
    ensures gid == m.groupId && next' == next
    ensures gm'.Keys == gm.Keys
    ensures forall g :: g in gm ==> gm'[g].Keys == gm[g].Keys
    ensures gm'[gid][m.id] == m
  {
  }

  /** Placement keeps every record under its own group id and member id. */
  lemma PlacementKeepsConsistent(gm: GroupMap, next: uint32, n: int, m: Membership,
                                 gm': GroupMap, next': uint32, gid: uint32)
    requires Placement(gm, next, n, m, gm', next', gid)
    requires Consistent(gm)
    ensures Consistent(gm')
  {
  }

  /** With at least one replica wanted, placement never lets a group grow past n members. */
  lemma PlacementKeepsCapacity(gm: GroupMap, next: uint32, n: int, m: Membership,
                               gm': GroupMap, next': uint32, gid: uint32)
    requires Placement(gm, next, n, m, gm', next', gid)
    requires n >= 1 && WithinCapacity(gm, n)
    ensures WithinCapacity(gm', n)
  {
  }

  class Server {
    var NumReplicas: int
    var tablets: seq<Tablet>
    var groupMap: GroupMap
    var nextGroup: uint32

    /** The registry as the Go zero value leaves it, with the map made and the configuration set. */
    constructor (numReplicas: int, tablets: seq<Tablet>)
      ensures NumReplicas == numReplicas && this.tablets == tablets
      ensures groupMap == map[] && nextGroup == 0
    {
      NumReplicas := numReplicas;
      this.tablets := tablets;
      groupMap := map[];
      nextGroup := 0;
    }

    /** The member's asserted group exists and holds its id. */
    predicate HasMember(ms: Membership)
      reads this
    {
      ms.groupId in groupMap && ms.id in groupMap[ms.groupId]
    }

    /**
     Place a joining member into a replica group. The context and the
     connection test are the flags `cancelled` and `probeOk`.
     */
    method Connect(cancelled: bool, probeOk: bool, m: Membership) returns (r: ConnectResult)
      modifies this`groupMap, this`nextGroup
      // The checks, in order; each refusal leaves the registry as it was.
      ensures cancelled ==> r == Rejected(Cancelled)
      ensures !cancelled && m.id == 0 ==> r == Rejected(InvalidId)
      ensures !cancelled && m.id != 0 && |m.addr| == 0 ==> r == Rejected(InvalidAddress)
      ensures !cancelled && m.id != 0 && |m.addr| > 0 && !probeOk ==> r == Rejected(Unreachable)
      ensures r.Rejected? <==> !Admitted(cancelled, probeOk, m)
      ensures r.Rejected? ==> groupMap == old(groupMap) && nextGroup == old(nextGroup)
      // An admitted member is placed by the placement rule, and is a member afterwards.
      ensures r.Joined? ==>
                Placement(old(groupMap), old(nextGroup), NumReplicas, m, groupMap, nextGroup, r.groupId)
      ensures r.Joined? ==> HasMember(m.(groupId := r.groupId))
      // The registry's invariants survive every call.
      ensures old(Consistent(groupMap)) ==> Consistent(groupMap)
      ensures old(WithinCapacity(groupMap, NumReplicas)) && NumReplicas >= 1 ==>
                WithinCapacity(groupMap, NumReplicas)
    {
      if cancelled {
        return Rejected(Cancelled);
      }
      if m.id == 0 {
        return Rejected(InvalidId);
      }
      if |m.addr| == 0 {
        return Rejected(InvalidAddress);
      }
      if !probeOk {
        return Rejected(Unreachable);
      }
      ghost var gm, next := groupMap, nextGroup;
      var gid := Place(m);
      PlacementStoresMember(gm, next, NumReplicas, m, groupMap, nextGroup, gid);
      if Consistent(gm) {
        PlacementKeepsConsistent(gm, next, NumReplicas, m, groupMap, nextGroup, gid);
      }
      if WithinCapacity(gm, NumReplicas) && NumReplicas >= 1 {
        PlacementKeepsCapacity(gm, next, NumReplicas, m, groupMap, nextGroup, gid);
      }
      return Joined(gid);
    }

    /** The part of Connect that runs under the lock: the placement rule. */
    method Place(m: Membership) returns (gid: uint32)
      modifies this`groupMap, this`nextGroup
      ensures Placement(old(groupMap), old(nextGroup), NumReplicas, m, groupMap, nextGroup, gid)
    {
      if m.groupId > 0 {
        if m.groupId !in groupMap {
          groupMap := groupMap[m.groupId := map[m.id := m]];
          return m.groupId;
        }
        var group := groupMap[m.groupId];
        if m.id in group {
          groupMap := groupMap[m.groupId := group[m.id := m]];
          return m.groupId;
        }
        if |group| < NumReplicas {
          groupMap := groupMap[m.groupId := group[m.id := m]];
          return m.groupId;
        }
      }
      // The scan visits the groups in no particular order.
      var unseen := groupMap.Keys;
      while unseen != {}
        invariant unseen <= groupMap.Keys
        invariant forall g :: g in groupMap && g !in unseen ==> !HasRoom(groupMap, NumReplicas, g)
        decreases unseen
      {
        var g :| g in unseen;
        if |groupMap[g]| < NumReplicas {
          assert HasRoom(groupMap, NumReplicas, g);
          var group := groupMap[g];
          groupMap := groupMap[g := group[m.id := m.(groupId := g)]];
          return g;
        }
        unseen := unseen - {g};
      }
      var placed := m.(groupId := nextGroup);
      nextGroup := Succ(nextGroup);
      groupMap := groupMap[placed.groupId := map[m.id := placed]];
      return placed.groupId;
    }

    /**
     Allocation of a new group as it should be: the first id at or after
     nextGroup (in counter order) that no group uses yet, so that no
     registered group is replaced.
     */
    method AddToFreshGroup(m: Membership) returns (gid: uint32)
      requires |groupMap| < Uint32Limit
      modifies this`groupMap, this`nextGroup
      ensures gid !in old(groupMap) && nextGroup == Succ(gid)
      ensures forall g :: Gap(old(nextGroup), g) < Gap(old(nextGroup), gid) ==> g in old(groupMap)
      ensures groupMap == old(groupMap)[gid := map[m.id := m.(groupId := gid)]]
      ensures forall g :: g in old(groupMap) ==> g in groupMap && groupMap[g] == old(groupMap)[g]
    {
      ghost var start := nextGroup;
      ghost var skipped: set<uint32> := {};
      while nextGroup in groupMap
        invariant groupMap == old(groupMap)
        invariant skipped <= groupMap.Keys
        invariant |skipped| == Gap(start, nextGroup)
        invariant forall g :: g in skipped <==> Gap(start, g) < Gap(start, nextGroup)
        decreases |groupMap.Keys| - |skipped|
      {
        SubsetSize(skipped + {nextGroup}, groupMap.Keys);
        GapSucc(start, nextGroup);
        forall g | Gap(start, g) == Gap(start, nextGroup)
          ensures g == nextGroup
        {
          GapInjective(start, g, nextGroup);
        }
        skipped := skipped + {nextGroup};
        nextGroup := Succ(nextGroup);
      }
      gid := nextGroup;
      nextGroup := Succ(nextGroup);
      groupMap := groupMap[gid := map[m.id := m.(groupId := gid)]];
    }

    /** Whether the calling member should serve the tablet it asks about. */
    method ShouldServe(query: MembershipQuery) returns (answer: ServeAnswer)
      ensures answer == Wrong <==> !HasMember(query.member)
      ensures answer == NoAnswer <==>
                HasMember(query.member) && TabletOwner(tablets, query.tablet.pred) == 0
      ensures answer == Ok <==>
                HasMember(query.member) && TabletOwner(tablets, query.tablet.pred) != 0 &&
                TabletOwner(tablets, query.tablet.pred) == query.member.groupId
      ensures answer == Not <==>
                HasMember(query.member) && TabletOwner(tablets, query.tablet.pred) != 0 &&
                TabletOwner(tablets, query.tablet.pred) != query.member.groupId
    {
      if !HasMember(query.member) {
        return Wrong;
      }
      var tgroup: uint32 := 0;
      for i := 0 to |tablets|
        invariant tgroup == TabletOwner(tablets[..i], query.tablet.pred)
      {
        assert tablets[..i + 1][..i] == tablets[..i];
        if tablets[i].pred == query.tablet.pred {
          tgroup := tablets[i].groupId;
        }
      }
      assert tablets[..|tablets|] == tablets;
      if tgroup == 0 {
        return NoAnswer;
      }
      if tgroup == query.member.groupId {
        answer := Ok;
      } else {
        answer := Not;
      }
    }

    /** The heartbeat: nothing beyond the cancellation check. */
    method Update(cancelled: bool, membership: Membership) returns (r: Outcome)
      ensures cancelled ==> r == Fail(Cancelled)
      ensures !cancelled ==> r == Pass
    {
      if cancelled {
        return Fail(Cancelled);
      }
      return Pass;
    }
  }

  /**
   With every record stored under its own keys, HasMember holds exactly when
   some group records a member with the asserted id and the asserted group.
   */
  lemma HasMemberIffRecorded(s: Server, ms: Membership)
    requires Consistent(s.groupMap)
    ensures s.HasMember(ms) <==>
              exists g :: g in s.groupMap && ms.id in s.groupMap[g] && s.groupMap[g][ms.id].groupId == ms.groupId
  {
  }
}
