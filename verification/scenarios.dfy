/**
 Concrete runs of the registry, derived from the contracts alone.
 */
module Scenarios {
  import opened Protos
  import opened Zero

  /** One replica per group: the second member cannot join the first member's group. */
  method OneReplicaPerGroup() returns (first: ConnectResult, second: ConnectResult)
    ensures first == Joined(0) && second == Joined(1)
  {
    var s := new Server(1, []);
    first := s.Connect(false, true, Membership(1, 0, "a"));
    assert s.groupMap == map[0 := map[1 := Membership(1, 0, "a")]];
    assert !HasRoom(s.groupMap, 1, 0);
    second := s.Connect(false, true, Membership(2, 0, "b"));
  }

  /** Three replicas per group: the first three members share the first group. */
  method ThreeReplicasShareGroup() returns (r1: ConnectResult, r2: ConnectResult, r3: ConnectResult)
    ensures r1 == Joined(0) && r2 == Joined(0) && r3 == Joined(0)
  {
    var s := new Server(3, []);
    r1 := s.Connect(false, true, Membership(1, 0, "a"));
    assert s.groupMap == map[0 := map[1 := Membership(1, 0, "a")]];
    assert HasRoom(s.groupMap, 3, 0);
    r2 := s.Connect(false, true, Membership(2, 0, "b"));
    assert s.groupMap.Keys == {0} && 3 !in s.groupMap[0] && |s.groupMap[0]| == 2;
    assert HasRoom(s.groupMap, 3, 0);
    r3 := s.Connect(false, true, Membership(3, 0, "c"));
  }

  /** Three replicas per group: with the first group full, the next member starts a new one. */
  method FullGroupOpensAnother() returns (r: ConnectResult)
    ensures r == Joined(1)
  {
    var s := new Server(3, []);
    s.groupMap := map[0 := map[1 := Membership(1, 0, "a"), 2 := Membership(2, 0, "b"), 3 := Membership(3, 0, "c")]];
    s.nextGroup := 1;
    assert |s.groupMap[0]| == 3;
    assert !AnyRoom(s.groupMap, 3);
    r := s.Connect(false, true, Membership(4, 0, "d"));
  }

  /** A cancelled call is refused whatever the member, and changes nothing. */
  method CancelledConnect() returns (r: ConnectResult, untouched: bool)
    ensures r == Rejected(Cancelled) && untouched
  {
    var s := new Server(1, []);
    r := s.Connect(true, true, Membership(0, 0, ""));
    untouched := s.groupMap == map[] && s.nextGroup == 0;
  }

  /**
   The last tablet entry for a predicate decides its owner; an unowned tablet
   gets no answer, and an unknown caller is told it is wrong.
   */
  method ServeDecisions() returns (owner: ServeAnswer, other: ServeAnswer, unowned: ServeAnswer, stranger: ServeAnswer)
    ensures owner == Ok && other == Not && unowned == NoAnswer && stranger == Wrong
  {
    var tablets := [Tablet(2, "name"), Tablet(1, "name"), Tablet(0, "age")];
    var s := new Server(3, tablets);
    var a := Membership(1, 1, "a");
    var b := Membership(2, 2, "b");
    var ra := s.Connect(false, true, a);
    var rb := s.Connect(false, true, b);
    TabletOwnerLastMatch(tablets, "name", 1);
    TabletOwnerLastMatch(tablets, "age", 2);
    owner := s.ShouldServe(MembershipQuery(a, Tablet(0, "name")));
    other := s.ShouldServe(MembershipQuery(b, Tablet(0, "name")));
    unowned := s.ShouldServe(MembershipQuery(a, Tablet(0, "age")));
    stranger := s.ShouldServe(MembershipQuery(Membership(9, 1, "z"), Tablet(0, "name")));
  }

  /**
   A group created through a member's preferred id can later be chosen as a
   new group's id and replaced: the member registered there is lost.
   */
  method LostMemberScenario() returns (before: bool, after: bool)
    ensures before && !after
  {
    var s := new Server(1, []);
    var a := Membership(1, 1, "a");
    var ra := s.Connect(false, true, a);
    assert s.groupMap == map[1 := map[1 := a]] && s.nextGroup == 0;
    assert !AnyRoom(s.groupMap, 1) by {
      assert forall g :: HasRoom(s.groupMap, 1, g) ==> g == 1;
    }
    var rb := s.Connect(false, true, Membership(2, 0, "b"));
    assert s.nextGroup == 1 && s.groupMap.Keys == {0, 1};
    assert |s.groupMap[0]| == 1 && |s.groupMap[1]| == 1;
    before := s.HasMember(a);
    assert !AnyRoom(s.groupMap, 1) by {
      assert forall g :: HasRoom(s.groupMap, 1, g) ==> g == 0 || g == 1;
    }
    var rc := s.Connect(false, true, Membership(3, 0, "c"));
    after := s.HasMember(a);
  }

  /** The corrected allocation in the same situation keeps the member. */
  method KeptMemberScenario() returns (gid: uint32, kept: bool)
    ensures gid == 2 && kept
  {
    var s := new Server(1, []);
    var a := Membership(1, 1, "a");
    var ra := s.Connect(false, true, a);
    var rb := s.Connect(false, true, Membership(2, 0, "b"));
    assert s.nextGroup == 1 && s.groupMap.Keys == {0, 1};
    gid := s.AddToFreshGroup(Membership(3, 0, "c"));
    FirstFreeAfterOne(gid);
    kept := s.HasMember(a);
  }

  /** Counting up from 1 past the used ids 0 and 1, the first free id is 2. */
  lemma FirstFreeAfterOne(gid: uint32)
    requires gid != 0 && gid != 1
    requires forall g :: Gap(1, g) < Gap(1, gid) ==> g == 0 || g == 1
    ensures gid == 2
  {
    assert Gap(1, 2) == 1;
    if Gap(1, gid) == 1 {
      GapInjective(1, gid, 2);
    }
  }
}
