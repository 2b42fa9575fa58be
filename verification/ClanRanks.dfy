/** How ranks are given, over whole runs of the clan service. */
module ClanRanks {
  import opened Bytes
  import opened Wrappers
  import opened Seqs
  import opened ClanModel
  import opened ClanInvariant
  import opened ClanRuns

  /** The member with this ID is this player. */
  predicate Names(w: World, name: string, id: uint16, steamID: string) {
    name in w.clans && exists m :: m in w.clans[name].members && m.memberID == id && m.steamID == steamID
  }

  /** The only ways to another rank: 1 as founder, 8 by acceptance of an application, what the
      master of the moment assigns, and 1 and 2 by a hand-over. */
  predicate GetsRank(w: World, op: Op, name: string, steamID: string, rank: uint8) {
    match op
    case Create(s, _, n) => n == name && name !in w.clans && s == steamID && rank == 1
    case Accept(a, id) =>
      && a.clanName == name && RankIn(w, name, a.steamID) in {1, 2} && RankIn(w, name, steamID) == 255 && rank == 8
      && name in w.clans && exists q :: q in w.clans[name].applicants && q.applicantID == id && q.steamID == steamID
    case ChangePosition(a, id, r) =>
      && a.clanName == name && RankIn(w, name, a.steamID) == 1 && Names(w, name, id, steamID)
      && rank == r && r in {2, 8, 9}
    case ChangeMaster(a, id) =>
      && a.clanName == name && RankIn(w, name, a.steamID) == 1
      && ((rank == 1 && Names(w, name, id, steamID)) || (rank == 2 && steamID == a.steamID))
    case _ => false
  }

  /** 255 is for strangers, and a member has the rank of his place. */
  lemma RankIs(w: World, name: string, steamID: string)
    requires WorldOk(w)
    ensures RankIn(w, name, steamID) == 255 <==> !OnRoster(w, name, steamID)
    ensures name in w.clans ==> forall m | m in w.clans[name].members && m.steamID == steamID ::
      RankIn(w, name, steamID) == m.rank
  {
    hide ClanOk, RankIn;
    if name in w.clans {
      var c := w.clans[name];
      forall m | m in c.members && m.steamID == steamID ensures RankIn(w, name, steamID) == m.rank {
        var k :| 0 <= k < |c.members| && c.members[k] == m;
        RankOfPlace(w, name, k);
      }
      if m :| m in c.members && m.steamID == steamID {
        RankBound(w, name, m);
      }
    }
    if !OnRoster(w, name, steamID) {
      StrangerRank(w, name, steamID);
    }
  }

  lemma RankBound(w: World, name: string, m: Member)
    requires WorldOk(w) && name in w.clans && m in w.clans[name].members
    ensures m.rank in {1, 2, 8, 9}
  {
  }

  lemma StrangerRank(w: World, name: string, steamID: string)
    requires !OnRoster(w, name, steamID)
    ensures RankIn(w, name, steamID) == 255
  {
    if name in w.clans {
      NotFound(w.clans[name], steamID);
    }
  }

  /** A member who is on both rosters as he is has kept his rank. */
  lemma SameMember(w: World, w': World, name: string, m: Member)
    requires WorldOk(w) && WorldOk(w') && name in w.clans && name in w'.clans
    requires m in w.clans[name].members && m in w'.clans[name].members
    ensures RankIn(w, name, m.steamID) == RankIn(w', name, m.steamID)
  {
    hide WorldOk, RankIn;
    RankIs(w, name, m.steamID);
    RankIs(w', name, m.steamID);
  }

  /** Enrolled as `m`, or as before. */
  lemma EnrolledRank(w: World, w': World, name: string, m: Member, steamID: string)
    requires WorldOk(w) && WorldOk(w') && name in w.clans && name in w'.clans
    requires w'.clans[name].members == w.clans[name].members + [m]
    ensures RankIn(w', name, steamID) != RankIn(w, name, steamID) ==>
      m.steamID == steamID && RankIn(w', name, steamID) == m.rank && RankIn(w, name, steamID) == 255
  {
    hide WorldOk, RankIn;
    var ms, ms' := w.clans[name].members, w'.clans[name].members;
    assert ms'[|ms|] == m;
    RankIs(w, name, steamID);
    RankIs(w', name, steamID);
    if x :| x in ms && x.steamID == steamID {
      assert x in ms';
      SameMember(w, w', name, x);
    } else if x :| x in ms' && x.steamID == steamID {
      assert x == m;
    }
  }

  /** Nobody new and nobody changed. */
  lemma ShrunkRank(w: World, w': World, name: string, steamID: string)
    requires WorldOk(w) && WorldOk(w') && name in w.clans
    requires name in w'.clans ==> forall m | m in w'.clans[name].members :: m in w.clans[name].members
    ensures RankIn(w', name, steamID) in {RankIn(w, name, steamID), 255}
  {
    hide WorldOk, RankIn;
    RankIs(w', name, steamID);
    if OnRoster(w', name, steamID) {
      var m :| m in w'.clans[name].members && m.steamID == steamID;
      SameMember(w, w', name, m);
    }
  }

  /** Rank changes at places alone. */
  lemma ReplacedRank(w: World, w': World, name: string, steamID: string) returns (k: nat)
    requires WorldOk(w) && WorldOk(w') && name in w.clans && name in w'.clans
    requires var ms, ms' := w.clans[name].members, w'.clans[name].members;
      |ms'| == |ms| && forall i | 0 <= i < |ms| :: ms'[i].steamID == ms[i].steamID
    ensures RankIn(w', name, steamID) != RankIn(w, name, steamID) ==>
      var ms, ms' := w.clans[name].members, w'.clans[name].members;
      k < |ms| && ms[k].steamID == steamID && ms'[k] != ms[k] && RankIn(w', name, steamID) == ms'[k].rank
  {
    hide WorldOk, RankIn;
    var ms, ms' := w.clans[name].members, w'.clans[name].members;
    RankIs(w, name, steamID);
    RankIs(w', name, steamID);
    k := 0;
    if i :| 0 <= i < |ms| && ms[i].steamID == steamID {
      k := i;
      assert ms[k] in ms && ms'[k] in ms';
      if ms'[k] == ms[k] {
        SameMember(w, w', name, ms[k]);
      }
    } else {
      assert forall m | m in ms' :: m.steamID != steamID;
    }
  }

  // ------------------------------------------------------------ one step

  lemma CreateRank(w: World, s: string, p: string, n: string, name: string, steamID: string)
    requires WorldOk(w) && ClanModel.Create(w, s, p, n).Done?
    ensures var w', op := ClanModel.Create(w, s, p, n).world, Op.Create(s, p, n);
      RankIn(w', name, steamID) != RankIn(w, name, steamID) ==>
        GetsRank(w, op, name, steamID, RankIn(w', name, steamID))
  {
    hide WorldOk;
    CreateOk(w, s, p, n);
    var w' := ClanModel.Create(w, s, p, n).world;
    if name == n {
      hide RankIn;
      var m := Member(1, s, p, RANK_MASTER);
      assert w'.clans[name].members == [m] && m in w'.clans[name].members;
      RankIs(w', name, steamID);
      StrangerRank(w, name, steamID);
    }
  }

  lemma AcceptRank(w: World, a: Actor, id: uint16, name: string, steamID: string)
    requires WorldOk(w) && ClanModel.Accept(w, a, id).Done?
    ensures var w', op := ClanModel.Accept(w, a, id).world, Op.Accept(a, id);
      RankIn(w', name, steamID) != RankIn(w, name, steamID) ==>
        GetsRank(w, op, name, steamID, RankIn(w', name, steamID))
  {
    hide WorldOk, ClanOk, IsMember, SetClanName;
    AcceptOk(w, a, id);
    var w' := ClanModel.Accept(w, a, id).world;
    var k := ActorPlace(w, a);
    if name == a.clanName {
      hide RankIn;
      var c := w.clans[name];
      RankOfPlace(w, name, k);
      var m := ClanModel.Accept(w, a, id).subject.member;
      assert c.applicants[IndexOf(c.applicants, ApplicantWith(id))] in c.applicants;
      EnrolledRank(w, w', name, m, steamID);
    }
  }

  lemma KickRank(w: World, a: Actor, id: uint16, name: string, steamID: string)
    requires WorldOk(w) && ClanModel.Kick(w, a, id).Done?
    ensures RankIn(ClanModel.Kick(w, a, id).world, name, steamID) in {RankIn(w, name, steamID), 255}
  {
    hide WorldOk, ClanOk, IsMember, SetClanName;
    KickOk(w, a, id);
    var k := ActorPlace(w, a);
    if name == a.clanName {
      hide RankIn;
      RemoveKeeps(w.clans[name].members, MemberWith(id));
      ShrunkRank(w, ClanModel.Kick(w, a, id).world, name, steamID);
    }
  }

  lemma LeaveRank(w: World, a: Actor, name: string, steamID: string)
    requires WorldOk(w) && ClanModel.Leave(w, a).Done?
    ensures RankIn(ClanModel.Leave(w, a).world, name, steamID) in {RankIn(w, name, steamID), 255}
  {
    hide WorldOk, ClanOk, IsMember, SetClanName;
    LeaveOk(w, a);
    var k := ActorPlace(w, a);
    if name == a.clanName {
      hide RankIn;
      RemoveKeeps(w.clans[name].members, MemberWith(w.clans[name].members[k].memberID));
      ShrunkRank(w, ClanModel.Leave(w, a).world, name, steamID);
    }
  }

  lemma RemoveKeeps(ms: seq<Member>, p: Member -> bool)
    ensures forall m | m in Remove(ms, p) :: m in ms
  {
    var i := IndexOf(ms, p);
    forall m | m in Remove(ms, p) ensures m in ms {
      if i < |ms| {
        WithoutKeeps(ms, i, m);
      }
    }
  }

  lemma ChangePositionRank(w: World, a: Actor, id: uint16, r: uint8, name: string, steamID: string)
    requires WorldOk(w) && ClanModel.ChangePosition(w, a, id, r).Done?
    ensures var w', op := ClanModel.ChangePosition(w, a, id, r).world, Op.ChangePosition(a, id, r);
      RankIn(w', name, steamID) != RankIn(w, name, steamID) ==>
        GetsRank(w, op, name, steamID, RankIn(w', name, steamID))
  {
    hide WorldOk, ClanOk, IsMember;
    ChangePositionOk(w, a, id, r);
    var w' := ClanModel.ChangePosition(w, a, id, r).world;
    var k := ActorPlace(w, a);
    if name == a.clanName {
      hide RankIn;
      var c := w.clans[name];
      RankOfPlace(w, name, k);
      assert c.members[IndexOf(c.members, MemberWith(id))] in c.members;
      var j := ReplacedRank(w, w', name, steamID);
    }
  }

  lemma ChangeMasterRank(w: World, a: Actor, id: uint16, name: string, steamID: string)
    requires WorldOk(w) && ClanModel.ChangeMaster(w, a, id).Done?
    ensures var w', op := ClanModel.ChangeMaster(w, a, id).world, Op.ChangeMaster(a, id);
      RankIn(w', name, steamID) != RankIn(w, name, steamID) ==>
        GetsRank(w, op, name, steamID, RankIn(w', name, steamID))
  {
    hide WorldOk, ClanOk, IsMember, SetRank;
    ChangeMasterOk(w, a, id);
    var w' := ClanModel.ChangeMaster(w, a, id).world;
    var k := ActorPlace(w, a);
    if name == a.clanName {
      hide RankIn;
      var c := w.clans[name];
      RankOfPlace(w, name, k);
      var i := IndexOf(c.members, MemberWith(id));
      assert c.members[i] in c.members;
      ChangeMasterRoster(c, k, i);
      var j := ReplacedRank(w, w', name, steamID);
    }
  }

  lemma DisbandRank(w: World, a: Actor, name: string, steamID: string)
    requires WorldOk(w) && ClanModel.Disband(w, a).Done?
    ensures RankIn(ClanModel.Disband(w, a).world, name, steamID) in {RankIn(w, name, steamID), 255}
  {
    hide WorldOk, ClanOk, IsMember, Unlink;
    var k := ActorPlace(w, a);
  }

  /** Queue operations leave rosters alone. */
  lemma QueueRank(w: World, op: Op, name: string, steamID: string)
    requires WorldOk(w) && Legal(w, op) && (op.Register? || op.RequestJoin? || op.Reject? || op.Cancel?)
    ensures RankIn(Apply(w, op), name, steamID) == RankIn(w, name, steamID)
  {
    hide ClanOk, LinkOk, NextApplicantID;
  }

  /** One operation: a changed rank is by right, and no rank at all means removal by right. */
  lemma StepRank(w: World, op: Op, name: string, steamID: string)
    requires WorldOk(w) && Legal(w, op)
    ensures var was, rank := RankIn(w, name, steamID), RankIn(Apply(w, op), name, steamID);
      rank != was ==>
        if rank == 255 then MayRemove(w, op, name, steamID) else GetsRank(w, op, name, steamID, rank)
  {
    hide WorldOk, Legal, RankIn, GetsRank, MayRemove, IsMember, IsApplicant;
    StepProper(w, op, name, steamID);
    StepOk(w, op);
    RankIs(w, name, steamID);
    RankIs(Apply(w, op), name, steamID);
    hide OnRoster, Queued;
    if op.Register? || op.RequestJoin? || op.Reject? || op.Cancel? {
      QueueRank(w, op, name, steamID);
    } else if OutcomeOf(w, op).Done? {
      match op {
        case Create(s, p, n) => CreateRank(w, s, p, n, name, steamID);
        case Accept(a, id) => AcceptRank(w, a, id, name, steamID);
        case Kick(a, id) => KickRank(w, a, id, name, steamID);
        case Leave(a) => LeaveRank(w, a, name, steamID);
        case ChangePosition(a, id, r) => ChangePositionRank(w, a, id, r, name, steamID);
        case ChangeMaster(a, id) => ChangeMasterRank(w, a, id, name, steamID);
        case Disband(a) => DisbandRank(w, a, name, steamID);
        case _ =>
      }
    }
  }

  /** Over a whole run: a player whose rank on a roster is another than before got it at some
      step between, by right, or was taken off the roster by right. */
  lemma {:induction false} RankOnlyByRight(run: seq<World>, ops: seq<Op>, i: nat, j: nat, name: string, steamID: string)
    returns (k: nat)
    requires IsRun(run, ops) && i <= j < |run|
    requires RankIn(run[i], name, steamID) != RankIn(run[j], name, steamID)
    ensures i <= k < j && RankIn(run[k], name, steamID) != RankIn(run[j], name, steamID)
    ensures RankIn(run[k + 1], name, steamID) == RankIn(run[j], name, steamID)
    ensures var rank := RankIn(run[j], name, steamID);
      if rank == 255 then MayRemove(run[k], ops[k], name, steamID) else GetsRank(run[k], ops[k], name, steamID, rank)
    decreases j - i
  {
    hide Apply, OutcomeOf, Legal, WorldOk, RankIn, GetsRank, MayRemove;
    assert run[j - 1 + 1] == Apply(run[j - 1], ops[j - 1]);
    if RankIn(run[j - 1], name, steamID) == RankIn(run[j], name, steamID) {
      k := RankOnlyByRight(run, ops, i, j - 1, name, steamID);
    } else {
      RunOk(run, ops, j - 1);
      StepRank(run[j - 1], ops[j - 1], name, steamID);
      k := j - 1;
    }
  }

  /** Every rank was given: to whoever is on a roster, at some step of the run. */
  lemma RankWasGiven(run: seq<World>, ops: seq<Op>, j: nat, name: string, steamID: string) returns (k: nat)
    requires IsRun(run, ops) && j < |run| && OnRoster(run[j], name, steamID)
    ensures k < j && GetsRank(run[k], ops[k], name, steamID, RankIn(run[j], name, steamID))
    ensures RankIn(run[k], name, steamID) != RankIn(run[j], name, steamID) == RankIn(run[k + 1], name, steamID)
  {
    RunOk(run, ops, j);
    RankIs(run[j], name, steamID);
    hide Apply, WorldOk, OnRoster, GetsRank, MayRemove;
    k := RankOnlyByRight(run, ops, 0, j, name, steamID);
  }
}
