/** Whole runs of the clan service from an empty store, by actors however stale. */
module ClanRuns {
  import opened Bytes
  import opened Wrappers
  import opened Seqs
  import opened ClanModel
  import opened ClanInvariant

  const EMPTY := World(map[], map[])

  predicate IsRun(run: seq<World>, ops: seq<Op>) {
    && |run| == |ops| + 1 && run[0] == EMPTY
    && forall i | 0 <= i < |ops| :: Legal(run[i], ops[i]) && run[i + 1] == Apply(run[i], ops[i])
  }

  lemma {:induction false} RunOk(run: seq<World>, ops: seq<Op>, i: nat)
    requires IsRun(run, ops) && i < |run|
    ensures WorldOk(run[i])
  {
    if i > 0 {
      RunOk(run, ops, i - 1);
      StepOk(run[i - 1], ops[i - 1]);
      assert run[i - 1 + 1] == Apply(run[i - 1], ops[i - 1]);
    }
  }

  /** Place k is the one and only rank-1 place, and its player is the master on record. */
  predicate OnlyMaster(c: Clan, k: nat) {
    && k < |c.members| && c.members[k].rank == RANK_MASTER && c.members[k].steamID == c.master
    && forall j | 0 <= j < |c.members| && j != k :: c.members[j].rank != RANK_MASTER
  }

  lemma MasterIsUnique(c: Clan)
    requires ClanOk(c) && c.members != []
    ensures exists k :: OnlyMaster(c, k)
  {
    var k :| 0 <= k < |c.members| && c.members[k].steamID == c.master;
    assert forall j | 0 <= j < |c.members| :: c.members[j] in c.members;
    assert OnlyMaster(c, k);
  }

  lemma IdsDistinct(c: Clan)
    requires NoneTwice(c)
    ensures Distinct(Ids(c))
  {
  }

  /** In every reachable state: IDs of a clan jointly distinct, nobody listed twice, ranks in
      {1, 2, 8, 9}, the roster within capacity, and an empty roster or exactly one master. */
  lemma ReachableClan(run: seq<World>, ops: seq<Op>, i: nat, name: string)
    requires IsRun(run, ops) && i < |run| && name in run[i].clans
    ensures var c := run[i].clans[name];
            && c.name == name
            && Distinct(Ids(c))
            && (forall j, k | 0 <= j < k < |c.members| :: c.members[j].steamID != c.members[k].steamID)
            && (forall j, k | 0 <= j < k < |c.applicants| :: c.applicants[j].steamID != c.applicants[k].steamID)
            && (forall s :: !(IsMember(c, s) && IsApplicant(c, s)))
            && (forall m | m in c.members :: m.rank in {1, 2, 8, 9})
            && |c.members| <= Capacity(c)
            && (c.members == [] || exists k :: OnlyMaster(c, k))
  {
    RunOk(run, ops, i);
    var c := run[i].clans[name];
    assert ClanOk(c);
    IdsDistinct(c);
    if c.members != [] {
      MasterIsUnique(c);
    }
  }

  /** In every reachable state an account that names a clan is on that clan's roster. */
  lemma ReachableLink(run: seq<World>, ops: seq<Op>, i: nat, steamID: string)
    requires IsRun(run, ops) && i < |run| && steamID in run[i].accounts && run[i].accounts[steamID] != ""
    ensures var name := run[i].accounts[steamID]; name in run[i].clans && IsMember(run[i].clans[name], steamID)
  {
    RunOk(run, ops, i);
    assert LinkOk(run[i], steamID);
  }

  // --------------------------------------------------------------- authority

  predicate OnRoster(w: World, name: string, steamID: string) {
    name in w.clans && IsMember(w.clans[name], steamID)
  }

  predicate Queued(w: World, name: string, steamID: string) {
    name in w.clans && IsApplicant(w.clans[name], steamID)
  }

  /** A player's rank on a roster, 255 for a stranger. */
  function RankIn(w: World, name: string, steamID: string): uint8 {
    if name !in w.clans then 255
    else match Find(w.clans[name].members, MemberOf(steamID))
      case None => 255
      case Some(m) => m.rank
  }

  /** The only ways off a roster. */
  predicate MayRemove(w: World, op: Op, name: string, steamID: string) {
    match op
    case Leave(a) => a.steamID == steamID && a.clanName == name
    case Disband(a) => a.clanName == name && RankIn(w, name, a.steamID) == RANK_MASTER
    case Kick(a, id) =>
      && a.clanName == name && RankIn(w, name, a.steamID) < RankIn(w, name, steamID) <= RANK_ASSOCIATE
      && name in w.clans && exists m :: m in w.clans[name].members && m.memberID == id && m.steamID == steamID
    case _ => false
  }

  /** The only ways onto a roster. */
  predicate MayEnrol(w: World, op: Op, name: string, steamID: string) {
    match op
    case Create(s, _, n) => s == steamID && n == name && name !in w.clans
    case Accept(a, id) =>
      && a.clanName == name && CanReview(RankIn(w, name, a.steamID)) && Queued(w, name, steamID)
      && exists q :: q in w.clans[name].applicants && q.applicantID == id && q.steamID == steamID
    case _ => false
  }

  lemma RankOfPlace(w: World, name: string, k: nat)
    requires WorldOk(w) && name in w.clans && k < |w.clans[name].members|
    ensures RankIn(w, name, w.clans[name].members[k].steamID) == w.clans[name].members[k].rank
  {
    MemberPlace(w.clans[name], k);
  }

  lemma WithoutMember(c: Clan, i: nat, steamID: string)
    requires NoneTwice(c) && i < |c.members|
    ensures IsMember(c.(members := Without(c.members, i)), steamID) <==>
            IsMember(c, steamID) && steamID != c.members[i].steamID
  {
    var c' := c.(members := Without(c.members, i));
    DropMemberOk(c, i);
    if m :| m in c.members && m.steamID == steamID {
      WithoutKeeps(c.members, i, m);
    }
    if m :| m in c'.members && m.steamID == steamID {
      WithoutKeeps(c.members, i, m);
    }
  }

  lemma SameSteamIDs(c: Clan, c': Clan)
    requires |c'.members| == |c.members|
    requires forall i | 0 <= i < |c.members| :: c'.members[i].steamID == c.members[i].steamID
    ensures forall s :: IsMember(c', s) <==> IsMember(c, s)
  {
    forall s ensures IsMember(c', s) <==> IsMember(c, s) {
      if i :| 0 <= i < |c.members| && c.members[i].steamID == s {
        assert c'.members[i] in c'.members && c.members[i] in c.members;
      } else {
        assert !IsMember(c, s) && !IsMember(c', s);
      }
    }
  }

  /** The only way into a queue. */
  predicate MayQueue(w: World, op: Op, name: string, steamID: string) {
    op.RequestJoin? && op.clanName == name && op.actor.steamID == steamID && !OnRoster(w, name, steamID)
  }

  /** The only way the master on record changes: the master hands over to a member. */
  predicate MayHandOver(w: World, op: Op, name: string, successor: string)
    requires name in w.clans
  {
    && op.ChangeMaster? && op.actor.clanName == name && op.actor.steamID == w.clans[name].master
    && IsMember(w.clans[name], successor)
  }

  /** What one operation may do to clan `name` and to the place of `steamID` in it: every
      change is by right, a clan goes only when its master disbands it, and an empty one stays. */
  predicate Proper(w: World, op: Op, w': World, name: string, steamID: string) {
    && (OnRoster(w, name, steamID) && !OnRoster(w', name, steamID) ==> MayRemove(w, op, name, steamID))
    && (!OnRoster(w, name, steamID) && OnRoster(w', name, steamID) ==> MayEnrol(w, op, name, steamID))
    && (!Queued(w, name, steamID) && Queued(w', name, steamID) ==> MayQueue(w, op, name, steamID))
    && (name in w.clans ==>
          if name in w'.clans then
            && (w'.clans[name].master != w.clans[name].master ==> MayHandOver(w, op, name, w'.clans[name].master))
            && (w.clans[name].members == [] ==> w'.clans[name].members == [])
          else
            op.Disband? && op.actor.clanName == name && op.actor.steamID == w.clans[name].master)
  }

  lemma EnrolLists(c: Clan, i: nat, m: Member, steamID: string)
    requires i < |c.applicants|
    ensures var c' := c.(members := c.members + [m], applicants := Without(c.applicants, i));
            && (IsMember(c', steamID) <==> IsMember(c, steamID) || m.steamID == steamID)
            && (IsApplicant(c', steamID) ==> IsApplicant(c, steamID))
            && IsApplicant(c, c.applicants[i].steamID)
  {
    var c' := c.(members := c.members + [m], applicants := Without(c.applicants, i));
    assert c.applicants[i] in c.applicants;
    assert forall x :: x in c'.members <==> x in c.members || x == m;
    forall x | x in c'.applicants ensures x in c.applicants {
      WithoutKeeps(c.applicants, i, x);
    }
  }

  lemma AcceptProper(w: World, a: Actor, id: uint16, name: string, steamID: string)
    requires WorldOk(w) && ClanModel.Accept(w, a, id).Done?
    ensures Proper(w, Op.Accept(a, id), ClanModel.Accept(w, a, id).world, name, steamID)
  {
    hide WorldOk, ClanOk, RankIn, SetClanName, IsMember, IsApplicant;
    var k := ActorPlace(w, a);
    RankOfPlace(w, a.clanName, k);
    var c := w.clans[a.clanName];
    var i := IndexOf(c.applicants, ApplicantWith(id));
    EnrolLists(c, i, ClanModel.Accept(w, a, id).subject.member, steamID);
  }

  lemma QueueShrinks(w: World, op: Op, c: Clan, i: nat, name: string, steamID: string)
    requires WorldOk(w) && c.name in w.clans && w.clans[c.name] == c && i < |c.applicants|
    ensures Proper(w, op, Store(w, c.(applicants := Without(c.applicants, i))), name, steamID)
  {
    hide ClanOk, NoneTwice, Led;
    forall x | x in Without(c.applicants, i) ensures x in c.applicants {
      WithoutKeeps(c.applicants, i, x);
    }
  }

  lemma RequestJoinProper(w: World, a: Actor, n: string, name: string, steamID: string)
    requires WorldOk(w) && ClanModel.RequestJoin(w, a, n).Done?
    ensures Proper(w, Op.RequestJoin(a, n), ClanModel.RequestJoin(w, a, n).world, name, steamID)
  {
    hide ClanOk, NoneTwice, Led;
    var c, c' := w.clans[n], ClanModel.RequestJoin(w, a, n).clan;
    NotFound(c, a.steamID);
    assert forall x :: x in c'.applicants ==> x in c.applicants || x.steamID == a.steamID;
  }

  /** Taking place i off a roster by right. */
  lemma RosterShrinks(w: World, op: Op, c: Clan, i: nat, name: string, steamID: string)
    requires WorldOk(w) && c.name in w.clans && w.clans[c.name] == c && i < |c.members|
    requires MayRemove(w, op, c.name, c.members[i].steamID)
    ensures Proper(w, op, Detach(w, c.(members := Without(c.members, i)), c.members[i]), name, steamID)
  {
    hide ClanOk, NoneTwice, Led, RankIn, MayRemove;
    ClanAt(w, c.name);
    WithoutMember(c, i, steamID);
  }

  /** Who may kick has a better rank than whoever is kicked. */
  lemma KickRanks(w: World, a: Actor, id: uint16, k: nat, i: nat)
    requires WorldOk(w) && ClanModel.Kick(w, a, id).Done? && a.clanName in w.clans
    requires var ms := w.clans[a.clanName].members;
      && k < |ms| && ms[k].steamID == a.steamID && ClanModel.ActorClan(w, a).value.1 == ms[k]
      && i < |ms| && IndexOf(ms, MemberWith(id)) == i
    ensures MayRemove(w, Op.Kick(a, id), a.clanName, w.clans[a.clanName].members[i].steamID)
  {
    hide ClanOk, IsMember, RankIn;
    var c := w.clans[a.clanName];
    RankOfPlace(w, a.clanName, k);
    RankOfPlace(w, a.clanName, i);
    RankAt(w, a.clanName, i);
  }

  lemma RankAt(w: World, name: string, i: nat)
    requires WorldOk(w) && name in w.clans && i < |w.clans[name].members|
    ensures w.clans[name].members[i] in w.clans[name].members && RankOk(w.clans[name].members[i].rank)
  {
  }

  lemma KickProper(w: World, a: Actor, id: uint16, name: string, steamID: string)
    requires WorldOk(w) && ClanModel.Kick(w, a, id).Done?
    ensures Proper(w, Op.Kick(a, id), ClanModel.Kick(w, a, id).world, name, steamID)
  {
    hide WorldOk, ClanOk, IsMember, RankIn, Proper;
    var k := ActorPlace(w, a);
    var c := w.clans[a.clanName];
    var i := IndexOf(c.members, MemberWith(id));
    KickRanks(w, a, id, k, i);
    RosterShrinks(w, Op.Kick(a, id), c, i, name, steamID);
  }

  lemma RosterPlace(c: Clan, k: nat)
    requires ClanOk(c) && k < |c.members|
    ensures IndexOf(c.members, MemberWith(c.members[k].memberID)) == k
  {
    MemberPlace(c, k);
  }

  lemma LeaveProper(w: World, a: Actor, name: string, steamID: string)
    requires WorldOk(w) && ClanModel.Leave(w, a).Done?
    ensures Proper(w, Op.Leave(a), ClanModel.Leave(w, a).world, name, steamID)
  {
    hide WorldOk, ClanOk, NoneTwice, IsMember, RankIn, Proper;
    var k := ActorPlace(w, a);
    var c := w.clans[a.clanName];
    ClanAt(w, a.clanName);
    RosterPlace(c, k);
    RosterShrinks(w, Op.Leave(a), c, k, name, steamID);
  }

  /** A change of ranks, and of the master on record by right, in a clan with members. */
  lemma RanksProper(w: World, op: Op, c: Clan, c': Clan, name: string, steamID: string)
    requires WorldOk(w) && c.name in w.clans && w.clans[c.name] == c && c.members != []
    requires c' == c.(members := c'.members, master := c'.master) && |c'.members| == |c.members|
    requires forall i | 0 <= i < |c.members| :: c'.members[i].steamID == c.members[i].steamID
    requires c'.master == c.master || MayHandOver(w, op, c.name, c'.master)
    ensures Proper(w, op, Store(w, c'), name, steamID)
  {
    hide ClanOk, NoneTwice, Led, RankIn;
    SameSteamIDs(c, c');
  }

  lemma ChangePositionProper(w: World, a: Actor, id: uint16, rank: uint8, name: string, steamID: string)
    requires WorldOk(w) && ClanModel.ChangePosition(w, a, id, rank).Done?
    ensures Proper(w, Op.ChangePosition(a, id, rank), ClanModel.ChangePosition(w, a, id, rank).world, name, steamID)
  {
    hide WorldOk, ClanOk, IsMember, Proper;
    var k := ActorPlace(w, a);
    RanksProper(w, Op.ChangePosition(a, id, rank), w.clans[a.clanName],
                ClanModel.ChangePosition(w, a, id, rank).clan, name, steamID);
  }

  lemma MasterPlace(c: Clan, k: nat)
    requires ClanOk(c) && k < |c.members| && c.members[k].rank == RANK_MASTER
    ensures c.members[k].steamID == c.master
  {
    assert c.members[k] in c.members;
  }

  lemma ChangeMasterProper(w: World, a: Actor, id: uint16, name: string, steamID: string)
    requires WorldOk(w) && ClanModel.ChangeMaster(w, a, id).Done?
    ensures Proper(w, Op.ChangeMaster(a, id), ClanModel.ChangeMaster(w, a, id).world, name, steamID)
  {
    hide WorldOk, ClanOk, Led, SetRank, Proper;
    var k := ActorPlace(w, a);
    var c := w.clans[a.clanName];
    var i := IndexOf(c.members, MemberWith(id));
    assert c.members[i] in c.members;
    ChangeMasterRoster(c, k, i);
    MasterPlace(c, k);
    RanksProper(w, Op.ChangeMaster(a, id), c, ClanModel.ChangeMaster(w, a, id).clan, name, steamID);
  }

  lemma DisbandProper(w: World, a: Actor, name: string, steamID: string)
    requires WorldOk(w) && ClanModel.Disband(w, a).Done?
    ensures Proper(w, Op.Disband(a), ClanModel.Disband(w, a).world, name, steamID)
  {
    hide WorldOk, ClanOk, IsMember, IsApplicant, RankIn, Unlink;
    var k := ActorPlace(w, a);
    RankOfPlace(w, a.clanName, k);
    MasterPlace(w.clans[a.clanName], k);
  }

  lemma CreateProper(w: World, s: string, p: string, n: string, name: string, steamID: string)
    requires WorldOk(w) && ClanModel.Create(w, s, p, n).Done?
    ensures Proper(w, Op.Create(s, p, n), ClanModel.Create(w, s, p, n).world, name, steamID)
  {
    hide ClanOk, NoneTwice, Led, RankIn;
    assert Founded(s, p, n).members == [Member(1, s, p, RANK_MASTER)];
  }

  lemma StepProper(w: World, op: Op, name: string, steamID: string)
    requires WorldOk(w) && Legal(w, op)
    ensures Proper(w, op, Apply(w, op), name, steamID)
  {
    hide WorldOk;
    if op.Register? || OutcomeOf(w, op).Refused? {
      return;
    }
    hide Proper;
    match op {
      case Create(s, p, n) => CreateProper(w, s, p, n, name, steamID);
      case RequestJoin(a, n) => RequestJoinProper(w, a, n, name, steamID);
      case Accept(a, id) => AcceptProper(w, a, id, name, steamID);
      case Reject(a, id) => RejectProper(w, a, id, name, steamID);
      case Cancel(a, n) => CancelProper(w, a, n, name, steamID);
      case Kick(a, id) => KickProper(w, a, id, name, steamID);
      case Leave(a) => LeaveProper(w, a, name, steamID);
      case ChangePosition(a, id, rank) => ChangePositionProper(w, a, id, rank, name, steamID);
      case ChangeMaster(a, id) => ChangeMasterProper(w, a, id, name, steamID);
      case Disband(a) => DisbandProper(w, a, name, steamID);
      case Register(_) =>
    }
  }

  lemma RejectProper(w: World, a: Actor, id: uint16, name: string, steamID: string)
    requires WorldOk(w) && ClanModel.Reject(w, a, id).Done?
    ensures Proper(w, Op.Reject(a, id), ClanModel.Reject(w, a, id).world, name, steamID)
  {
    hide WorldOk, ClanOk, IsMember, Proper;
    var k := ActorPlace(w, a);
    var c := w.clans[a.clanName];
    QueueShrinks(w, Op.Reject(a, id), c, IndexOf(c.applicants, ApplicantWith(id)), name, steamID);
  }

  lemma CancelProper(w: World, a: Actor, n: string, name: string, steamID: string)
    requires WorldOk(w) && ClanModel.Cancel(w, a, n).Done?
    ensures Proper(w, Op.Cancel(a, n), ClanModel.Cancel(w, a, n).world, name, steamID)
  {
    hide WorldOk, NoneTwice, Proper;
    var c := w.clans[n];
    var i := IndexOf(c.applicants, ApplicantOf(a.steamID));
    ClanAt(w, n);
    ApplicantPlace(c, i);
    QueueShrinks(w, Op.Cancel(a, n), c, i, name, steamID);
  }

  /** Over a whole run: whoever was on a roster and is not any more was taken off it at some
      step between, by a leave of their own, by the master disbanding the clan, or by a kick
      from a strictly better rank. */
  lemma {:induction false} LostOnlyByRight(run: seq<World>, ops: seq<Op>, i: nat, j: nat, name: string, steamID: string)
    returns (k: nat)
    requires IsRun(run, ops) && i <= j < |run|
    requires OnRoster(run[i], name, steamID) && !OnRoster(run[j], name, steamID)
    ensures i <= k < j && OnRoster(run[k], name, steamID) && !OnRoster(run[k + 1], name, steamID)
    ensures MayRemove(run[k], ops[k], name, steamID)
    decreases j - i
  {
    hide Apply, OutcomeOf, Legal, WorldOk, RankIn, IsMember, IsApplicant;
    assert run[i + 1] == Apply(run[i], ops[i]);
    if OnRoster(run[i + 1], name, steamID) {
      k := LostOnlyByRight(run, ops, i + 1, j, name, steamID);
    } else {
      RunOk(run, ops, i);
      StepProper(run[i], ops[i], name, steamID);
      k := i;
    }
  }

  /** The r-th operation was the player's own request and put the player in the queue, where
      it has stayed until state `j`. */
  predicate Applied(run: seq<World>, ops: seq<Op>, r: nat, j: nat, name: string, steamID: string)
    requires |run| == |ops| + 1 && r < j <= |ops|
  {
    && ops[r].RequestJoin? && ops[r].clanName == name && ops[r].actor.steamID == steamID
    && !Queued(run[r], name, steamID) && forall x | r < x <= j :: Queued(run[x], name, steamID)
  }

  /** Over a whole run: whoever is on a roster founded the clan or asked to join it and was
      accepted, while that request was still in the queue, by the master or a manager. */
  lemma {:induction false} EnrolledOnlyByRight(run: seq<World>, ops: seq<Op>, j: nat, name: string, steamID: string)
    returns (k: nat)
    requires IsRun(run, ops) && j < |run| && OnRoster(run[j], name, steamID)
    ensures k < j && !OnRoster(run[k], name, steamID) && OnRoster(run[k + 1], name, steamID)
    ensures MayEnrol(run[k], ops[k], name, steamID)
    ensures ops[k].Accept? ==> exists r | 0 <= r < k :: Applied(run, ops, r, k, name, steamID)
  {
    hide Apply, OutcomeOf, Legal, WorldOk, RankIn, IsMember, IsApplicant;
    RunOk(run, ops, j - 1);
    assert run[j - 1 + 1] == Apply(run[j - 1], ops[j - 1]);
    if OnRoster(run[j - 1], name, steamID) {
      k := EnrolledOnlyByRight(run, ops, j - 1, name, steamID);
    } else {
      StepProper(run[j - 1], ops[j - 1], name, steamID);
      k := j - 1;
      if ops[k].Accept? {
        var r := QueuedOnlyByRequest(run, ops, k, name, steamID);
      }
    }
  }

  lemma {:induction false} QueuedOnlyByRequest(run: seq<World>, ops: seq<Op>, j: nat, name: string, steamID: string)
    returns (r: nat)
    requires IsRun(run, ops) && j < |run| && Queued(run[j], name, steamID)
    ensures r < j && Applied(run, ops, r, j, name, steamID)
  {
    hide Apply, OutcomeOf, Legal, WorldOk, RankIn, IsMember, IsApplicant;
    RunOk(run, ops, j - 1);
    assert run[j - 1 + 1] == Apply(run[j - 1], ops[j - 1]);
    if Queued(run[j - 1], name, steamID) {
      r := QueuedOnlyByRequest(run, ops, j - 1, name, steamID);
    } else {
      StepProper(run[j - 1], ops[j - 1], name, steamID);
      r := j - 1;
    }
  }

  /** An empty clan keeps its name for good: nobody can disband it, join it or found it anew. */
  lemma RunStepKeepsEmpty(w: World, op: Op, name: string)
    requires WorldOk(w) && Legal(w, op) && name in w.clans && w.clans[name].members == []
    ensures name in Apply(w, op).clans && Apply(w, op).clans[name].members == []
  {
    StepProper(w, op, name, "");
    if name !in Apply(w, op).clans {
      EmptyCannotDisband(w, op.actor);
    }
  }

  lemma EmptyCannotDisband(w: World, a: Actor)
    requires WorldOk(w) && a.clanName in w.clans && w.clans[a.clanName].members == []
    ensures ClanModel.Disband(w, a).Refused?
  {
  }

  /** Over a whole run: a clan whose last member has left never has a member again. */
  lemma {:induction false} EmptyForever(run: seq<World>, ops: seq<Op>, i: nat, j: nat, name: string)
    requires IsRun(run, ops) && i <= j < |run| && name in run[i].clans && run[i].clans[name].members == []
    ensures name in run[j].clans && run[j].clans[name].members == []
    decreases j - i
  {
    if i < j {
      RunOk(run, ops, i);
      assert run[i + 1] == Apply(run[i], ops[i]);
      RunStepKeepsEmpty(run[i], ops[i], name);
      EmptyForever(run, ops, i + 1, j, name);
    }
  }

  /** Over a whole run: a clan name with another master on record than before was handed over by
      the master of the moment, or disbanded by that master in between. */
  lemma {:induction false} MasterOnlyByRight(run: seq<World>, ops: seq<Op>, i: nat, j: nat, name: string)
    returns (k: nat)
    requires IsRun(run, ops) && i <= j < |run| && name in run[i].clans && name in run[j].clans
    requires run[i].clans[name].master != run[j].clans[name].master
    ensures i <= k < j && name in run[k].clans
    ensures
      if name in run[k + 1].clans then
        && run[k + 1].clans[name].master != run[k].clans[name].master
        && MayHandOver(run[k], ops[k], name, run[k + 1].clans[name].master)
      else
        ops[k].Disband? && ops[k].actor.clanName == name && ops[k].actor.steamID == run[k].clans[name].master
    decreases j - i
  {
    hide Apply, OutcomeOf, Legal, WorldOk, OnRoster, Queued;
    assert run[i + 1] == Apply(run[i], ops[i]);
    RunOk(run, ops, i);
    StepProper(run[i], ops[i], name, "");
    if name in run[i + 1].clans && run[i + 1].clans[name].master == run[i].clans[name].master {
      k := MasterOnlyByRight(run, ops, i + 1, j, name);
    } else {
      k := i;
    }
  }
}
