/** What every operation of the clan service keeps, and what it takes to change a roster. */
module ClanInvariant {
  import opened Bytes
  import opened Seqs
  import opened IdNumbers
  import opened ClanModel

  datatype Op =
    | Register(steamID: string)
    | Create(steamID: string, playerName: string, clanName: string)
    | RequestJoin(actor: Actor, clanName: string)
    | Accept(actor: Actor, id: uint16)
    | Reject(actor: Actor, id: uint16)
    | Cancel(actor: Actor, clanName: string)
    | Kick(actor: Actor, id: uint16)
    | Leave(actor: Actor)
    | ChangePosition(actor: Actor, id: uint16, rank: uint8)
    | ChangeMaster(actor: Actor, id: uint16)
    | Disband(actor: Actor)

  function OutcomeOf(w: World, op: Op): Outcome
    requires !op.Register?
  {
    match op
    case Create(s, p, c) => ClanModel.Create(w, s, p, c)
    case RequestJoin(a, c) => ClanModel.RequestJoin(w, a, c)
    case Accept(a, id) => ClanModel.Accept(w, a, id)
    case Reject(a, id) => ClanModel.Reject(w, a, id)
    case Cancel(a, c) => ClanModel.Cancel(w, a, c)
    case Kick(a, id) => ClanModel.Kick(w, a, id)
    case Leave(a) => ClanModel.Leave(w, a)
    case ChangePosition(a, id, rank) => ClanModel.ChangePosition(w, a, id, rank)
    case ChangeMaster(a, id) => ClanModel.ChangeMaster(w, a, id)
    case Disband(a) => ClanModel.Disband(w, a)
  }

  /** The stored state after an operation: a refused one changes nothing. */
  function Apply(w: World, op: Op): World {
    if op.Register? then ClanModel.Register(w, op.steamID)
    else match OutcomeOf(w, op)
      case Refused(_) => w
      case Done(w', _, _) => w'
  }

  // ------------------------------------------------------- one clan's rules

  predicate HasID(c: Clan, id: uint16) {
    (exists m :: m in c.members && m.memberID == id) || (exists a :: a in c.applicants && a.applicantID == id)
  }

  predicate HasPlayer(c: Clan, steamID: string) {
    IsMember(c, steamID) || IsApplicant(c, steamID)
  }

  predicate IsMember(c: Clan, steamID: string) {
    exists m :: m in c.members && m.steamID == steamID
  }

  predicate IsApplicant(c: Clan, steamID: string) {
    exists a :: a in c.applicants && a.steamID == steamID
  }

  /** Two list places are never the same person: neither by ID nor by Steam account. */
  predicate NoneTwice(c: Clan) {
    && (forall i, j | 0 <= i < j < |c.members| ::
          c.members[i].memberID != c.members[j].memberID && c.members[i].steamID != c.members[j].steamID)
    && (forall i, j | 0 <= i < j < |c.applicants| ::
          c.applicants[i].applicantID != c.applicants[j].applicantID
              && c.applicants[i].steamID != c.applicants[j].steamID)
    && (forall i, j | 0 <= i < |c.members| && 0 <= j < |c.applicants| ::
          c.members[i].memberID != c.applicants[j].applicantID && c.members[i].steamID != c.applicants[j].steamID)
  }

  predicate RankOk(rank: uint8) { rank == RANK_MASTER || IsAssignable(rank) }

  /** Rank 1 is the master's and nobody else's, and a clan with members has its master. */
  predicate Led(c: Clan) {
    && (forall m | m in c.members :: RankOk(m.rank) && (m.rank == RANK_MASTER <==> m.steamID == c.master))
    && (c.members != [] ==> IsMember(c, c.master))
  }

  predicate ClanOk(c: Clan) {
    NoneTwice(c) && Led(c) && |c.members| <= Capacity(c)
  }

  /** An account with a clan name is on the roster of the clan of that name. */
  predicate LinkOk(w: World, steamID: string)
    requires steamID in w.accounts
  {
    var name := w.accounts[steamID];
    name != "" ==> name in w.clans && IsMember(w.clans[name], steamID)
  }

  predicate WorldOk(w: World) {
    && (forall name | name in w.clans :: w.clans[name].name == name && ClanOk(w.clans[name]))
    && (forall steamID | steamID in w.accounts :: LinkOk(w, steamID))
  }

  /** The allocator's only limit: `highest + 1` wraps to 0, so a new ID is new exactly unless
      both 65535 and 0 are in use. */
  predicate IdsLeft(c: Clan) {
    !(HasID(c, 0xFFFF) && HasID(c, 0))
  }

  predicate Legal(w: World, op: Op) {
    match op
    case RequestJoin(_, name) => name in w.clans ==> IdsLeft(w.clans[name])
    case Cancel(a, name) => AppliedIn(w, a.steamID, name) || forall n | n in w.clans :: !AppliedIn(w, a.steamID, n)
    case _ => true
  }

  // ------------------------------------------------------------ list lemmas

  lemma IdsAreIDs(c: Clan, id: uint16)
    ensures id in Ids(c) <==> HasID(c, id)
  {
    var n := |c.members|;
    if i :| 0 <= i < n && c.members[i].memberID == id {
      assert Ids(c)[i] == id && c.members[i] in c.members;
    }
    if i :| 0 <= i < |c.applicants| && c.applicants[i].applicantID == id {
      assert Ids(c)[n + i] == id && c.applicants[i] in c.applicants;
    }
    if id in Ids(c) {
      var k :| 0 <= k < |Ids(c)| && Ids(c)[k] == id;
      if k < n {
        assert c.members[k] in c.members;
      } else {
        assert c.applicants[k - n] in c.applicants;
      }
    }
  }

  lemma NextIDFresh(c: Clan)
    ensures !HasID(c, NextApplicantID(c)) <==> IdsLeft(c)
  {
    OnePastFresh(Ids(c));
    IdsAreIDs(c, NextApplicantID(c));
    IdsAreIDs(c, 0);
    IdsAreIDs(c, 0xFFFF);
  }

  lemma AddMemberOk(c: Clan, m: Member)
    requires NoneTwice(c) && !HasID(c, m.memberID) && !HasPlayer(c, m.steamID)
    ensures NoneTwice(c.(members := c.members + [m]))
  {
    assert forall i | 0 <= i < |c.members| :: c.members[i] in c.members;
    assert forall i | 0 <= i < |c.applicants| :: c.applicants[i] in c.applicants;
  }

  lemma AddApplicantOk(c: Clan, a: Applicant)
    requires NoneTwice(c) && !HasID(c, a.applicantID) && !HasPlayer(c, a.steamID)
    ensures NoneTwice(c.(applicants := c.applicants + [a]))
  {
    assert forall i | 0 <= i < |c.members| :: c.members[i] in c.members;
    assert forall i | 0 <= i < |c.applicants| :: c.applicants[i] in c.applicants;
  }

  lemma DropApplicantOk(c: Clan, i: nat)
    requires NoneTwice(c) && i < |c.applicants|
    ensures var c' := c.(applicants := Without(c.applicants, i));
            NoneTwice(c') && !HasID(c', c.applicants[i].applicantID) && !HasPlayer(c', c.applicants[i].steamID)
  {
  }

  lemma DropMemberOk(c: Clan, i: nat)
    requires NoneTwice(c) && i < |c.members|
    ensures var c' := c.(members := Without(c.members, i));
            NoneTwice(c') && !HasID(c', c.members[i].memberID) && !HasPlayer(c', c.members[i].steamID)
  {
  }

  /** With distinct IDs, looking up by the ID of a list place finds that place. */
  lemma MemberPlace(c: Clan, i: nat)
    requires NoneTwice(c) && i < |c.members|
    ensures IndexOf(c.members, MemberWith(c.members[i].memberID)) == i
    ensures IndexOf(c.members, MemberOf(c.members[i].steamID)) == i
  {
    var j := IndexOf(c.members, MemberWith(c.members[i].memberID));
    var k := IndexOf(c.members, MemberOf(c.members[i].steamID));
    assert MemberWith(c.members[i].memberID)(c.members[i]) && MemberOf(c.members[i].steamID)(c.members[i]);
  }

  lemma ApplicantPlace(c: Clan, i: nat)
    requires NoneTwice(c) && i < |c.applicants|
    ensures IndexOf(c.applicants, ApplicantWith(c.applicants[i].applicantID)) == i
    ensures IndexOf(c.applicants, ApplicantOf(c.applicants[i].steamID)) == i
  {
    var j := IndexOf(c.applicants, ApplicantWith(c.applicants[i].applicantID));
    var k := IndexOf(c.applicants, ApplicantOf(c.applicants[i].steamID));
    assert ApplicantWith(c.applicants[i].applicantID)(c.applicants[i]);
    assert ApplicantOf(c.applicants[i].steamID)(c.applicants[i]);
  }

  /** `w'` holds one clan differently, and possibly one account. */
  predicate OneClanChanged(w: World, w': World, c: Clan, steamID: string) {
    && w'.clans == w.clans[c.name := c]
    && w'.accounts.Keys == w.accounts.Keys
    && forall s | s in w.accounts && s != steamID :: w'.accounts[s] == w.accounts[s]
  }

  /** Nobody but `steamID` lost a place in clan `c`, and `steamID`'s own link is right. */
  lemma OneClanOk(w: World, w': World, c: Clan, steamID: string)
    requires WorldOk(w) && OneClanChanged(w, w', c, steamID) && ClanOk(c)
    requires c.name in w.clans ==> forall s | s != steamID && IsMember(w.clans[c.name], s) :: IsMember(c, s)
    requires steamID in w'.accounts ==> LinkOk(w', steamID)
    ensures WorldOk(w')
  {
    hide ClanOk, IsMember;
    forall s | s in w'.accounts ensures LinkOk(w', s) {
      if s != steamID {
        assert LinkOk(w, s);
      }
    }
  }

  lemma ActorPlace(w: World, actor: Actor) returns (k: nat)
    requires WorldOk(w) && ActorClan(w, actor).Success?
    ensures var (c, me) := ActorClan(w, actor).value;
            && actor.clanName in w.clans && c == w.clans[actor.clanName] && c.name == actor.clanName && ClanOk(c)
            && k < |c.members| && c.members[k] == me && me in c.members && me.steamID == actor.steamID
            && IsMember(c, actor.steamID) && IsMember(c, c.master)
  {
    var c := w.clans[actor.clanName];
    k := IndexOf(c.members, MemberOf(actor.steamID));
    assert c.members[k] in c.members;
  }

  /** Moving the i-th applicant to the end of a roster with room. */
  lemma EnrolOk(c: Clan, i: nat)
    requires ClanOk(c) && !IsFull(c) && c.members != [] && i < |c.applicants|
    ensures var a := c.applicants[i];
            var m := Member(a.applicantID, a.steamID, a.name, RANK_MEMBER);
            ClanOk(c.(members := c.members + [m], applicants := Without(c.applicants, i)))
  {
    var a := c.applicants[i];
    var m := Member(a.applicantID, a.steamID, a.name, RANK_MEMBER);
    var c1 := c.(applicants := Without(c.applicants, i));
    var c' := c1.(members := c1.members + [m]);
    DropApplicantOk(c, i);
    AddMemberOk(c1, m);
    var j :| 0 <= j < |c.members| && c.members[j].steamID == c.master;
    LedWithout(c, c', m);
  }

  /** The enrolled applicant's account comes to name the clan that now lists him. */
  lemma EnrolledOk(w: World, c: Clan, c': Clan, m: Member)
    requires WorldOk(w) && c.name in w.clans && w.clans[c.name] == c && ClanOk(c') && c'.name == c.name
    requires c'.members == c.members + [m]
    ensures WorldOk(World(w.clans[c.name := c'], SetClanName(w.accounts, m.steamID, c.name)))
  {
    hide ClanOk, WorldOk;
    var w' := World(w.clans[c.name := c'], SetClanName(w.accounts, m.steamID, c.name));
    assert c'.members[|c.members|] in c'.members;
    OneClanOk(w, w', c', m.steamID);
  }

  lemma AcceptOk(w: World, actor: Actor, id: uint16)
    requires WorldOk(w) && ClanModel.Accept(w, actor, id).Done?
    ensures WorldOk(ClanModel.Accept(w, actor, id).world)
  {
    hide ClanOk, WorldOk, IsMember;
    var k := ActorPlace(w, actor);
    var c, out := w.clans[actor.clanName], ClanModel.Accept(w, actor, id);
    EnrolOk(c, IndexOf(c.applicants, ApplicantWith(id)));
    EnrolledOk(w, c, out.clan, out.subject.member);
  }

  /** Enrolling somebody who is not the master, at a rank that is not the master's. */
  lemma LedWithout(c: Clan, c': Clan, m: Member)
    requires Led(c) && c'.master == c.master && c'.members == c.members + [m]
    requires m.steamID != c.master && m.rank == RANK_MEMBER && c.members != []
    ensures Led(c')
  {
    forall x | x in c'.members ensures x in c.members || x == m {
    }
    var x :| x in c.members && x.steamID == c.master;
    assert x in c'.members;
  }

  /** Storing a clan whose roster is still the same people breaks no link. */
  lemma SamePeopleOk(w: World, c: Clan, c': Clan)
    requires WorldOk(w) && c.name in w.clans && w.clans[c.name] == c && c'.name == c.name && ClanOk(c')
    requires forall s | IsMember(c, s) :: IsMember(c', s)
    ensures WorldOk(Store(w, c'))
  {
    hide ClanOk, IsMember;
    forall s | s in w.accounts ensures LinkOk(Store(w, c'), s) {
      assert LinkOk(w, s);
    }
  }

  lemma ClanAt(w: World, name: string)
    requires WorldOk(w) && name in w.clans
    ensures w.clans[name].name == name && ClanOk(w.clans[name])
  {
  }

  lemma QueueOk(w: World, c: Clan, c': Clan)
    requires WorldOk(w) && c.name in w.clans && w.clans[c.name] == c
    requires c' == c.(applicants := c'.applicants) && NoneTwice(c')
    ensures WorldOk(Store(w, c'))
  {
    hide WorldOk, NoneTwice;
    ClanAt(w, c.name);
    SamePeopleOk(w, c, c');
  }

  lemma RejectOk(w: World, actor: Actor, id: uint16)
    requires WorldOk(w) && ClanModel.Reject(w, actor, id).Done?
    ensures WorldOk(ClanModel.Reject(w, actor, id).world)
  {
    var k := ActorPlace(w, actor);
    var c := w.clans[actor.clanName];
    DropApplicantOk(c, IndexOf(c.applicants, ApplicantWith(id)));
    QueueOk(w, c, ClanModel.Reject(w, actor, id).clan);
  }

  lemma CancelOk(w: World, actor: Actor, name: string)
    requires WorldOk(w) && ClanModel.Cancel(w, actor, name).Done?
    ensures WorldOk(ClanModel.Cancel(w, actor, name).world)
  {
    var c := w.clans[name];
    var i := IndexOf(c.applicants, ApplicantOf(actor.steamID));
    ApplicantPlace(c, i);
    DropApplicantOk(c, i);
    QueueOk(w, c, ClanModel.Cancel(w, actor, name).clan);
  }

  lemma RequestJoinOk(w: World, actor: Actor, name: string)
    requires WorldOk(w) && ClanModel.RequestJoin(w, actor, name).Done? && IdsLeft(w.clans[name])
    ensures WorldOk(ClanModel.RequestJoin(w, actor, name).world)
  {
    var c := w.clans[name];
    var out := ClanModel.RequestJoin(w, actor, name);
    if out.subject.OfApplicant? {
      NextIDFresh(c);
      NotFound(c, actor.steamID);
      AddApplicantOk(c, out.subject.applicant);
      QueueOk(w, c, out.clan);
    }
  }

  lemma NotFound(c: Clan, steamID: string)
    ensures Find(c.members, MemberOf(steamID)).None? <==> !IsMember(c, steamID)
    ensures Find(c.applicants, ApplicantOf(steamID)).None? <==> !IsApplicant(c, steamID)
  {
    var i, j := IndexOf(c.members, MemberOf(steamID)), IndexOf(c.applicants, ApplicantOf(steamID));
    if i < |c.members| {
      assert c.members[i] in c.members;
    } else {
      assert forall k | 0 <= k < |c.members| :: !MemberOf(steamID)(c.members[k]);
    }
    if j < |c.applicants| {
      assert c.applicants[j] in c.applicants;
    } else {
      assert forall k | 0 <= k < |c.applicants| :: !ApplicantOf(steamID)(c.applicants[k]);
    }
  }

  lemma ShrunkOk(c: Clan, i: nat)
    requires ClanOk(c) && i < |c.members| && (c.members[i].rank != RANK_MASTER || |c.members| == 1)
    ensures var c' := c.(members := Without(c.members, i));
            ClanOk(c') && forall s | s != c.members[i].steamID && IsMember(c, s) :: IsMember(c', s)
  {
    var c' := c.(members := Without(c.members, i));
    assert c.members[i] in c.members;
    DropMemberOk(c, i);
    forall m ensures (m in c'.members ==> m in c.members) && (m in c.members && m != c.members[i] ==> m in c'.members) {
      WithoutKeeps(c.members, i, m);
    }
  }

  /** Taking a place that is not the master's, or the only one, off the roster. */
  lemma DetachOk(w: World, c: Clan, i: nat)
    requires WorldOk(w) && c.name in w.clans && w.clans[c.name] == c && i < |c.members|
    requires c.members[i].rank != RANK_MASTER || |c.members| == 1
    ensures WorldOk(Detach(w, c.(members := Without(c.members, i)), c.members[i]))
  {
    ShrunkOk(c, i);
    hide *;
    DetachedOk(w, c, c.(members := Without(c.members, i)), c.members[i]);
  }

  lemma DetachedOk(w: World, c: Clan, c': Clan, m: Member)
    requires WorldOk(w) && c.name in w.clans && w.clans[c.name] == c && c'.name == c.name && ClanOk(c')
    requires forall s | s != m.steamID && IsMember(c, s) :: IsMember(c', s)
    ensures WorldOk(Detach(w, c', m))
  {
    hide ClanOk, IsMember;
    OneClanOk(w, Detach(w, c', m), c', m.steamID);
  }

  lemma KickOk(w: World, actor: Actor, id: uint16)
    requires WorldOk(w) && ClanModel.Kick(w, actor, id).Done?
    ensures WorldOk(ClanModel.Kick(w, actor, id).world)
  {
    var k := ActorPlace(w, actor);
    var c := w.clans[actor.clanName];
    DetachOk(w, c, IndexOf(c.members, MemberWith(id)));
  }

  lemma LeaveOk(w: World, actor: Actor)
    requires WorldOk(w) && ClanModel.Leave(w, actor).Done?
    ensures WorldOk(ClanModel.Leave(w, actor).world)
  {
    var k := ActorPlace(w, actor);
    var c := w.clans[actor.clanName];
    MemberPlace(c, k);
    DetachOk(w, c, k);
  }

  /** Changing ranks alone keeps every list place where it was. */
  lemma SamePlaces(c: Clan, c': Clan)
    requires NoneTwice(c) && c' == c.(members := c'.members, master := c'.master) && |c'.members| == |c.members|
    requires forall i | 0 <= i < |c.members| :: c'.members[i] == c.members[i].(rank := c'.members[i].rank)
    ensures NoneTwice(c') && forall s | IsMember(c, s) :: IsMember(c', s)
  {
    forall s | IsMember(c, s) ensures IsMember(c', s) {
      var i :| 0 <= i < |c.members| && c.members[i].steamID == s;
      assert c'.members[i] in c'.members;
    }
  }

  lemma RanksOk(w: World, c: Clan, c': Clan)
    requires WorldOk(w) && c.name in w.clans && w.clans[c.name] == c
    requires c' == c.(members := c'.members, master := c'.master) && |c'.members| == |c.members|
    requires forall i | 0 <= i < |c.members| :: c'.members[i] == c.members[i].(rank := c'.members[i].rank)
    requires Led(c')
    ensures WorldOk(Store(w, c'))
  {
    hide WorldOk, NoneTwice, Led, IsMember;
    ClanAt(w, c.name);
    SamePlaces(c, c');
    SamePeopleOk(w, c, c');
  }

  /** A rank that is not the master's, at a place that is not the master's. */
  lemma ReassignedLed(c: Clan, i: nat, rank: uint8)
    requires ClanOk(c) && i < |c.members| && c.members[i].steamID != c.master && IsAssignable(rank)
    ensures Led(c.(members := c.members[i := c.members[i].(rank := rank)]))
  {
    var ms := c.members[i := c.members[i].(rank := rank)];
    var k :| 0 <= k < |c.members| && c.members[k].steamID == c.master;
    assert ms[k] == c.members[k] && ms[k] in ms;
    forall m | m in ms ensures RankOk(m.rank) && (m.rank == RANK_MASTER <==> m.steamID == c.master) {
      var j :| 0 <= j < |ms| && ms[j] == m;
      assert c.members[j] in c.members;
    }
  }

  lemma ChangePositionOk(w: World, actor: Actor, id: uint16, rank: uint8)
    requires WorldOk(w) && ClanModel.ChangePosition(w, actor, id, rank).Done?
    ensures WorldOk(ClanModel.ChangePosition(w, actor, id, rank).world)
  {
    hide WorldOk, IsMember;
    var k := ActorPlace(w, actor);
    var c, c' := w.clans[actor.clanName], ClanModel.ChangePosition(w, actor, id, rank).clan;
    var i := IndexOf(c.members, MemberWith(id));
    assert c.members[k].steamID == c.master;
    ReassignedLed(c, i, rank);
    hide Led;
    RanksOk(w, c, c');
  }

  lemma ChangeMasterRoster(c: Clan, k: nat, i: nat)
    requires ClanOk(c) && k < |c.members| && i < |c.members| && i != k && c.members[k].rank == RANK_MASTER
    ensures var promoted := SetRank(c.members, c.members[i].memberID, RANK_MASTER);
            SetRank(promoted, c.members[k].memberID, RANK_MANAGER)
            == c.members[i := c.members[i].(rank := RANK_MASTER)][k := c.members[k].(rank := RANK_MANAGER)]
  {
    MemberPlace(c, i);
    var promoted := SetRank(c.members, c.members[i].memberID, RANK_MASTER);
    hide Led;
    assert promoted == c.members[i := c.members[i].(rank := RANK_MASTER)];
    MemberPlace(c.(members := promoted), k);
  }

  /** The rosters and master fields after a handover from place k to place i. */
  lemma HandoverLed(c: Clan, k: nat, i: nat)
    requires ClanOk(c) && k < |c.members| && i < |c.members| && i != k && c.members[k].rank == RANK_MASTER
    ensures var ms := c.members[i := c.members[i].(rank := RANK_MASTER)][k := c.members[k].(rank := RANK_MANAGER)];
            Led(c.(members := ms, master := c.members[i].steamID))
  {
    var ms := c.members[i := c.members[i].(rank := RANK_MASTER)][k := c.members[k].(rank := RANK_MANAGER)];
    var to := c.members[i].steamID;
    assert ms[i] in ms;
    forall m | m in ms ensures RankOk(m.rank) && (m.rank == RANK_MASTER <==> m.steamID == to) {
      var j :| 0 <= j < |ms| && ms[j] == m;
      assert c.members[j] in c.members && c.members[k] in c.members;
    }
  }

  lemma ChangeMasterOk(w: World, actor: Actor, id: uint16)
    requires WorldOk(w) && ClanModel.ChangeMaster(w, actor, id).Done?
    ensures WorldOk(ClanModel.ChangeMaster(w, actor, id).world)
  {
    hide WorldOk, ClanOk, Led, IsMember, SetRank;
    var k := ActorPlace(w, actor);
    var c, c' := w.clans[actor.clanName], ClanModel.ChangeMaster(w, actor, id).clan;
    var i := IndexOf(c.members, MemberWith(id));
    ChangeMasterRoster(c, k, i);
    HandoverLed(c, k, i);
    RanksOk(w, c, c');
  }

  lemma CreateOk(w: World, steamID: string, playerName: string, name: string)
    requires WorldOk(w) && ClanModel.Create(w, steamID, playerName, name).Done?
    ensures WorldOk(ClanModel.Create(w, steamID, playerName, name).world)
  {
    var c := Founded(steamID, playerName, name);
    assert c.members[0] in c.members;
    OneClanOk(w, ClanModel.Create(w, steamID, playerName, name).world, c, steamID);
  }

  lemma {:induction false} UnlinkAll(accounts: map<string, string>, members: seq<Member>)
    ensures var after := Unlink(accounts, members);
            && after.Keys == accounts.Keys
            && forall s | s in accounts ::
                 after[s] == if exists m :: m in members && m.steamID == s then "" else accounts[s]
  {
    if members != [] {
      var first := SetClanName(accounts, members[0].steamID, "");
      UnlinkAll(first, members[1..]);
      assert forall m :: m in members <==> m == members[0] || m in members[1..];
    }
  }

  lemma AccountLink(w: World, steamID: string)
    requires WorldOk(w) && steamID in w.accounts
    ensures LinkOk(w, steamID)
  {
  }

  /** An account that still names a clan was not on the roster of the one that is gone. */
  lemma UnlinkedOk(w: World, c: Clan, steamID: string)
    requires WorldOk(w) && c.name in w.clans && w.clans[c.name] == c && steamID in Unlink(w.accounts, c.members)
    ensures LinkOk(World(w.clans - {c.name}, Unlink(w.accounts, c.members)), steamID)
  {
    hide WorldOk, Unlink;
    UnlinkAll(w.accounts, c.members);
    AccountLink(w, steamID);
  }

  lemma RestOk(w: World, name: string, accounts: map<string, string>)
    requires WorldOk(w) && forall s | s in accounts :: LinkOk(World(w.clans - {name}, accounts), s)
    ensures WorldOk(World(w.clans - {name}, accounts))
  {
    hide ClanOk, LinkOk;
  }

  /** The clan's own roster is unlinked, so no account is left naming a clan that is gone. */
  lemma DisbandOk(w: World, actor: Actor)
    requires WorldOk(w) && ClanModel.Disband(w, actor).Done?
    ensures WorldOk(ClanModel.Disband(w, actor).world)
  {
    hide WorldOk, ClanOk, Unlink, IsMember, LinkOk;
    var k := ActorPlace(w, actor);
    var c := w.clans[actor.clanName];
    var accounts := Unlink(w.accounts, c.members);
    forall s | s in accounts ensures LinkOk(World(w.clans - {c.name}, accounts), s) {
      UnlinkedOk(w, c, s);
    }
    RestOk(w, c.name, accounts);
  }

  /** Every legal operation, by any actor however stale, keeps every rule. */
  lemma StepOk(w: World, op: Op)
    requires WorldOk(w) && Legal(w, op)
    ensures WorldOk(Apply(w, op))
  {
    if op.Register? {
      forall s | s in w.accounts ensures LinkOk(Apply(w, op), s) {
        assert LinkOk(w, s);
      }
    } else if OutcomeOf(w, op).Done? {
      hide WorldOk;
      match op {
        case Create(s, p, n) => CreateOk(w, s, p, n);
        case RequestJoin(a, n) => RequestJoinOk(w, a, n);
        case Accept(a, id) => AcceptOk(w, a, id);
        case Reject(a, id) => RejectOk(w, a, id);
        case Cancel(a, n) => CancelOk(w, a, n);
        case Kick(a, id) => KickOk(w, a, id);
        case Leave(a) => LeaveOk(w, a);
        case ChangePosition(a, id, rank) => ChangePositionOk(w, a, id, rank);
        case ChangeMaster(a, id) => ChangeMasterOk(w, a, id);
        case Disband(a) => DisbandOk(w, a);
        case Register(_) =>
      }
    }
  }
}
