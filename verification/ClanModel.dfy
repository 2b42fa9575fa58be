/** Clans and the accounts that point back at them: what every operation of the clan service
    does, as functions of the stored state. */
module ClanModel {
  import opened Bytes
  import opened Wrappers
  import opened Seqs
  import opened IdNumbers

  const RANK_MASTER: uint8 := 1
  const RANK_MANAGER: uint8 := 2
  const RANK_MEMBER: uint8 := 8
  const RANK_ASSOCIATE: uint8 := 9
  const DEFAULT_CAPACITY: uint8 := 50

  datatype Member = Member(memberID: uint16, steamID: string, name: string, rank: uint8)

  datatype Applicant = Applicant(applicantID: uint16, steamID: string, name: string, level: nat)

  datatype Clan = Clan(
    name: string, memberCapacity: uint8, master: string, members: seq<Member>, applicants: seq<Applicant>)

  /** The two repositories: clans by name, and each account's `ClanName`. */
  datatype World = World(clans: map<string, Clan>, accounts: map<string, string>)

  /** Whoever asks, as a session remembers them: nothing says the snapshot is still true. */
  datatype Actor = Actor(steamID: string, name: string, level: nat, clanName: string)

  datatype Error =
    | NotInClan | ClanNotFound | NotAllowed | MemberNotFound | ApplicantNotFound | ClanFull | NoApplication
    | InvalidRank | MasterMustTransfer | AlreadyMember | AlreadyInClan | ClanExists

  /** Who an operation was about. */
  datatype Subject =
    | Nobody
    | OfMember(member: Member)
    | OfApplicant(applicant: Applicant)
    | Handover(successor: Member, previous: Member)

  datatype Outcome = Refused(error: Error) | Done(world: World, clan: Clan, subject: Subject)

  predicate CanReview(rank: uint8) { rank == RANK_MASTER || rank == RANK_MANAGER }

  predicate IsAssignable(rank: uint8) { rank == RANK_MANAGER || rank == RANK_MEMBER || rank == RANK_ASSOCIATE }

  function Capacity(c: Clan): uint8 {
    if c.memberCapacity == 0 then DEFAULT_CAPACITY else c.memberCapacity
  }

  predicate IsFull(c: Clan) { |c.members| >= Capacity(c) }

  function MemberOf(steamID: string): Member -> bool { (m: Member) => m.steamID == steamID }

  function MemberWith(id: uint16): Member -> bool { (m: Member) => m.memberID == id }

  function ApplicantOf(steamID: string): Applicant -> bool { (a: Applicant) => a.steamID == steamID }

  function ApplicantWith(id: uint16): Applicant -> bool { (a: Applicant) => a.applicantID == id }

  function SetRank(ms: seq<Member>, id: uint16, rank: uint8): seq<Member> {
    var i := IndexOf(ms, MemberWith(id));
    if i < |ms| then ms[i := ms[i].(rank := rank)] else ms
  }

  function SetClanName(accounts: map<string, string>, steamID: string, clanName: string): map<string, string> {
    if steamID in accounts then accounts[steamID := clanName] else accounts
  }

  function Unlink(accounts: map<string, string>, members: seq<Member>): map<string, string> {
    if members == [] then accounts
    else Unlink(SetClanName(accounts, members[0].steamID, ""), members[1..])
  }

  function Store(w: World, c: Clan): World {
    w.(clans := w.clans[c.name := c])
  }

  function ActorClan(w: World, actor: Actor): Result<(Clan, Member), Error> {
    if actor.clanName == "" then Failure(NotInClan)
    else if actor.clanName !in w.clans then Failure(ClanNotFound)
    else
      var clan := w.clans[actor.clanName];
      match Find(clan.members, MemberOf(actor.steamID))
      case None => Failure(NotInClan)
      case Some(member) => Success((clan, member))
  }

  function ReviewerClan(w: World, actor: Actor): Result<(Clan, Member), Error> {
    match ActorClan(w, actor)
    case Failure(e) => Failure(e)
    case Success((clan, member)) => if CanReview(member.rank) then Success((clan, member)) else Failure(NotAllowed)
  }

  function Accept(w: World, actor: Actor, id: uint16): Outcome {
    match ReviewerClan(w, actor)
    case Failure(e) => Refused(e)
    case Success((clan, _)) =>
      match Find(clan.applicants, ApplicantWith(id))
      case None => Refused(ApplicantNotFound)
      case Some(a) =>
        if IsFull(clan) then Refused(ClanFull)
        else
          var m := Member(a.applicantID, a.steamID, a.name, RANK_MEMBER);
          var clan' := clan.(members := clan.members + [m], applicants := Remove(clan.applicants, ApplicantWith(id)));
          Done(World(w.clans[clan.name := clan'], SetClanName(w.accounts, a.steamID, clan.name)), clan', OfMember(m))
  }

  function Reject(w: World, actor: Actor, id: uint16): Outcome {
    match ReviewerClan(w, actor)
    case Failure(e) => Refused(e)
    case Success((clan, _)) =>
      match Find(clan.applicants, ApplicantWith(id))
      case None => Refused(ApplicantNotFound)
      case Some(a) =>
        var clan' := clan.(applicants := Remove(clan.applicants, ApplicantWith(id)));
        Done(Store(w, clan'), clan', OfApplicant(a))
  }

  /** A clan in which the player has applied; which one is found first follows map order. */
  predicate AppliedIn(w: World, steamID: string, clanName: string) {
    clanName in w.clans && Find(w.clans[clanName].applicants, ApplicantOf(steamID)).Some?
  }

  function Cancel(w: World, actor: Actor, found: string): Outcome {
    if !AppliedIn(w, actor.steamID, found) then Refused(NoApplication)
    else
      var clan := w.clans[found];
      var a := Find(clan.applicants, ApplicantOf(actor.steamID)).value;
      var clan' := clan.(applicants := Remove(clan.applicants, ApplicantWith(a.applicantID)));
      Done(Store(w, clan'), clan', OfApplicant(a))
  }

  /** Storing a roster without a member and unlinking the account. */
  function Detach(w: World, clan: Clan, member: Member): World {
    World(w.clans[clan.name := clan], SetClanName(w.accounts, member.steamID, ""))
  }

  function Kick(w: World, actor: Actor, id: uint16): Outcome {
    match ReviewerClan(w, actor)
    case Failure(e) => Refused(e)
    case Success((clan, me)) =>
      match Find(clan.members, MemberWith(id))
      case None => Refused(MemberNotFound)
      case Some(target) =>
        if target.rank == RANK_MASTER || target.memberID == me.memberID then Refused(NotAllowed)
        else if me.rank == RANK_MANAGER && target.rank == RANK_MANAGER then Refused(NotAllowed)
        else
          var clan' := clan.(members := Remove(clan.members, MemberWith(id)));
          Done(Detach(w, clan', target), clan', OfMember(target))
  }

  function Leave(w: World, actor: Actor): Outcome {
    match ActorClan(w, actor)
    case Failure(e) => Refused(e)
    case Success((clan, me)) =>
      if me.rank == RANK_MASTER && |clan.members| > 1 then Refused(MasterMustTransfer)
      else
        var clan' := clan.(members := Remove(clan.members, MemberWith(me.memberID)));
        Done(Detach(w, clan', me), clan', OfMember(me))
  }

  function ChangePosition(w: World, actor: Actor, id: uint16, rank: uint8): Outcome {
    match ActorClan(w, actor)
    case Failure(e) => Refused(e)
    case Success((clan, me)) =>
      if me.rank != RANK_MASTER then Refused(NotAllowed)
      else if !IsAssignable(rank) then Refused(InvalidRank)
      else match Find(clan.members, MemberWith(id))
        case None => Refused(MemberNotFound)
        case Some(target) =>
          if target.memberID == me.memberID then Refused(NotAllowed)
          else
            var clan' := clan.(members := SetRank(clan.members, id, rank));
            Done(Store(w, clan'), clan', OfMember(target.(rank := rank)))
  }

  function ChangeMaster(w: World, actor: Actor, id: uint16): Outcome {
    match ActorClan(w, actor)
    case Failure(e) => Refused(e)
    case Success((clan, me)) =>
      if me.rank != RANK_MASTER then Refused(NotAllowed)
      else match Find(clan.members, MemberWith(id))
        case None => Refused(MemberNotFound)
        case Some(target) =>
          if target.memberID == me.memberID then Refused(MemberNotFound)
          else
            var promoted := SetRank(clan.members, target.memberID, RANK_MASTER);
            var clan' := clan.(members := SetRank(promoted, me.memberID, RANK_MANAGER), master := target.steamID);
            Done(Store(w, clan'), clan', Handover(target.(rank := RANK_MASTER), me.(rank := RANK_MANAGER)))
  }

  function Disband(w: World, actor: Actor): Outcome {
    match ActorClan(w, actor)
    case Failure(e) => Refused(e)
    case Success((clan, me)) =>
      if me.rank != RANK_MASTER then Refused(NotAllowed)
      else Done(World(w.clans - {clan.name}, Unlink(w.accounts, clan.members)), clan, Nobody)
  }

  function Ids(c: Clan): seq<uint16> {
    seq(|c.members|, i requires 0 <= i < |c.members| => c.members[i].memberID)
    + seq(|c.applicants|, i requires 0 <= i < |c.applicants| => c.applicants[i].applicantID)
  }

  /** One past the highest ID, in `uint16` arithmetic. */
  function NextApplicantID(c: Clan): uint16 {
    OnePast(Ids(c))
  }

  function RequestJoin(w: World, actor: Actor, clanName: string): Outcome {
    if actor.clanName != "" then Refused(AlreadyInClan)
    else if clanName !in w.clans then Refused(ClanNotFound)
    else
      var clan := w.clans[clanName];
      if Find(clan.members, MemberOf(actor.steamID)).Some? then Refused(AlreadyMember)
      else if Find(clan.applicants, ApplicantOf(actor.steamID)).Some? then Done(w, clan, Nobody)
      else
        var a := Applicant(NextApplicantID(clan), actor.steamID, actor.name, actor.level);
        var clan' := clan.(applicants := clan.applicants + [a]);
        Done(Store(w, clan'), clan', OfApplicant(a))
  }

  function Founded(steamID: string, playerName: string, clanName: string): Clan {
    Clan(clanName, DEFAULT_CAPACITY, steamID, [Member(1, steamID, playerName, RANK_MASTER)], [])
  }

  function Create(w: World, steamID: string, playerName: string, clanName: string): Outcome {
    if clanName in w.clans then Refused(ClanExists)
    else
      var clan := Founded(steamID, playerName, clanName);
      Done(World(w.clans[clanName := clan], SetClanName(w.accounts, steamID, clanName)), clan,
          OfMember(clan.members[0]))
  }

  /** A first login makes an account without a clan. */
  function Register(w: World, steamID: string): World {
    if steamID in w.accounts then w else w.(accounts := w.accounts[steamID := ""])
  }
}
