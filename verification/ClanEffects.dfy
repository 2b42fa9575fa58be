/** What each clan operation answers and leaves behind, in list places and rank numbers. */
module ClanEffects {
  import opened Bytes
  import opened Wrappers
  import opened Seqs
  import opened IdNumbers
  import opened ClanModel
  import ClanInvariant

  /** The actor's place: the first of his on the roster of the clan he names. */
  predicate ActsAt(w: World, actor: Actor, k: nat) {
    && actor.clanName != "" && actor.clanName in w.clans
    && var ms := w.clans[actor.clanName].members;
    && k < |ms| && ms[k].steamID == actor.steamID && forall j | 0 <= j < k :: ms[j].steamID != actor.steamID
  }

  predicate MemberAt(c: Clan, i: nat, id: uint16) {
    i < |c.members| && c.members[i].memberID == id && forall j | 0 <= j < i :: c.members[j].memberID != id
  }

  predicate QueuedAt(c: Clan, i: nat, id: uint16) {
    && i < |c.applicants| && c.applicants[i].applicantID == id
    && forall j | 0 <= j < i :: c.applicants[j].applicantID != id
  }

  predicate NoMember(c: Clan, id: uint16) {
    forall i | 0 <= i < |c.members| :: c.members[i].memberID != id
  }

  predicate NotQueued(c: Clan, id: uint16) {
    forall i | 0 <= i < |c.applicants| :: c.applicants[i].applicantID != id
  }

  /** An account's clan name, when there is such an account. */
  function Linked(accounts: map<string, string>, steamID: string, name: string): map<string, string> {
    map s | s in accounts :: if s == steamID then name else accounts[s]
  }

  lemma LinkedIs(accounts: map<string, string>, steamID: string, name: string)
    ensures SetClanName(accounts, steamID, name) == Linked(accounts, steamID, name)
  {
  }

  lemma ActorIs(w: World, actor: Actor, k: nat)
    requires ActsAt(w, actor, k)
    ensures var c := w.clans[actor.clanName]; ActorClan(w, actor) == Success((c, c.members[k]))
  {
    FirstAt(w.clans[actor.clanName].members, MemberOf(actor.steamID), k);
  }

  lemma MemberIs(c: Clan, i: nat, id: uint16)
    requires MemberAt(c, i, id)
    ensures Find(c.members, MemberWith(id)) == Some(c.members[i])
    ensures Remove(c.members, MemberWith(id)) == c.members[..i] + c.members[i + 1..]
    ensures forall rank: uint8 :: SetRank(c.members, id, rank) == c.members[i := c.members[i].(rank := rank)]
  {
    FirstAt(c.members, MemberWith(id), i);
  }

  lemma NoMemberIs(c: Clan, id: uint16)
    requires NoMember(c, id)
    ensures Find(c.members, MemberWith(id)) == None
  {
    FirstAt(c.members, MemberWith(id), |c.members|);
  }

  lemma QueuedIs(c: Clan, i: nat, id: uint16)
    requires QueuedAt(c, i, id)
    ensures Find(c.applicants, ApplicantWith(id)) == Some(c.applicants[i])
    ensures Remove(c.applicants, ApplicantWith(id)) == c.applicants[..i] + c.applicants[i + 1..]
  {
    FirstAt(c.applicants, ApplicantWith(id), i);
  }

  lemma NotQueuedIs(c: Clan, id: uint16)
    requires NotQueued(c, id)
    ensures Find(c.applicants, ApplicantWith(id)) == None
  {
    FirstAt(c.applicants, ApplicantWith(id), |c.applicants|);
  }

  /** Whoever names no clan, one that is gone, or one that does not list him, is refused
      everything that takes a member. */
  lemma StrangerRefused(w: World, actor: Actor, id: uint16, rank: uint8)
    requires forall k: nat :: !ActsAt(w, actor, k)
    ensures var e := if actor.clanName != "" && actor.clanName !in w.clans then ClanNotFound else NotInClan;
      && Accept(w, actor, id) == Reject(w, actor, id) == Kick(w, actor, id) == Leave(w, actor) == Refused(e)
      && ChangePosition(w, actor, id, rank) == ChangeMaster(w, actor, id) == Disband(w, actor) == Refused(e)
  {
    if actor.clanName != "" && actor.clanName in w.clans {
      var ms := w.clans[actor.clanName].members;
      var k := IndexOf(ms, MemberOf(actor.steamID));
      assert !ActsAt(w, actor, k);
    }
  }

  // ------------------------------------------------------------- the queue

  /** Rank 1 or 2 accepts; the applicant leaves the queue and joins the end of the roster under
      the same ID, at rank 8, and his account comes to name the clan. */
  lemma AcceptEffect(w: World, actor: Actor, id: uint16, k: nat)
    requires ActsAt(w, actor, k)
    ensures var c, o := w.clans[actor.clanName], Accept(w, actor, id);
      if c.members[k].rank !in {1, 2} then o == Refused(NotAllowed)
      else
        && (NotQueued(c, id) ==> o == Refused(ApplicantNotFound))
        && forall i: nat | QueuedAt(c, i, id) ::
          var a := c.applicants[i];
          var m := Member(id, a.steamID, a.name, 8);
          var c' := c.(members := c.members + [m], applicants := c.applicants[..i] + c.applicants[i + 1..]);
          o == if |c.members| >= (if c.memberCapacity == 0 then 50 else c.memberCapacity) then Refused(ClanFull)
               else Done(World(w.clans[c.name := c'], Linked(w.accounts, a.steamID, c.name)), c', OfMember(m))
  {
    ActorIs(w, actor, k);
    hide ClanModel.ActorClan, Find, Remove, SetClanName, Linked;
    var c := w.clans[actor.clanName];
    if NotQueued(c, id) {
      NotQueuedIs(c, id);
    }
    forall i: nat | QueuedAt(c, i, id)
      ensures Find(c.applicants, ApplicantWith(id)) == Some(c.applicants[i])
      ensures Remove(c.applicants, ApplicantWith(id)) == c.applicants[..i] + c.applicants[i + 1..]
      ensures SetClanName(w.accounts, c.applicants[i].steamID, c.name)
           == Linked(w.accounts, c.applicants[i].steamID, c.name)
    {
      QueuedIs(c, i, id);
      LinkedIs(w.accounts, c.applicants[i].steamID, c.name);
    }
  }

  /** Rank 1 or 2 rejects; only the queue changes. */
  lemma RejectEffect(w: World, actor: Actor, id: uint16, k: nat)
    requires ActsAt(w, actor, k)
    ensures var c, o := w.clans[actor.clanName], Reject(w, actor, id);
      if c.members[k].rank !in {1, 2} then o == Refused(NotAllowed)
      else
        && (NotQueued(c, id) ==> o == Refused(ApplicantNotFound))
        && forall i: nat | QueuedAt(c, i, id) ::
          var c' := c.(applicants := c.applicants[..i] + c.applicants[i + 1..]);
          o == Done(World(w.clans[c.name := c'], w.accounts), c', OfApplicant(c.applicants[i]))
  {
    ActorIs(w, actor, k);
    hide ClanModel.ActorClan, Find, Remove;
    var c := w.clans[actor.clanName];
    if NotQueued(c, id) {
      NotQueuedIs(c, id);
    }
    forall i: nat | QueuedAt(c, i, id)
      ensures Find(c.applicants, ApplicantWith(id)) == Some(c.applicants[i])
      ensures Remove(c.applicants, ApplicantWith(id)) == c.applicants[..i] + c.applicants[i + 1..]
    {
      QueuedIs(c, i, id);
    }
  }

  /** The player's first application in the clan found: what goes is the first with its ID. */
  lemma CancelEffect(w: World, actor: Actor, name: string, j: nat, i: nat)
    requires name in w.clans && var q := w.clans[name].applicants;
      && j < |q| && q[j].steamID == actor.steamID && (forall x | 0 <= x < j :: q[x].steamID != actor.steamID)
      && QueuedAt(w.clans[name], i, q[j].applicantID)
    ensures var c := w.clans[name];
      var c' := c.(applicants := c.applicants[..i] + c.applicants[i + 1..]);
      Cancel(w, actor, name) == Done(World(w.clans[c.name := c'], w.accounts), c', OfApplicant(c.applicants[j]))
  {
    var c := w.clans[name];
    FirstAt(c.applicants, ApplicantOf(actor.steamID), j);
    QueuedIs(c, i, c.applicants[j].applicantID);
    hide Find, Remove;
  }

  lemma CancelRefused(w: World, actor: Actor, name: string)
    requires name in w.clans ==> forall a | a in w.clans[name].applicants :: a.steamID != actor.steamID
    ensures Cancel(w, actor, name) == Refused(NoApplication)
  {
  }

  /** The application goes to the end of the queue, numbered one past the highest ID in use. */
  lemma RequestJoinEffect(w: World, actor: Actor, name: string, highest: uint16)
    requires name in w.clans ==> var c := w.clans[name];
      && (forall m | m in c.members :: m.memberID <= highest)
      && (forall a | a in c.applicants :: a.applicantID <= highest)
      && (highest == 0 || (exists m :: m in c.members && m.memberID == highest)
          || exists a :: a in c.applicants && a.applicantID == highest)
    ensures RequestJoin(w, actor, name) ==
      if actor.clanName != "" then Refused(AlreadyInClan)
      else if name !in w.clans then Refused(ClanNotFound)
      else
        var c := w.clans[name];
        if exists m :: m in c.members && m.steamID == actor.steamID then Refused(AlreadyMember)
        else if exists a :: a in c.applicants && a.steamID == actor.steamID then Done(w, c, Nobody)
        else
          var a := Applicant((highest + 1) % 65536, actor.steamID, actor.name, actor.level);
          var c' := c.(applicants := c.applicants + [a]);
          Done(World(w.clans[c.name := c'], w.accounts), c', OfApplicant(a))
  {
    if name in w.clans {
      var c := w.clans[name];
      ClanInvariant.NotFound(c, actor.steamID);
      HighestID(c, highest);
      hide Find, NextApplicantID;
    }
  }

  lemma HighestID(c: Clan, highest: uint16)
    requires (forall m | m in c.members :: m.memberID <= highest)
    requires (forall a | a in c.applicants :: a.applicantID <= highest)
    requires highest == 0 || ClanInvariant.HasID(c, highest)
    ensures NextApplicantID(c) == (highest + 1) % 65536
  {
    var ids := Ids(c);
    ClanInvariant.IdsAreIDs(c, highest);
    forall k | 0 <= k < |ids| ensures ids[k] <= highest {
      ClanInvariant.IdsAreIDs(c, ids[k]);
    }
    HighestIs(ids, highest);
  }

  // ------------------------------------------------------------ the roster

  /** Rank 1 kicks anybody else, rank 2 only ranks 8 and 9; the member goes from the roster and
      his account names no clan. */
  lemma KickEffect(w: World, actor: Actor, id: uint16, k: nat)
    requires ActsAt(w, actor, k)
    ensures var c, o := w.clans[actor.clanName], Kick(w, actor, id);
      var me := c.members[k];
      if me.rank !in {1, 2} then o == Refused(NotAllowed)
      else
        && (NoMember(c, id) ==> o == Refused(MemberNotFound))
        && forall i: nat | MemberAt(c, i, id) ::
          var m := c.members[i];
          var c' := c.(members := c.members[..i] + c.members[i + 1..]);
          o == if m.rank == 1 || id == me.memberID || (me.rank == 2 && m.rank == 2) then Refused(NotAllowed)
               else Done(World(w.clans[c.name := c'], Linked(w.accounts, m.steamID, "")), c', OfMember(m))
  {
    ActorIs(w, actor, k);
    hide ClanModel.ActorClan, Find, Remove, SetClanName, Linked;
    var c := w.clans[actor.clanName];
    if NoMember(c, id) {
      NoMemberIs(c, id);
    }
    forall i: nat | MemberAt(c, i, id)
      ensures Find(c.members, MemberWith(id)) == Some(c.members[i])
      ensures Remove(c.members, MemberWith(id)) == c.members[..i] + c.members[i + 1..]
      ensures SetClanName(w.accounts, c.members[i].steamID, "") == Linked(w.accounts, c.members[i].steamID, "")
    {
      MemberIs(c, i, id);
      LinkedIs(w.accounts, c.members[i].steamID, "");
    }
  }

  /** Anybody leaves, but the master only as the last member. */
  lemma LeaveEffect(w: World, actor: Actor, k: nat, i: nat)
    requires ActsAt(w, actor, k) && MemberAt(w.clans[actor.clanName], i, w.clans[actor.clanName].members[k].memberID)
    ensures var c := w.clans[actor.clanName];
      var c' := c.(members := c.members[..i] + c.members[i + 1..]);
      Leave(w, actor) ==
        if c.members[k].rank == 1 && |c.members| > 1 then Refused(MasterMustTransfer)
        else Done(World(w.clans[c.name := c'], Linked(w.accounts, actor.steamID, "")), c', OfMember(c.members[k]))
  {
    ActorIs(w, actor, k);
    var c := w.clans[actor.clanName];
    MemberIs(c, i, c.members[k].memberID);
    LinkedIs(w.accounts, actor.steamID, "");
    hide ClanModel.ActorClan, Remove, SetClanName, Linked;
  }

  /** Rank 1 gives anybody else rank 2, 8 or 9, and only that rank changes. */
  lemma ChangePositionEffect(w: World, actor: Actor, id: uint16, rank: uint8, k: nat)
    requires ActsAt(w, actor, k)
    ensures var c, o := w.clans[actor.clanName], ChangePosition(w, actor, id, rank);
      if c.members[k].rank != 1 then o == Refused(NotAllowed)
      else if rank !in {2, 8, 9} then o == Refused(InvalidRank)
      else
        && (NoMember(c, id) ==> o == Refused(MemberNotFound))
        && forall i: nat | MemberAt(c, i, id) ::
          var m := c.members[i].(rank := rank);
          var c' := c.(members := c.members[i := m]);
          o == if id == c.members[k].memberID then Refused(NotAllowed)
               else Done(World(w.clans[c.name := c'], w.accounts), c', OfMember(m))
  {
    ActorIs(w, actor, k);
    hide ClanModel.ActorClan, Find, SetRank;
    var c := w.clans[actor.clanName];
    if NoMember(c, id) {
      NoMemberIs(c, id);
    }
    forall i: nat | MemberAt(c, i, id)
      ensures Find(c.members, MemberWith(id)) == Some(c.members[i])
      ensures SetRank(c.members, id, rank) == c.members[i := c.members[i].(rank := rank)]
    {
      MemberIs(c, i, id);
    }
  }

  /** Rank 1 hands over to anybody else, who gets rank 1 and is the master on record; the old
      master, the first with his ID, gets rank 2. */
  lemma ChangeMasterEffect(w: World, actor: Actor, id: uint16, k: nat, j: nat)
    requires ActsAt(w, actor, k) && MemberAt(w.clans[actor.clanName], j, w.clans[actor.clanName].members[k].memberID)
    ensures var c, o := w.clans[actor.clanName], ChangeMaster(w, actor, id);
      if c.members[k].rank != 1 then o == Refused(NotAllowed)
      else if NoMember(c, id) || id == c.members[k].memberID then o == Refused(MemberNotFound)
      else forall i: nat | MemberAt(c, i, id) ::
        var to, from := c.members[i].(rank := 1), c.members[j].(rank := 2);
        var c' := c.(members := c.members[i := to][j := from], master := to.steamID);
        o == Done(World(w.clans[c.name := c'], w.accounts), c', Handover(to, c.members[k].(rank := 2)))
  {
    ActorIs(w, actor, k);
    hide ClanModel.ActorClan, Find, SetRank;
    var c := w.clans[actor.clanName];
    if NoMember(c, id) {
      NoMemberIs(c, id);
    }
    forall i: nat | MemberAt(c, i, id)
      ensures Find(c.members, MemberWith(id)) == Some(c.members[i])
      ensures id != c.members[k].memberID ==>
        SetRank(SetRank(c.members, id, 1), c.members[k].memberID, 2)
        == c.members[i := c.members[i].(rank := 1)][j := c.members[j].(rank := 2)]
    {
      MemberIs(c, i, id);
      if id != c.members[k].memberID {
        var promoted := c.(members := c.members[i := c.members[i].(rank := 1)]);
        MemberIs(promoted, j, c.members[k].memberID);
      }
    }
  }

  /** Rank 1 disbands: the clan is gone, and the accounts of its roster name no clan. */
  lemma DisbandEffect(w: World, actor: Actor, k: nat)
    requires ActsAt(w, actor, k)
    ensures var c := w.clans[actor.clanName];
      Disband(w, actor) ==
        if c.members[k].rank != 1 then Refused(NotAllowed)
        else Done(World(w.clans - {c.name}, map s | s in w.accounts ::
            if exists m :: m in c.members && m.steamID == s then "" else w.accounts[s]), c, Nobody)
  {
    ActorIs(w, actor, k);
    ClanInvariant.UnlinkAll(w.accounts, w.clans[actor.clanName].members);
    hide ClanModel.ActorClan, Unlink;
  }

  /** Under a name that is free, a clan for 50 with its founder alone: ID 1, rank 1, master. */
  lemma CreateEffect(w: World, steamID: string, playerName: string, name: string)
    ensures var m := Member(1, steamID, playerName, 1);
      var c := Clan(name, 50, steamID, [m], []);
      Create(w, steamID, playerName, name) ==
        if name in w.clans then Refused(ClanExists)
        else Done(World(w.clans[name := c], Linked(w.accounts, steamID, name)), c, OfMember(m))
  {
    LinkedIs(w.accounts, steamID, name);
    hide SetClanName, Linked;
  }
}
