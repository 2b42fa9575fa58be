/** The clan service over its in-memory repositories, on the heap: clans are handed out as
    structs whose slices share the stored arrays. */
module ClanService {
  import opened Bytes
  import opened Wrappers
  import opened Seqs
  import opened GoSlice
  import opened IdNumbers
  import opened ClanModel

  /** `models.Clan`: copying it copies the slices, not the arrays behind them. */
  datatype ClanRec = ClanRec(
    name: string, memberCapacity: uint8, master: string, members: Slice<Member>, applicants: Slice<Applicant>)

  predicate RecFits(c: ClanRec) {
    Fits(c.members) && Fits(c.applicants)
  }

  function ClanOf(c: ClanRec): Clan
    requires RecFits(c)
    reads c.members.arr, c.applicants.arr
  {
    Clan(c.name, c.memberCapacity, c.master, View(c.members), View(c.applicants))
  }

  datatype Reply = Reply(clan: ClanRec, subject: Subject)

  // ------------------------------------------------------ models/clan.go

  method FindMember(c: ClanRec, steamID: string) returns (r: Option<Member>)
    requires RecFits(c)
    ensures r == Find(View(c.members), MemberOf(steamID))
  {
    ghost var v := View(c.members);
    for i := 0 to c.members.len
      invariant forall j | 0 <= j < i :: !MemberOf(steamID)(v[j])
    {
      var member := c.members.arr[c.members.off + i];
      if member.steamID == steamID {
        assert MemberOf(steamID)(v[i]);
        return Some(member);
      }
    }
    return None;
  }

  method FindMemberByID(c: ClanRec, id: uint16) returns (r: Option<Member>)
    requires RecFits(c)
    ensures r == Find(View(c.members), MemberWith(id))
  {
    ghost var v := View(c.members);
    for i := 0 to c.members.len
      invariant forall j | 0 <= j < i :: !MemberWith(id)(v[j])
    {
      var member := c.members.arr[c.members.off + i];
      if member.memberID == id {
        assert MemberWith(id)(v[i]);
        return Some(member);
      }
    }
    return None;
  }

  /** The first application of a player, as the callers' loops find it. */
  method FindApplicantOf(c: ClanRec, steamID: string) returns (r: Option<Applicant>)
    requires RecFits(c)
    ensures r == Find(View(c.applicants), ApplicantOf(steamID))
  {
    ghost var v := View(c.applicants);
    for i := 0 to c.applicants.len
      invariant forall j | 0 <= j < i :: !ApplicantOf(steamID)(v[j])
    {
      var applicant := c.applicants.arr[c.applicants.off + i];
      if applicant.steamID == steamID {
        assert ApplicantOf(steamID)(v[i]);
        return Some(applicant);
      }
    }
    return None;
  }

  /** Writes no array: the clan struct gets a slice of its own. */
  method RemoveMember(c: ClanRec, id: uint16) returns (c': ClanRec)
    requires RecFits(c)
    ensures RecFits(c') && c' == c.(members := c'.members)
    ensures View(c'.members) == Remove(View(c.members), MemberWith(id))
    ensures c'.members.arr == c.members.arr || fresh(c'.members.arr)
  {
    ghost var v := View(c.members);
    for i := 0 to c.members.len
      invariant forall j | 0 <= j < i :: !MemberWith(id)(v[j])
    {
      if c.members.arr[c.members.off + i].memberID == id {
        assert MemberWith(id)(v[i]);
        var rest := RemoveAt(c.members, i);
        return c.(members := rest);
      }
    }
    return c;
  }

  /** Writes no array either. */
  method RemoveApplicant(c: ClanRec, id: uint16) returns (c': ClanRec, removed: Option<Applicant>)
    requires RecFits(c)
    ensures RecFits(c') && c' == c.(applicants := c'.applicants)
    ensures View(c'.applicants) == Remove(View(c.applicants), ApplicantWith(id))
    ensures removed == Find(View(c.applicants), ApplicantWith(id))
    ensures c'.applicants.arr == c.applicants.arr || fresh(c'.applicants.arr)
  {
    ghost var v := View(c.applicants);
    for i := 0 to c.applicants.len
      invariant forall j | 0 <= j < i :: !ApplicantWith(id)(v[j])
    {
      var applicant := c.applicants.arr[c.applicants.off + i];
      if applicant.applicantID == id {
        assert ApplicantWith(id)(v[i]);
        var rest := RemoveAt(c.applicants, i);
        return c.(applicants := rest), Some(applicant);
      }
    }
    return c, None;
  }

  /** Writes the shared array: the stored clan changes before it is saved. */
  method SetRankInPlace(c: ClanRec, id: uint16, rank: uint8)
    requires RecFits(c)
    modifies c.members.arr
    ensures View(c.members) == SetRank(old(View(c.members)), id, rank)
  {
    ghost var v := View(c.members);
    for i := 0 to c.members.len
      invariant View(c.members) == v
      invariant forall j | 0 <= j < i :: !MemberWith(id)(v[j])
    {
      var at := c.members.off + i;
      if c.members.arr[at].memberID == id {
        assert MemberWith(id)(v[i]);
        c.members.arr[at] := c.members.arr[at].(rank := rank);
        assert View(c.members) == v[i := v[i].(rank := rank)];
        return;
      }
    }
  }

  // ------------------------------------------------- memory repositories

  class MemoryPlayerRepository {
    var clanNames: map<string, string>

    constructor ()
      ensures clanNames == map[]
    {
      clanNames := map[];
    }

    method SetClanName(steamID: string, clanName: string)
      modifies this
      ensures clanNames == ClanModel.SetClanName(old(clanNames), steamID, clanName)
    {
      if steamID in clanNames {
        clanNames := clanNames[steamID := clanName];
      }
    }
  }

  // Every array has one owner, so writing the arrays of one clan cannot change another.
  type Rosters = map<array<Member>, string>
  type Queues = map<array<Applicant>, string>

  /** The arrays are the clan's own, or nobody's. */
  ghost predicate Storable(rs: Rosters, qs: Queues, c: ClanRec) {
    && (c.members.arr in rs ==> rs[c.members.arr] == c.name)
    && (c.applicants.arr in qs ==> qs[c.applicants.arr] == c.name)
  }

  ghost predicate Owned(rs: Rosters, qs: Queues, c: ClanRec) {
    && c.members.arr in rs && rs[c.members.arr] == c.name
    && c.applicants.arr in qs && qs[c.applicants.arr] == c.name
  }

  /** The stored structs show exactly these clans, and own their arrays. */
  ghost predicate Shows(clans: map<string, ClanRec>, contents: map<string, Clan>, rs: Rosters, qs: Queues)
    reads rs.Keys, qs.Keys
  {
    && clans.Keys == contents.Keys
    && forall n | n in clans ::
      clans[n].name == n && Owned(rs, qs, clans[n]) && RecFits(clans[n]) && ClanOf(clans[n]) == contents[n]
  }

  lemma ShowsPut(clans: map<string, ClanRec>, contents: map<string, Clan>, rs: Rosters, qs: Queues, c: ClanRec)
    requires Shows(clans, contents, rs, qs) && RecFits(c) && Storable(rs, qs, c)
    ensures Shows(
      clans[c.name := c], contents[c.name := ClanOf(c)], rs[c.members.arr := c.name], qs[c.applicants.arr := c.name])
  {
    var clans', contents', rs', qs' :=
      clans[c.name := c], contents[c.name := ClanOf(c)], rs[c.members.arr := c.name], qs[c.applicants.arr := c.name];
    forall n | n in clans'
      ensures Owned(rs', qs', clans'[n]) && RecFits(clans'[n]) && ClanOf(clans'[n]) == contents'[n]
    {
    }
  }

  twostate lemma SameView<T>(s: Slice<T>)
    requires Fits(s) && s.arr[..] == old(s.arr[..])
    ensures View(s) == old(View(s))
  {
    assert s.arr[s.off..s.off + s.len] == s.arr[..][s.off..s.off + s.len];
  }

  twostate lemma SameClan(c: ClanRec)
    requires RecFits(c)
    requires c.members.arr[..] == old(c.members.arr[..]) && c.applicants.arr[..] == old(c.applicants.arr[..])
    ensures ClanOf(c) == old(ClanOf(c))
  {
    SameView(c.members);
    SameView(c.applicants);
  }

  /** Only the arrays of one clan may have been written since. */
  twostate predicate OthersKept(rs: Rosters, qs: Queues, c: ClanRec)
    reads rs.Keys, qs.Keys
  {
    && (forall a | a in rs && a != c.members.arr :: a[..] == old(a[..]))
    && (forall a | a in qs && a != c.applicants.arr :: a[..] == old(a[..]))
  }

  class MemoryClanRepository {
    var clans: map<string, ClanRec>
    ghost var contents: map<string, Clan>
    ghost var rosters: Rosters
    ghost var queues: Queues

    constructor ()
      ensures Valid() && contents == map[] && rosters == map[] && queues == map[]
    {
      clans, contents, rosters, queues := map[], map[], map[], map[];
    }

    ghost predicate Valid()
      reads this, rosters.Keys, queues.Keys
    {
      Shows(clans, contents, rosters, queues)
    }

    method Find(name: string) returns (r: Option<ClanRec>)
      requires Valid()
      ensures r.Some? <==> name in contents
      ensures r.Some? ==> r.value.name == name && Found(r.value)
    {
      r := if name in clans then Some(clans[name]) else None;
    }

    /** What the caller of `Find` holds: the stored struct itself, arrays and all. */
    ghost predicate Found(c: ClanRec)
      reads this, c.members.arr, c.applicants.arr
    {
      && c.name in clans && clans[c.name] == c && Owned(rosters, queues, c)
      && RecFits(c) && c.name in contents && contents[c.name] == ClanOf(c)
    }

    twostate lemma StillShows(name: string)
      requires old(Valid()) && name in clans && unchanged(this) && OthersKept(rosters, queues, clans[name])
      ensures RecFits(clans[name]) && Shows(clans, contents[name := ClanOf(clans[name])], rosters, queues)
    {
      hide ClanOf, RecFits;
      forall n | n in clans && n != name
        ensures ClanOf(clans[n]) == contents[n]
      {
        SameClan(clans[n]);
      }
    }

    /** Writing where no stored clan looks changes nothing that is shown. */
    twostate lemma StillValid(name: string)
      requires old(Valid()) && name in clans && unchanged(this) && OthersKept(rosters, queues, clans[name])
      requires RecFits(clans[name]) && ClanOf(clans[name]) == old(ClanOf(clans[name]))
      ensures Valid()
    {
      StillShows(name);
      assert contents[name := ClanOf(clans[name])] == contents;
    }

    lemma StoredFits(name: string)
      requires Valid() && name in clans
      ensures RecFits(clans[name])
    {
    }

    /** So does writing the array of a roster that still shows the same members. */
    twostate lemma RosterStillValid(name: string)
      requires old(Valid()) && name in clans && unchanged(this) && RecFits(clans[name])
      requires View(clans[name].members) == old(View(clans[name].members))
      requires forall a | a in rosters && a != clans[name].members.arr :: unchanged(a)
      requires forall a | a in queues :: unchanged(a)
      ensures Valid()
    {
      hide Shows;
      StoredOwned(name);
      SameView(clans[name].applicants);
      StillValid(name);
    }

    twostate lemma StoredOwned(name: string)
      requires old(Valid()) && name in clans && unchanged(this)
      ensures Owned(rosters, queues, clans[name])
    {
    }

    /** A stored struct is replaced, or a new one stored. */
    method Put(c: ClanRec)
      requires Valid() && RecFits(c) && Storable(rosters, queues, c)
      modifies this
      ensures Valid() && clans == old(clans)[c.name := c]
      ensures contents == old(contents)[c.name := ClanOf(c)]
      ensures rosters == old(rosters)[c.members.arr := c.name] && queues == old(queues)[c.applicants.arr := c.name]
    {
      hide Shows, ClanOf, RecFits, Storable;
      ShowsPut(clans, contents, rosters, queues, c);
      ghost var rs, qs := rosters[c.members.arr := c.name], queues[c.applicants.arr := c.name];
      clans, contents, rosters, queues := clans[c.name := c], contents[c.name := ClanOf(c)], rs, qs;
    }

    /** A roster that is the clan's own, or nobody's, can be stored with the queue that is there. */
    lemma RosterStorable(c: ClanRec)
      requires Valid() && c.name in clans && Storable(rosters, queues, c)
      ensures c.name in contents && Storable(rosters, queues, clans[c.name].(members := c.members))
    {
    }

    // The saves replace some fields of the stored struct; a clan that is gone stays gone.

    method SaveApplicants(name: string, applicants: Slice<Applicant>)
      requires Valid() && Fits(applicants)
      requires name in clans ==> Storable(rosters, queues, clans[name].(applicants := applicants))
      modifies this
      ensures Valid()
      ensures contents ==
        if name in old(contents) then old(contents)[name := old(contents)[name].(applicants := View(applicants))]
        else old(contents)
    {
      if name in clans {
        Put(clans[name].(applicants := applicants));
      }
    }

    method SaveMembers(name: string, members: Slice<Member>)
      requires Valid() && Fits(members)
      requires name in clans ==> Storable(rosters, queues, clans[name].(members := members))
      modifies this
      ensures Valid()
      ensures contents ==
        if name in old(contents) then old(contents)[name := old(contents)[name].(members := View(members))]
        else old(contents)
    {
      if name in clans {
        Put(clans[name].(members := members));
      }
    }

    method SaveRoster(name: string, members: Slice<Member>, applicants: Slice<Applicant>)
      requires Valid() && Fits(members) && Fits(applicants)
      requires name in clans ==> Storable(rosters, queues, clans[name].(members := members, applicants := applicants))
      modifies this
      ensures Valid()
      ensures contents ==
        if name in old(contents)
        then old(contents)[name := old(contents)[name].(members := View(members), applicants := View(applicants))]
        else old(contents)
    {
      if name in clans {
        Put(clans[name].(members := members, applicants := applicants));
      }
    }

    method SaveLeadership(name: string, master: string, members: Slice<Member>)
      requires Valid() && Fits(members)
      requires name in clans ==> Storable(rosters, queues, clans[name].(master := master, members := members))
      modifies this
      ensures Valid()
      ensures contents ==
        if name in old(contents)
        then old(contents)[name := old(contents)[name].(master := master, members := View(members))]
        else old(contents)
    {
      if name in clans {
        Put(clans[name].(master := master, members := members));
      }
    }

    method Create(c: ClanRec) returns (ok: bool)
      requires Valid() && RecFits(c) && Storable(rosters, queues, c)
      modifies this
      ensures Valid() && (ok <==> c.name !in old(contents))
      ensures if ok then contents == old(contents)[c.name := ClanOf(c)] else unchanged(this)
    {
      ok := c.name !in clans;
      if ok {
        Put(c);
      }
    }

    method Delete(name: string)
      requires Valid()
      modifies this
      ensures Valid() && contents == old(contents) - {name}
    {
      clans, contents := clans - {name}, contents - {name};
    }

    /** The stored clan, when the player is in its queue. */
    method Queueing(name: string, steamID: string) returns (r: Option<ClanRec>)
      requires Valid() && name in contents
      ensures r.Some? ==> Found(r.value) && r.value.name == name
      ensures r.Some? <==> Seqs.Find(contents[name].applicants, ApplicantOf(steamID)).Some?
    {
      hide Seqs.Find, Shows;
      r := Find(name);
      var applicant := FindApplicantOf(r.value, steamID);
      if applicant.None? {
        r := None;
      }
    }

    lemma SameKeys()
      requires Valid()
      ensures clans.Keys == contents.Keys
    {
    }

    /** Some clan with an application of the player, whichever the map yields first. */
    method FindByApplicant(steamID: string) returns (found: Option<ClanRec>)
      requires Valid()
      ensures found.Some? ==> Found(found.value)
      ensures found.Some? ==> Seqs.Find(contents[found.value.name].applicants, ApplicantOf(steamID)).Some?
      ensures found.None? ==> forall n | n in contents :: Seqs.Find(contents[n].applicants, ApplicantOf(steamID)).None?
    {
      hide *;
      SameKeys();
      var left := clans.Keys;
      while left != {}
        invariant left <= contents.Keys
        invariant forall n | n in contents && n !in left ::
          Seqs.Find(contents[n].applicants, ApplicantOf(steamID)).None?
        decreases left
      {
        var n :| n in left;
        left := left - {n};
        found := Queueing(n, steamID);
        if found.Some? {
          return;
        }
      }
      return None;
    }
  }

  // ------------------------------------------------------------ services

  /** What a method must have answered and left behind, for the outcome of the model. */
  ghost predicate Answers(o: Outcome, r: Result<Reply, Error>, was: World, now: World)
    requires r.Success? ==> RecFits(r.value.clan)
    reads if r.Success? then {r.value.clan.members.arr} else {}
    reads if r.Success? then {r.value.clan.applicants.arr} else {}
  {
    match o
    case Refused(e) => r == Failure(e) && now == was
    case Done(w, c, s) => r.Success? && ClanOf(r.value.clan) == c && r.value.subject == s && now == w
  }

  /** One past the highest ID in use, in `uint16` arithmetic. */
  method NextID(c: ClanRec) returns (id: uint16)
    requires RecFits(c)
    ensures id == NextApplicantID(ClanOf(c))
  {
    hide Highest, ClanOf, RecFits;
    ghost var ids := Ids(ClanOf(c));
    IdsShown(c);
    var highest: uint16 := 0;
    for i := 0 to c.members.len
      invariant forall j | 0 <= j < i :: ids[j] <= highest
      invariant highest == 0 || highest in ids
    {
      var member := View(c.members)[i];
      if member.memberID > highest {
        highest := member.memberID;
        assert ids[i] == highest;
      }
    }
    for i := 0 to c.applicants.len
      invariant forall j | 0 <= j < c.members.len + i :: ids[j] <= highest
      invariant highest == 0 || highest in ids
    {
      var applicant := View(c.applicants)[i];
      if applicant.applicantID > highest {
        highest := applicant.applicantID;
        assert ids[c.members.len + i] == highest;
      }
    }
    HighestIs(ids, highest);
    id := (highest + 1) % 0x1_0000;
  }

  lemma IdsShown(c: ClanRec)
    requires RecFits(c)
    ensures Fits(c.members) && Fits(c.applicants) && |Ids(ClanOf(c))| == c.members.len + c.applicants.len
    ensures forall j | 0 <= j < c.members.len :: Ids(ClanOf(c))[j] == View(c.members)[j].memberID
    ensures forall j | 0 <= j < c.applicants.len ::
      Ids(ClanOf(c))[c.members.len + j] == View(c.applicants)[j].applicantID
  {
  }

  class ClanService {
    const clans: MemoryClanRepository
    const players: MemoryPlayerRepository

    constructor (clans: MemoryClanRepository, players: MemoryPlayerRepository)
      ensures this.clans == clans && this.players == players
    {
      this.clans, this.players := clans, players;
    }

    ghost function Stored(): World
      reads clans, players
    {
      World(clans.contents, players.clanNames)
    }

    method ActorClan(actor: Actor) returns (r: Result<(ClanRec, Member), Error>)
      requires clans.Valid()
      ensures r.Success? ==> clans.Found(r.value.0) && r.value.0.name == actor.clanName
      ensures ClanModel.ActorClan(Stored(), actor)
           == if r.Success? then Success((ClanOf(r.value.0), r.value.1)) else Failure(r.error)
    {
      if actor.clanName == "" {
        return Failure(NotInClan);
      }
      var clan := clans.Find(actor.clanName);
      if clan.None? {
        return Failure(ClanNotFound);
      }
      var member := FindMember(clan.value, actor.steamID);
      if member.None? {
        return Failure(NotInClan);
      }
      return Success((clan.value, member.value));
    }

    method ReviewerClan(actor: Actor) returns (r: Result<(ClanRec, Member), Error>)
      requires clans.Valid()
      ensures r.Success? ==> clans.Found(r.value.0)
      ensures ClanModel.ReviewerClan(Stored(), actor)
           == if r.Success? then Success((ClanOf(r.value.0), r.value.1)) else Failure(r.error)
    {
      r := ActorClan(actor);
      if r.Success? && !CanReview(r.value.1.rank) {
        return Failure(NotAllowed);
      }
    }

    /** The applicant is taken off the queue before the roster is found full; the refusal
        leaves the stored queue, and every array, as it was. */
    method AcceptApplication(actor: Actor, id: uint16) returns (r: Result<Reply, Error>)
      requires clans.Valid()
      modifies clans, players, clans.rosters.Keys
      ensures clans.Valid() && (r.Success? ==> RecFits(r.value.clan))
      ensures Answers(Accept(old(Stored()), actor, id), r, old(Stored()), Stored())
      ensures r.Failure? ==> unchanged(clans) && forall a | a in old(clans.rosters) :: unchanged(a)
    {
      hide ClanModel.ReviewerClan, Seqs.Find, Remove, Shows;
      var found := ReviewerClan(actor);
      if found.Failure? {
        return Failure(found.error);
      }
      var clan, applicant := RemoveApplicant(found.value.0, id);
      if applicant.None? {
        return Failure(ApplicantNotFound);
      }
      if clan.members.len >= (if clan.memberCapacity == 0 then DEFAULT_CAPACITY else clan.memberCapacity) {
        return Failure(ClanFull);
      }
      var member := Member(applicant.value.applicantID, applicant.value.steamID, applicant.value.name, RANK_MEMBER);
      clan := Enrol(clan, member);
      return Success(Reply(clan, OfMember(member)));
    }

    /** The longer roster and the shorter queue, stored together, and the account's link. */
    method Enrol(clan: ClanRec, member: Member) returns (clan': ClanRec)
      requires clans.Valid() && RecFits(clan)
      requires clan.name in clans.clans && clan.members == clans.clans[clan.name].members
      requires clans.clans[clan.name].name == clan.name && clan.name in clans.contents
      requires ClanOf(clan) == clans.contents[clan.name].(applicants := View(clan.applicants))
      requires Storable(clans.rosters, clans.queues, clan)
      modifies clans, players, clan.members.arr
      ensures clans.Valid() && RecFits(clan')
      ensures ClanOf(clan') == old(ClanOf(clan)).(members := old(View(clan.members)) + [member])
      ensures clans.contents == old(clans.contents)[clan.name := ClanOf(clan')]
      ensures players.clanNames == ClanModel.SetClanName(old(players.clanNames), member.steamID, clan.name)
    {
      hide Shows;
      clan' := AppendMember(clan, member);
      clans.SaveRoster(clan.name, clan'.members, clan'.applicants);
      players.SetClanName(member.steamID, clan.name);
    }

    /** Appending may write the stored roster's array, past what any stored clan shows. */
    method AppendMember(clan: ClanRec, member: Member) returns (clan': ClanRec)
      requires clans.Valid() && RecFits(clan)
      requires clan.name in clans.clans && clan.members == clans.clans[clan.name].members
      modifies clan.members.arr
      ensures clans.Valid() && RecFits(clan') && clan' == clan.(members := clan'.members)
      ensures View(clan'.members) == old(View(clan.members)) + [member]
      ensures clan'.members.arr == clan.members.arr || fresh(clan'.members.arr)
      ensures unchanged(clans) && unchanged(players)
    {
      hide Shows;
      clans.StoredFits(clan.name);
      var members := Append(clan.members, [member]);
      clans.RosterStillValid(clan.name);
      clan' := clan.(members := members);
    }

    /** Touches no array at all. */
    method RejectApplication(actor: Actor, id: uint16) returns (r: Result<Reply, Error>)
      requires clans.Valid()
      modifies clans
      ensures clans.Valid() && (r.Success? ==> RecFits(r.value.clan))
      ensures Answers(Reject(old(Stored()), actor, id), r, old(Stored()), Stored())
      ensures r.Failure? ==> unchanged(clans)
    {
      hide ClanModel.ReviewerClan, Seqs.Find, Remove, Shows;
      var found := ReviewerClan(actor);
      if found.Failure? {
        return Failure(found.error);
      }
      var clan, applicant := RemoveApplicant(found.value.0, id);
      if applicant.None? {
        return Failure(ApplicantNotFound);
      }
      clans.SaveApplicants(clan.name, clan.applicants);
      return Success(Reply(clan, OfApplicant(applicant.value)));
    }

    /** The stored clan changes here, before it is saved. */
    method SetRank(clan: ClanRec, id: uint16, rank: uint8)
      requires clans.Valid() && clans.Found(clan)
      modifies clans`contents, clan.members.arr
      ensures clans.Valid() && View(clan.members) == ClanModel.SetRank(old(View(clan.members)), id, rank)
      ensures ClanOf(clan) == old(ClanOf(clan)).(members := View(clan.members)) && clans.Found(clan)
      ensures clans.contents == old(clans.contents)[clan.name := ClanOf(clan)]
    {
      hide Shows;
      SetRankInPlace(clan, id, rank);
      clans.StillShows(clan.name);
      clans.contents := clans.contents[clan.name := ClanOf(clan)];
    }

    method CancelApplication(actor: Actor) returns (r: Result<Reply, Error>)
      requires clans.Valid()
      modifies clans
      ensures clans.Valid() && (r.Success? ==> RecFits(r.value.clan))
      ensures r.Success? ==> Answers(Cancel(old(Stored()), actor, r.value.clan.name), r, old(Stored()), Stored())
      ensures r.Failure? ==> r == Failure(NoApplication) && unchanged(clans)
      ensures r.Failure? <==> forall n | n in old(Stored()).clans :: !AppliedIn(old(Stored()), actor.steamID, n)
    {
      hide Seqs.Find, Remove, Shows;
      var found := clans.FindByApplicant(actor.steamID);
      if found.None? {
        return Failure(NoApplication);
      }
      assert AppliedIn(Stored(), actor.steamID, found.value.name);
      var withdrawn := FindApplicantOf(found.value, actor.steamID);
      var clan, _ := RemoveApplicant(found.value, withdrawn.value.applicantID);
      clans.SaveApplicants(clan.name, clan.applicants);
      return Success(Reply(clan, OfApplicant(withdrawn.value)));
    }

    /** Touches no array at all. */
    method KickMember(actor: Actor, id: uint16) returns (r: Result<Reply, Error>)
      requires clans.Valid()
      modifies clans, players
      ensures clans.Valid() && (r.Success? ==> RecFits(r.value.clan))
      ensures Answers(Kick(old(Stored()), actor, id), r, old(Stored()), Stored())
      ensures r.Failure? ==> unchanged(clans)
    {
      hide ClanModel.ReviewerClan, Seqs.Find, Remove, Shows;
      var found := ReviewerClan(actor);
      if found.Failure? {
        return Failure(found.error);
      }
      var clan, me := found.value.0, found.value.1;
      var target := FindMemberByID(clan, id);
      if target.None? {
        return Failure(MemberNotFound);
      }
      if target.value.rank == RANK_MASTER || target.value.memberID == me.memberID {
        return Failure(NotAllowed);
      }
      if me.rank == RANK_MANAGER && target.value.rank == RANK_MANAGER {
        return Failure(NotAllowed);
      }
      clan := RemoveMember(clan, id);
      Detach(clan, target.value);
      return Success(Reply(clan, OfMember(target.value)));
    }

    /** Touches no array at all. */
    method Leave(actor: Actor) returns (r: Result<Reply, Error>)
      requires clans.Valid()
      modifies clans, players
      ensures clans.Valid() && (r.Success? ==> RecFits(r.value.clan))
      ensures Answers(ClanModel.Leave(old(Stored()), actor), r, old(Stored()), Stored())
      ensures r.Failure? ==> unchanged(clans)
    {
      hide ClanModel.ActorClan, Seqs.Find, Remove, Shows;
      var found := ActorClan(actor);
      if found.Failure? {
        return Failure(found.error);
      }
      var clan, me := found.value.0, found.value.1;
      if me.rank == RANK_MASTER && clan.members.len > 1 {
        return Failure(MasterMustTransfer);
      }
      clan := RemoveMember(clan, me.memberID);
      Detach(clan, me);
      return Success(Reply(clan, OfMember(me)));
    }

    method Detach(clan: ClanRec, member: Member)
      requires clans.Valid() && RecFits(clan) && clan.name in clans.clans
      requires Storable(clans.rosters, clans.queues, clan)
      requires ClanOf(clan) == clans.contents[clan.name].(members := View(clan.members))
      modifies clans, players
      ensures clans.Valid() && Stored() == ClanModel.Detach(old(Stored()), ClanOf(clan), member)
    {
      hide Shows, Storable;
      clans.RosterStorable(clan);
      clans.SaveMembers(clan.name, clan.members);
      players.SetClanName(member.steamID, "");
    }

    /** Writes the one roster it names, and that only when it succeeds. */
    method ChangePosition(actor: Actor, id: uint16, rank: uint8) returns (r: Result<Reply, Error>)
      requires clans.Valid()
      modifies clans, if actor.clanName in clans.clans then {clans.clans[actor.clanName].members.arr} else {}
      ensures clans.Valid() && (r.Success? ==> RecFits(r.value.clan))
      ensures Answers(ClanModel.ChangePosition(old(Stored()), actor, id, rank), r, old(Stored()), Stored())
      ensures r.Failure? ==> unchanged(clans) && forall a | a in old(clans.rosters) :: unchanged(a)
    {
      hide ClanModel.ActorClan, Seqs.Find, ClanModel.SetRank, Shows;
      var found := ActorClan(actor);
      if found.Failure? {
        return Failure(found.error);
      }
      var clan, me := found.value.0, found.value.1;
      if me.rank != RANK_MASTER {
        return Failure(NotAllowed);
      }
      if !IsAssignable(rank) {
        return Failure(InvalidRank);
      }
      var target := FindMemberByID(clan, id);
      if target.None? {
        return Failure(MemberNotFound);
      }
      if target.value.memberID == me.memberID {
        return Failure(NotAllowed);
      }
      SetRank(clan, id, rank);
      clans.SaveMembers(clan.name, clan.members);
      return Success(Reply(clan, OfMember(target.value.(rank := rank))));
    }

    /** Writes the one roster it names, and that only when it succeeds. */
    method ChangeMaster(actor: Actor, id: uint16) returns (r: Result<Reply, Error>)
      requires clans.Valid()
      modifies clans, if actor.clanName in clans.clans then {clans.clans[actor.clanName].members.arr} else {}
      ensures clans.Valid() && (r.Success? ==> RecFits(r.value.clan))
      ensures Answers(ClanModel.ChangeMaster(old(Stored()), actor, id), r, old(Stored()), Stored())
      ensures r.Failure? ==> unchanged(clans) && forall a | a in old(clans.rosters) :: unchanged(a)
    {
      hide ClanModel.ActorClan, Seqs.Find, ClanModel.SetRank, Shows;
      var found := ActorClan(actor);
      if found.Failure? {
        return Failure(found.error);
      }
      var clan, me := found.value.0, found.value.1;
      if me.rank != RANK_MASTER {
        return Failure(NotAllowed);
      }
      var target := FindMemberByID(clan, id);
      if target.None? || target.value.memberID == me.memberID {
        return Failure(MemberNotFound);
      }
      clan := HandOver(clan, me.memberID, target.value);
      return Success(Reply(clan, Handover(target.value.(rank := RANK_MASTER), me.(rank := RANK_MANAGER))));
    }

    /** Both ranks and the master on record, stored together. */
    method HandOver(clan: ClanRec, master: uint16, successor: Member) returns (clan': ClanRec)
      requires clans.Valid() && clans.Found(clan)
      modifies clans, clan.members.arr
      ensures clans.Valid() && RecFits(clan')
      ensures ClanOf(clan') == old(ClanOf(clan)).(
        members := ClanModel.SetRank(
          ClanModel.SetRank(old(View(clan.members)), successor.memberID, RANK_MASTER), master, RANK_MANAGER),
        master := successor.steamID)
      ensures clans.contents == old(clans.contents)[clan.name := ClanOf(clan')]
    {
      hide ClanModel.SetRank, Shows;
      SetRank(clan, successor.memberID, RANK_MASTER);
      SetRank(clan, master, RANK_MANAGER);
      clan' := clan.(master := successor.steamID);
      clans.SaveLeadership(clan.name, clan'.master, clan'.members);
    }

    method Disband(actor: Actor) returns (r: Result<Reply, Error>)
      requires clans.Valid()
      modifies clans, players
      ensures clans.Valid() && (r.Success? ==> RecFits(r.value.clan))
      ensures Answers(ClanModel.Disband(old(Stored()), actor), r, old(Stored()), Stored())
      ensures r.Failure? ==> unchanged(clans)
    {
      hide ClanModel.ActorClan, Seqs.Find, Remove, Shows;
      var found := ActorClan(actor);
      if found.Failure? {
        return Failure(found.error);
      }
      var clan, me := found.value.0, found.value.1;
      if me.rank != RANK_MASTER {
        return Failure(NotAllowed);
      }
      clans.Delete(clan.name);
      UnlinkAll(clan);
      return Success(Reply(clan, Nobody));
    }

    method UnlinkAll(clan: ClanRec)
      requires RecFits(clan)
      modifies players
      ensures players.clanNames == Unlink(old(players.clanNames), View(clan.members))
    {
      ghost var all := View(clan.members);
      assert all[0..] == all;
      for i := 0 to clan.members.len
        invariant Unlink(players.clanNames, all[i..]) == Unlink(old(players.clanNames), all)
      {
        assert all[i..][0] == all[i] && all[i..][1..] == all[i + 1..];
        players.SetClanName(clan.members.arr[clan.members.off + i].steamID, "");
      }
    }

    method RequestJoin(actor: Actor, clanName: string) returns (r: Result<Reply, Error>)
      requires clans.Valid()
      modifies clans, clans.queues.Keys
      ensures clans.Valid() && (r.Success? ==> RecFits(r.value.clan))
      ensures Answers(ClanModel.RequestJoin(old(Stored()), actor, clanName), r, old(Stored()), Stored())
      ensures r.Failure? ==> unchanged(clans) && forall a | a in old(clans.queues) :: unchanged(a)
    {
      hide Seqs.Find, NextApplicantID, Shows;
      if actor.clanName != "" {
        return Failure(AlreadyInClan);
      }
      var found := clans.Find(clanName);
      if found.None? {
        return Failure(ClanNotFound);
      }
      var clan := found.value;
      var member := FindMember(clan, actor.steamID);
      if member.Some? {
        return Failure(AlreadyMember);
      }
      var queued := FindApplicantOf(clan, actor.steamID);
      if queued.Some? {
        return Success(Reply(clan, Nobody));
      }
      var id := NextID(clan);
      var applicant := Applicant(id, actor.steamID, actor.name, actor.level);
      clan := AppendApplicant(clan, applicant);
      clans.SaveApplicants(clan.name, clan.applicants);
      return Success(Reply(clan, OfApplicant(applicant)));
    }

    /** Appending may write the stored queue's array, past what any stored clan shows. */
    method AppendApplicant(clan: ClanRec, applicant: Applicant) returns (clan': ClanRec)
      requires clans.Valid() && clans.Found(clan)
      modifies clan.applicants.arr
      ensures clans.Valid() && RecFits(clan') && clan' == clan.(applicants := clan'.applicants)
      ensures View(clan'.members) == old(View(clan.members))
      ensures View(clan'.applicants) == old(View(clan.applicants)) + [applicant]
      ensures clan'.applicants.arr == clan.applicants.arr || fresh(clan'.applicants.arr)
    {
      hide Shows;
      var applicants := Append(clan.applicants, [applicant]);
      clans.StillValid(clan.name);
      clan' := clan.(applicants := applicants);
    }

    method Create(steamID: string, playerName: string, clanName: string) returns (r: Result<Reply, Error>)
      requires clans.Valid()
      modifies clans, players
      ensures clans.Valid() && (r.Success? ==> RecFits(r.value.clan))
      ensures Answers(ClanModel.Create(old(Stored()), steamID, playerName, clanName), r, old(Stored()), Stored())
      ensures r.Failure? ==> unchanged(clans)
    {
      hide Shows;
      var founder := Member(1, steamID, playerName, RANK_MASTER);
      var members := FromSeq([founder]);
      var applicants := FromSeq<Applicant>([]);
      var clan := ClanRec(clanName, DEFAULT_CAPACITY, steamID, members, applicants);
      var ok := clans.Create(clan);
      if !ok {
        return Failure(ClanExists);
      }
      players.SetClanName(steamID, clanName);
      return Success(Reply(clan, OfMember(founder)));
    }
  }
}
