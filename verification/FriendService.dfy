/** The friend service over its in-memory repository, on the heap: players are handed out as
    structs whose slices share the stored arrays. Method by method against `Friends`. */
module FriendService {
  import opened Bytes
  import opened Wrappers
  import opened Seqs
  import opened GoSlice
  import opened IdNumbers
  import Friends

  type Friend = Friends.Friend
  type Request = Friends.Request
  type Social = Friends.Social

  /** The social part of `models.Player`: copying it copies the slices, not the arrays. */
  datatype SocialRec = SocialRec(name: string, friends: Slice<Friend>, requests: Slice<Request>)

  predicate RecFits(r: SocialRec) {
    Fits(r.friends) && Fits(r.requests)
  }

  function SocialOf(r: SocialRec): Social
    requires RecFits(r)
    reads r.friends.arr, r.requests.arr
  {
    Friends.Social(r.name, View(r.friends), View(r.requests))
  }

  lemma IdsShown(r: SocialRec)
    requires RecFits(r)
    ensures Fits(r.friends) && Fits(r.requests)
    ensures |Friends.SocialIds(SocialOf(r))| == r.friends.len + r.requests.len
    ensures forall i | 0 <= i < r.friends.len :: Friends.SocialIds(SocialOf(r))[i] == View(r.friends)[i].friendID
    ensures forall i | 0 <= i < r.requests.len ::
      Friends.SocialIds(SocialOf(r))[r.friends.len + i] == View(r.requests)[i].requestID
  {
    Friends.IdsOfFriends(SocialOf(r));
  }

  /** A copy read from the store and changed through a pointer. */
  class Profile {
    const name: string
    var friends: Slice<Friend>
    var requests: Slice<Request>

    constructor (r: SocialRec)
      ensures Rec() == r
    {
      name, friends, requests := r.name, r.friends, r.requests;
    }

    function Rec(): SocialRec
      reads this
    {
      SocialRec(name, friends, requests)
    }

    method Friend(id: uint16) returns (r: Option<Friend>)
      requires Fits(friends)
      ensures r == Find(View(friends), Friends.FriendWith(id))
    {
      ghost var v := View(friends);
      for i := 0 to friends.len
        invariant forall j | 0 <= j < i :: !Friends.FriendWith(id)(v[j])
      {
        var friend := friends.arr[friends.off + i];
        if friend.friendID == id {
          assert Friends.FriendWith(id)(v[i]);
          return Some(friend);
        }
      }
      return None;
    }

    method FriendEntryFor(steamID: string) returns (r: Option<Friend>)
      requires Fits(friends)
      ensures r == Find(View(friends), Friends.FriendOf(steamID))
    {
      ghost var v := View(friends);
      for i := 0 to friends.len
        invariant forall j | 0 <= j < i :: !Friends.FriendOf(steamID)(v[j])
      {
        var friend := friends.arr[friends.off + i];
        if friend.steamID == steamID {
          assert Friends.FriendOf(steamID)(v[i]);
          return Some(friend);
        }
      }
      return None;
    }

    method IsFriendOf(steamID: string) returns (yes: bool)
      requires Fits(friends)
      ensures yes == Find(View(friends), Friends.FriendOf(steamID)).Some?
    {
      var entry := FriendEntryFor(steamID);
      return entry.Some?;
    }

    method FriendRequestFrom(steamID: string) returns (r: Option<Request>)
      requires Fits(requests)
      ensures r == Find(View(requests), Friends.RequestFrom(steamID))
    {
      ghost var v := View(requests);
      for i := 0 to requests.len
        invariant forall j | 0 <= j < i :: !Friends.RequestFrom(steamID)(v[j])
      {
        var request := requests.arr[requests.off + i];
        if request.steamID == steamID {
          assert Friends.RequestFrom(steamID)(v[i]);
          return Some(request);
        }
      }
      return None;
    }

    /** Writes no array: the struct gets a slice of its own. */
    method RemoveFriend(id: uint16) returns (r: Option<Friend>)
      requires Fits(friends)
      modifies this`friends
      ensures r == Find(old(View(friends)), Friends.FriendWith(id))
      ensures Fits(friends) && View(friends) == Remove(old(View(friends)), Friends.FriendWith(id))
      ensures friends.arr == old(friends.arr) || fresh(friends.arr)
    {
      hide Find, Remove;
      ghost var v := View(friends);
      for i := 0 to friends.len
        invariant friends == old(friends)
        invariant forall j | 0 <= j < i :: !Friends.FriendWith(id)(v[j])
      {
        var friend := friends.arr[friends.off + i];
        if friend.friendID == id {
          FirstAt(v, Friends.FriendWith(id), i);
          friends := RemoveAt(friends, i);
          return Some(friend);
        }
      }
      FirstAt(v, Friends.FriendWith(id), |v|);
      return None;
    }

    /** Writes no array either. */
    method RemoveFriendOf(steamID: string) returns (r: Option<Friend>)
      requires Fits(friends)
      modifies this`friends
      ensures r == Find(old(View(friends)), Friends.FriendOf(steamID))
      ensures Fits(friends) && View(friends) == Remove(old(View(friends)), Friends.FriendOf(steamID))
      ensures friends.arr == old(friends.arr) || fresh(friends.arr)
    {
      hide Find, Remove;
      ghost var v := View(friends);
      for i := 0 to friends.len
        invariant friends == old(friends)
        invariant forall j | 0 <= j < i :: !Friends.FriendOf(steamID)(v[j])
      {
        var friend := friends.arr[friends.off + i];
        if friend.steamID == steamID {
          FirstAt(v, Friends.FriendOf(steamID), i);
          friends := RemoveAt(friends, i);
          return Some(friend);
        }
      }
      FirstAt(v, Friends.FriendOf(steamID), |v|);
      return None;
    }

    /** Nor does this. */
    method RemoveFriendRequest(id: uint16) returns (r: Option<Request>)
      requires Fits(requests)
      modifies this`requests
      ensures r == Find(old(View(requests)), Friends.RequestWith(id))
      ensures Fits(requests) && View(requests) == Remove(old(View(requests)), Friends.RequestWith(id))
      ensures requests.arr == old(requests.arr) || fresh(requests.arr)
    {
      hide Find, Remove;
      ghost var v := View(requests);
      for i := 0 to requests.len
        invariant requests == old(requests)
        invariant forall j | 0 <= j < i :: !Friends.RequestWith(id)(v[j])
      {
        var request := requests.arr[requests.off + i];
        if request.requestID == id {
          FirstAt(v, Friends.RequestWith(id), i);
          requests := RemoveAt(requests, i);
          return Some(request);
        }
      }
      FirstAt(v, Friends.RequestWith(id), |v|);
      return None;
    }

    method NextSocialID() returns (id: uint16)
      requires RecFits(Rec())
      ensures id == Friends.NextSocialID(SocialOf(Rec()))
    {
      hide Highest, Friends.SocialIds, SocialOf, RecFits;
      ghost var ids := Friends.SocialIds(SocialOf(Rec()));
      IdsShown(Rec());
      var highest: uint16 := 0;
      for i := 0 to friends.len
        invariant forall j | 0 <= j < i :: ids[j] <= highest
        invariant highest == 0 || highest in ids
      {
        var friend := View(friends)[i];
        if friend.friendID > highest {
          highest := friend.friendID;
          assert ids[i] == highest;
        }
      }
      for i := 0 to requests.len
        invariant forall j | 0 <= j < friends.len + i :: ids[j] <= highest
        invariant highest == 0 || highest in ids
      {
        var request := View(requests)[i];
        if request.requestID > highest {
          highest := request.requestID;
          assert ids[friends.len + i] == highest;
        }
      }
      HighestIs(ids, highest);
      id := (highest + 1) % 0x1_0000;
    }
  }

  // ----------------------------------------------------- memory repository

  // Every array has one owner, so writing one account's lists cannot change another's.
  type Lists = map<array<Friend>, string>
  type Inboxes = map<array<Request>, string>

  /** The arrays are the account's own, or nobody's. */
  ghost predicate Storable(ls: Lists, bs: Inboxes, id: string, r: SocialRec) {
    && (r.friends.arr in ls ==> ls[r.friends.arr] == id)
    && (r.requests.arr in bs ==> bs[r.requests.arr] == id)
  }

  ghost predicate Owned(ls: Lists, bs: Inboxes, id: string, r: SocialRec) {
    && r.friends.arr in ls && ls[r.friends.arr] == id
    && r.requests.arr in bs && bs[r.requests.arr] == id
  }

  /** The stored structs show exactly these accounts, and own their arrays. */
  ghost predicate Shows(players: map<string, SocialRec>, contents: Friends.Accounts, ls: Lists, bs: Inboxes)
    reads ls.Keys, bs.Keys
  {
    && players.Keys == contents.Keys
    && forall id | id in players ::
      Owned(ls, bs, id, players[id]) && RecFits(players[id]) && SocialOf(players[id]) == contents[id]
  }

  lemma ShowsPut(
    players: map<string, SocialRec>, contents: Friends.Accounts, ls: Lists, bs: Inboxes, id: string, r: SocialRec)
    requires Shows(players, contents, ls, bs) && RecFits(r) && Storable(ls, bs, id, r)
    ensures Shows(
      players[id := r], contents[id := SocialOf(r)], ls[r.friends.arr := id], bs[r.requests.arr := id])
  {
    hide SocialOf;
  }

  twostate lemma SameView<T>(s: Slice<T>)
    requires Fits(s) && s.arr[..] == old(s.arr[..])
    ensures View(s) == old(View(s))
  {
    assert s.arr[s.off..s.off + s.len] == s.arr[..][s.off..s.off + s.len];
  }

  twostate lemma SameSocial(r: SocialRec)
    requires RecFits(r)
    requires r.friends.arr[..] == old(r.friends.arr[..]) && r.requests.arr[..] == old(r.requests.arr[..])
    ensures SocialOf(r) == old(SocialOf(r))
  {
    SameView(r.friends);
    SameView(r.requests);
  }

  class MemoryPlayerRepository {
    var players: map<string, SocialRec>
    ghost var contents: Friends.Accounts
    ghost var lists: Lists
    ghost var inboxes: Inboxes

    constructor ()
      ensures Valid() && contents == map[] && lists == map[] && inboxes == map[]
    {
      players, contents, lists, inboxes := map[], map[], map[], map[];
    }

    ghost predicate Valid()
      reads this, lists.Keys, inboxes.Keys
    {
      Shows(players, contents, lists, inboxes)
    }

    /** What the caller of `Find` holds: the stored struct itself, arrays and all. */
    ghost predicate Found(id: string, r: SocialRec)
      reads this, r.friends.arr, r.requests.arr
    {
      && id in players && players[id] == r && Owned(lists, inboxes, id, r)
      && RecFits(r) && id in contents && contents[id] == SocialOf(r)
    }

    method Find(steamID: string) returns (r: Option<SocialRec>)
      requires Valid()
      ensures r.Some? <==> steamID in contents
      ensures r.Some? ==> Found(steamID, r.value)
    {
      r := if steamID in players then Some(players[steamID]) else None;
    }

    /** Some account of this name, whichever the map yields first. */
    method FindByName(name: string) returns (found: Option<string>)
      requires Valid()
      ensures found.Some? ==> found.value in contents && contents[found.value].name == name
      ensures found.None? ==> forall id | id in contents :: contents[id].name != name
    {
      var left := players.Keys;
      while left != {}
        invariant left <= players.Keys
        invariant forall id | id in players && id !in left :: contents[id].name != name
        decreases left
      {
        var id :| id in left;
        left := left - {id};
        if players[id].name == name {
          return Some(id);
        }
      }
      return None;
    }

    /** Writing where an account's own lists do not look changes nothing that is shown. */
    twostate lemma StillValid(id: string)
      requires old(Valid()) && id in players && unchanged(this) && RecFits(players[id])
      requires SocialOf(players[id]) == old(SocialOf(players[id]))
      requires forall a | a in lists && a != players[id].friends.arr :: a[..] == old(a[..])
      requires forall a | a in inboxes && a != players[id].requests.arr :: a[..] == old(a[..])
      ensures Valid()
    {
      hide SocialOf;
      forall other | other in players && other != id
        ensures SocialOf(players[other]) == contents[other]
      {
        SameSocial(players[other]);
      }
    }

    lemma Stored(id: string)
      requires Valid() && id in players
      ensures Found(id, players[id])
    {
    }

    /** A stored struct is replaced, or a new one stored. */
    method Put(id: string, r: SocialRec)
      requires Valid() && RecFits(r) && Storable(lists, inboxes, id, r)
      modifies this
      ensures Valid() && contents == old(contents)[id := SocialOf(r)]
      ensures lists == old(lists)[r.friends.arr := id] && inboxes == old(inboxes)[r.requests.arr := id]
    {
      hide Shows, SocialOf, RecFits, Storable;
      ShowsPut(players, contents, lists, inboxes, id, r);
      ghost var ls, bs := lists[r.friends.arr := id], inboxes[r.requests.arr := id];
      players, contents, lists, inboxes := players[id := r], contents[id := SocialOf(r)], ls, bs;
    }

    /** Nothing happens for an account that is gone. */
    method SaveSocial(steamID: string, friends: Slice<Friend>, requests: Slice<Request>)
      requires Valid() && Fits(friends) && Fits(requests)
      requires Storable(lists, inboxes, steamID, SocialRec("", friends, requests))
      modifies this
      ensures Valid()
      ensures forall name ::
        contents == Friends.Save(old(contents), steamID, Friends.Social(name, View(friends), View(requests)))
      ensures lists == old(lists) || lists == old(lists)[friends.arr := steamID]
      ensures inboxes == old(inboxes) || inboxes == old(inboxes)[requests.arr := steamID]
    {
      if steamID in players {
        Put(steamID, players[steamID].(friends := friends, requests := requests));
      }
    }
  }

  // ------------------------------------------------------------- services

  lemma SaveOver(w: Friends.Accounts, id: string, p: Social, q: Social, last: Social)
    ensures Friends.Save(Friends.Save(w, id, p), id, last) == Friends.Save(Friends.Save(w, id, q), id, last)
  {
  }

  class FriendService {
    const repo: MemoryPlayerRepository

    constructor (repo: MemoryPlayerRepository)
      ensures this.repo == repo
    {
      this.repo := repo;
    }

    method Save(steamID: string, p: Profile)
      requires repo.Valid() && RecFits(p.Rec()) && Storable(repo.lists, repo.inboxes, steamID, p.Rec())
      modifies repo
      ensures repo.Valid() && repo.contents == Friends.Save(old(repo.contents), steamID, SocialOf(p.Rec()))
      ensures repo.lists == old(repo.lists) || repo.lists == old(repo.lists)[p.friends.arr := steamID]
      ensures repo.inboxes == old(repo.inboxes) || repo.inboxes == old(repo.inboxes)[p.requests.arr := steamID]
    {
      hide Shows;
      repo.SaveSocial(steamID, p.friends, p.requests);
    }

    /** Appending may write the stored array, past what any stored account shows. */
    method AppendRequest(steamID: string, p: Profile, request: Request)
      requires repo.Valid() && repo.Found(steamID, p.Rec())
      modifies p`requests, p.requests.arr
      ensures repo.Valid() && RecFits(p.Rec())
      ensures SocialOf(p.Rec()) == old(SocialOf(p.Rec())).(requests := old(View(p.requests)) + [request])
      ensures p.requests.arr == old(p.requests.arr) || fresh(p.requests.arr)
    {
      hide Shows;
      p.requests := Append(p.requests, [request]);
      repo.StillValid(steamID);
    }

    method Enqueue(steamID: string, p: Profile, request: Request)
      requires repo.Valid() && repo.Found(steamID, p.Rec())
      modifies repo, p`requests, p.requests.arr
      ensures repo.Valid() && RecFits(p.Rec()) && steamID in repo.contents
      ensures SocialOf(p.Rec()) == old(SocialOf(p.Rec())).(requests := old(View(p.requests)) + [request])
      ensures repo.contents == Friends.Save(old(repo.contents), steamID, SocialOf(p.Rec()))
      ensures repo.contents[steamID] == SocialOf(p.Rec())
    {
      hide Shows;
      AppendRequest(steamID, p, request);
      Save(steamID, p);
    }

    /** The request, or the one that is pending; with either, the player asked, as now stored.
        `found` is the account the name stood for, when it came to looking. */
    method Request(sender: string, name: string)
      returns (r: Result<Request, Friends.Error>, player: Option<SocialRec>, ghost found: Option<string>)
      requires repo.Valid()
      modifies repo, repo.inboxes.Keys
      ensures repo.Valid()
      ensures sender in old(repo.contents) ==> var w, trimmed := old(repo.contents), Friends.TrimSpace(name);
        if found.Some? then found.value in w && w[found.value].name == trimmed
        else forall id | id in w :: w[id].name != trimmed
      ensures Friends.Reply(repo.contents, r) == Friends.Ask(old(repo.contents), sender, found)
      ensures player.Some? <==> r.Success? || r.error.RequestPending?
      ensures player.Some? ==> RecFits(player.value) && found.Some? && found.value in repo.contents
      ensures player.Some? ==> SocialOf(player.value) == repo.contents[found.value]
      ensures r.Failure? ==> unchanged(repo) && forall a | a in old(repo.inboxes) :: unchanged(a)
    {
      hide Shows, Seqs.Find, Friends.NextSocialID;
      player, found := None, None;
      var me := repo.Find(sender);
      if me.None? {
        return Failure(Friends.PlayerNotFound), player, found;
      }
      var named := repo.FindByName(Friends.TrimSpace(name));
      found := named;
      if named.None? {
        return Failure(Friends.FriendNotFound), player, found;
      }
      if named.value == sender {
        return Failure(Friends.FriendSelf), player, found;
      }
      var target := repo.Find(named.value);
      var p := new Profile(target.value);
      var already := p.IsFriendOf(sender);
      if already {
        return Failure(Friends.AlreadyFriends), player, found;
      }
      var pending := p.FriendRequestFrom(sender);
      if pending.Some? {
        return Failure(Friends.RequestPending(pending.value)), target, found;
      }
      var id := p.NextSocialID();
      var request := Friends.Request(id, sender);
      Enqueue(named.value, p, request);
      return Success(request), Some(p.Rec()), found;
    }

    /** Appending may write the stored array, past what any stored account shows. */
    method AppendFriend(steamID: string, p: Profile, friend: Friend)
      requires repo.Valid() && steamID in repo.players && p.friends == repo.players[steamID].friends && RecFits(p.Rec())
      modifies p`friends, p.friends.arr
      ensures repo.Valid() && Fits(p.friends) && View(p.friends) == old(View(p.friends)) + [friend]
      ensures p.friends.arr == old(p.friends.arr) || fresh(p.friends.arr)
    {
      hide Shows;
      repo.Stored(steamID);
      p.friends := Append(p.friends, [friend]);
      repo.StillValid(steamID);
    }

    /** Both entries appended. Should the two be one account, the second append may overwrite
        the first. */
    method AppendBoth(actorID: string, actor: Profile, mine: Friend, senderID: string, sender: Profile, theirs: Friend)
      requires repo.Valid() && actor != sender && RecFits(actor.Rec()) && repo.Found(senderID, sender.Rec())
      requires actorID in repo.players && actor.friends == repo.players[actorID].friends
      requires Storable(repo.lists, repo.inboxes, actorID, actor.Rec())
      modifies actor`friends, sender`friends, actor.friends.arr, sender.friends.arr
      ensures repo.Valid() && RecFits(actor.Rec()) && RecFits(sender.Rec())
      ensures Storable(repo.lists, repo.inboxes, actorID, actor.Rec())
      ensures Storable(repo.lists, repo.inboxes, senderID, sender.Rec())
      ensures actorID != senderID ==>
        actor.friends.arr != sender.friends.arr && actor.requests.arr != sender.requests.arr
      ensures View(actor.requests) == old(View(actor.requests)) && View(sender.requests) == old(View(sender.requests))
      ensures View(sender.friends) == old(View(sender.friends)) + [theirs]
      ensures actorID != senderID ==> View(actor.friends) == old(View(actor.friends)) + [mine]
    {
      hide Shows;
      repo.Stored(actorID);
      AppendFriend(actorID, actor, mine);
      repo.Stored(senderID);
      AppendFriend(senderID, sender, theirs);
    }

    method SaveBoth(actorID: string, actor: Profile, senderID: string, sender: Profile)
      requires repo.Valid() && RecFits(actor.Rec()) && RecFits(sender.Rec())
      requires Storable(repo.lists, repo.inboxes, actorID, actor.Rec())
      requires Storable(repo.lists, repo.inboxes, senderID, sender.Rec())
      requires actorID != senderID ==>
        actor.friends.arr != sender.friends.arr && actor.requests.arr != sender.requests.arr
      modifies repo
      ensures repo.Valid()
      ensures repo.contents == Friends.Save(
        Friends.Save(old(repo.contents), actorID, SocialOf(actor.Rec())), senderID, SocialOf(sender.Rec()))
    {
      hide Shows, SocialOf, Friends.Save;
      Save(actorID, actor);
      Save(senderID, sender);
    }

    /** Both accounts stored with their entries: for one and the same account, the second save
        overwrites whatever the first one stored. */
    method Befriend(actorID: string, actor: Profile, mine: Friend, senderID: string, sender: Profile, theirs: Friend)
      requires repo.Valid() && actor != sender && RecFits(actor.Rec()) && repo.Found(senderID, sender.Rec())
      requires actorID in repo.players && actor.friends == repo.players[actorID].friends
      requires Storable(repo.lists, repo.inboxes, actorID, actor.Rec())
      modifies repo, actor`friends, sender`friends, actor.friends.arr, sender.friends.arr
      ensures repo.Valid()
      ensures var me, them := old(SocialOf(actor.Rec())), old(SocialOf(sender.Rec()));
        repo.contents == Friends.Save(
          Friends.Save(old(repo.contents), actorID, me.(friends := me.friends + [mine])),
          senderID, them.(friends := them.friends + [theirs]))
    {
      hide Shows, Storable, Friends.Save;
      ghost var me := SocialOf(actor.Rec());
      AppendBoth(actorID, actor, mine, senderID, sender, theirs);
      ghost var now, them := SocialOf(actor.Rec()), SocialOf(sender.Rec());
      SaveBoth(actorID, actor, senderID, sender);
      if actorID == senderID {
        SaveOver(old(repo.contents), actorID, now, me.(friends := me.friends + [mine]), them);
      }
    }

    method Accept(actorID: string, requestID: uint16) returns (r: Result<Option<(Friend, Friend)>, Friends.Error>)
      requires repo.Valid()
      modifies repo, repo.lists.Keys
      ensures repo.Valid()
      ensures Friends.Reply(repo.contents, r) == Friends.Accept(old(repo.contents), actorID, requestID)
      ensures r.Failure? ==> unchanged(repo) && forall a | a in old(repo.lists) :: unchanged(a)
    {
      hide Shows, Seqs.Find, Remove, Friends.NextSocialID;
      var me := repo.Find(actorID);
      if me.None? {
        return Failure(Friends.PlayerNotFound);
      }
      var actor := new Profile(me.value);
      var request := actor.RemoveFriendRequest(requestID);
      if request.None? {
        return Failure(Friends.RequestNotFound);
      }
      var them := repo.Find(request.value.steamID);
      if them.None? {
        Save(actorID, actor);
        return Success(None);
      }
      var sender := new Profile(them.value);
      var id := sender.NextSocialID();
      var mine, theirs := Friends.Friend(requestID, request.value.steamID), Friends.Friend(id, actorID);
      Befriend(actorID, actor, mine, request.value.steamID, sender, theirs);
      return Success(Some((mine, theirs)));
    }

    /** Touches no array at all. */
    method Reject(actorID: string, requestID: uint16) returns (r: Result<Request, Friends.Error>)
      requires repo.Valid()
      modifies repo
      ensures repo.Valid()
      ensures Friends.Reply(repo.contents, r) == Friends.Reject(old(repo.contents), actorID, requestID)
      ensures r.Failure? ==> unchanged(repo)
    {
      hide Shows, Seqs.Find, Remove;
      var me := repo.Find(actorID);
      if me.None? {
        return Failure(Friends.PlayerNotFound);
      }
      var actor := new Profile(me.value);
      var request := actor.RemoveFriendRequest(requestID);
      if request.None? {
        return Failure(Friends.RequestNotFound);
      }
      Save(actorID, actor);
      return Success(request.value);
    }

    /** The mirrored entry goes too, when the other account is there and has one. */
    method Unlist(steamID: string, actorID: string) returns (mirrored: Option<Friend>)
      requires repo.Valid()
      modifies repo
      ensures repo.Valid()
      ensures var w := old(repo.contents);
        mirrored == (if steamID in w then Find(w[steamID].friends, Friends.FriendOf(actorID)) else None)
      ensures var w := old(repo.contents);
        repo.contents ==
          if mirrored.None? then w
          else Friends.Save(w, steamID,
            w[steamID].(friends := Remove(w[steamID].friends, Friends.FriendOf(actorID))))
    {
      hide Shows, Seqs.Find, Remove;
      var them := repo.Find(steamID);
      if them.None? {
        return None;
      }
      var other := new Profile(them.value);
      mirrored := other.RemoveFriendOf(actorID);
      if mirrored.Some? {
        Save(steamID, other);
      }
    }

    /** Touches no array at all. */
    method Delete(actorID: string, friendID: uint16) returns (r: Result<(Friend, Option<Friend>), Friends.Error>)
      requires repo.Valid()
      modifies repo
      ensures repo.Valid()
      ensures Friends.Reply(repo.contents, r) == Friends.Delete(old(repo.contents), actorID, friendID)
      ensures r.Failure? ==> unchanged(repo)
    {
      hide Shows, Seqs.Find, Remove;
      var me := repo.Find(actorID);
      if me.None? {
        return Failure(Friends.PlayerNotFound);
      }
      var actor := new Profile(me.value);
      var friend := actor.RemoveFriend(friendID);
      if friend.None? {
        return Failure(Friends.FriendListMissing);
      }
      Save(actorID, actor);
      var mirrored := Unlist(friend.value.steamID, actorID);
      return Success((friend.value, mirrored));
    }

    method InviteTarget(actorID: string, friendID: uint16) returns (r: Result<(string, uint16), Friends.Error>)
      requires repo.Valid()
      ensures r == Friends.InviteTarget(repo.contents, actorID, friendID)
    {
      hide Shows, Seqs.Find;
      var me := repo.Find(actorID);
      if me.None? {
        return Failure(Friends.PlayerNotFound);
      }
      var actor := new Profile(me.value);
      var friend := actor.Friend(friendID);
      if friend.None? {
        return Failure(Friends.FriendListMissing);
      }
      var them := repo.Find(friend.value.steamID);
      if them.None? {
        return Failure(Friends.PlayerNotFound);
      }
      var target := new Profile(them.value);
      var mirrored := target.FriendEntryFor(actorID);
      if mirrored.None? {
        return Failure(Friends.FriendListMissing);
      }
      return Success((friend.value.steamID, mirrored.value.friendID));
    }
  }
}
