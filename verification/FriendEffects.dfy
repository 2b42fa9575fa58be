/** What each friend call answers and leaves behind, entry by entry. */
module FriendEffects {
  import opened Bytes
  import opened Wrappers
  import opened Seqs
  import opened IdNumbers
  import opened Friends

  /** The request that an ID stands for: the first of that number. */
  predicate RequestAt(p: Social, i: nat, id: uint16) {
    i < |p.requests| && p.requests[i].requestID == id && forall j | 0 <= j < i :: p.requests[j].requestID != id
  }

  predicate FriendAt(p: Social, i: nat, id: uint16) {
    i < |p.friends| && p.friends[i].friendID == id && forall j | 0 <= j < i :: p.friends[j].friendID != id
  }

  /** The first entry for a player. */
  predicate EntryAt(p: Social, i: nat, steamID: string) {
    i < |p.friends| && p.friends[i].steamID == steamID && forall j | 0 <= j < i :: p.friends[j].steamID != steamID
  }

  /** No number of the account is higher, and it is in use unless it is zero. */
  predicate HighestOf(p: Social, highest: uint16) {
    && (forall f | f in p.friends :: f.friendID <= highest)
    && (forall r | r in p.requests :: r.requestID <= highest)
    && (highest == 0 || (exists f :: f in p.friends && f.friendID == highest)
        || exists r :: r in p.requests && r.requestID == highest)
  }

  lemma NextIs(p: Social, highest: uint16)
    requires HighestOf(p, highest)
    ensures NextSocialID(p) == (highest + 1) % 65536
  {
    var ids := SocialIds(p);
    IdsOfFriends(p);
    hide SocialIds;
    forall k | 0 <= k < |ids| ensures ids[k] <= highest {
      if k < |p.friends| {
        assert p.friends[k] in p.friends;
      } else {
        assert ids[|p.friends| + (k - |p.friends|)] == p.requests[k - |p.friends|].requestID;
        assert p.requests[k - |p.friends|] in p.requests;
      }
    }
    if i :| 0 <= i < |p.friends| && p.friends[i].friendID == highest {
      assert ids[i] == highest;
    } else if i :| 0 <= i < |p.requests| && p.requests[i].requestID == highest {
      assert ids[|p.friends| + i] == highest;
    }
    HighestIs(ids, highest);
  }

  lemma RequestIs(p: Social, i: nat, id: uint16)
    requires RequestAt(p, i, id)
    ensures Find(p.requests, RequestWith(id)) == Some(p.requests[i])
    ensures Remove(p.requests, RequestWith(id)) == p.requests[..i] + p.requests[i + 1..]
  {
    FirstAt(p.requests, RequestWith(id), i);
  }

  lemma FriendIs(p: Social, i: nat, id: uint16)
    requires FriendAt(p, i, id)
    ensures Find(p.friends, FriendWith(id)) == Some(p.friends[i])
    ensures Remove(p.friends, FriendWith(id)) == p.friends[..i] + p.friends[i + 1..]
  {
    FirstAt(p.friends, FriendWith(id), i);
  }

  lemma EntryIs(p: Social, i: nat, steamID: string)
    requires EntryAt(p, i, steamID)
    ensures Find(p.friends, FriendOf(steamID)) == Some(p.friends[i])
    ensures Remove(p.friends, FriendOf(steamID)) == p.friends[..i] + p.friends[i + 1..]
  {
    FirstAt(p.friends, FriendOf(steamID), i);
  }

  lemma NoneListed<T>(s: seq<T>, p: T -> bool)
    requires forall x | x in s :: !p(x)
    ensures Find(s, p) == None
  {
    FirstAt(s, p, |s|);
  }

  // ------------------------------------------------------------- asking

  /** Who may ask whom, and the request that then goes to the end of the other's list. */
  lemma AskEffect(w: Accounts, sender: string, found: Option<string>, highest: uint16)
    requires found.Some? && found.value in w ==> HighestOf(w[found.value], highest)
    ensures Ask(w, sender, found) ==
      if sender !in w then Reply(w, Failure(PlayerNotFound))
      else if found.None? || found.value !in w then Reply(w, Failure(FriendNotFound))
      else if found.value == sender then Reply(w, Failure(FriendSelf))
      else
        var p := w[found.value];
        if exists f :: f in p.friends && f.steamID == sender then Reply(w, Failure(AlreadyFriends))
        else if exists r :: r in p.requests && r.steamID == sender then
          Reply(w, Failure(RequestPending(Pending(p.requests, sender))))
        else
          var r := Request((highest + 1) % 65536, sender);
          Reply(w[found.value := Social(p.name, p.friends, p.requests + [r])], Success(r))
  {
    if found.Some? && found.value in w {
      var p := w[found.value];
      NextIs(p, highest);
      ListedOrNot(p, sender);
      hide NextSocialID, Find;
    }
  }

  /** The first request of a player. */
  function Pending(requests: seq<Request>, steamID: string): Request
    requires exists r :: r in requests && r.steamID == steamID
  {
    if requests[0].steamID == steamID then requests[0] else Pending(requests[1..], steamID)
  }

  lemma {:induction false} PendingIs(requests: seq<Request>, steamID: string)
    requires exists r :: r in requests && r.steamID == steamID
    ensures Find(requests, RequestFrom(steamID)) == Some(Pending(requests, steamID))
  {
    if requests[0].steamID != steamID {
      PendingIs(requests[1..], steamID);
    }
  }

  lemma ListedOrNot(p: Social, steamID: string)
    ensures Find(p.friends, FriendOf(steamID)).Some? <==> exists f :: f in p.friends && f.steamID == steamID
    ensures Find(p.requests, RequestFrom(steamID)).Some? <==> exists r :: r in p.requests && r.steamID == steamID
    ensures (exists r :: r in p.requests && r.steamID == steamID) ==>
      Find(p.requests, RequestFrom(steamID)).value == Pending(p.requests, steamID)
  {
    if exists r :: r in p.requests && r.steamID == steamID {
      PendingIs(p.requests, steamID);
    } else {
      NoneListed(p.requests, RequestFrom(steamID));
    }
    var i := IndexOf(p.friends, FriendOf(steamID));
    if i < |p.friends| {
      assert p.friends[i] in p.friends;
    } else {
      forall f | f in p.friends ensures f.steamID != steamID {
        var k :| 0 <= k < |p.friends| && p.friends[k] == f;
        assert !FriendOf(steamID)(p.friends[k]);
      }
    }
  }

  // -------------------------------------------------- accepting, rejecting

  lemma NoRequest(w: Accounts, actor: string, id: uint16)
    requires actor !in w || forall r | r in w[actor].requests :: r.requestID != id
    ensures var e := if actor !in w then PlayerNotFound else RequestNotFound;
      Accept(w, actor, id) == Reply(w, Failure(e)) && Reject(w, actor, id) == Reply(w, Failure(e))
  {
    if actor in w {
      NoneListed(w[actor].requests, RequestWith(id));
    }
  }

  /** Accepting makes friends: the request goes, its number is the new friend's on the actor's
      list, and the sender's list gets the actor under a number of its own. */
  lemma AcceptEffect(w: Accounts, actor: string, id: uint16, i: nat, highest: uint16)
    requires actor in w && RequestAt(w[actor], i, id)
    requires var sender := w[actor].requests[i].steamID; sender in w ==> HighestOf(w[sender], highest)
    ensures var me, sender := w[actor], w[actor].requests[i].steamID;
      var rest := me.requests[..i] + me.requests[i + 1..];
      Accept(w, actor, id) ==
        if sender !in w then Reply(w[actor := Social(me.name, me.friends, rest)], Success(None))
        else
          var them, mine, theirs := w[sender], Friend(id, sender), Friend((highest + 1) % 65536, actor);
          Reply(
            w[actor := Social(me.name, me.friends + [mine], rest)]
             [sender := Social(them.name, them.friends + [theirs], them.requests)],
            Success(Some((mine, theirs))))
  {
    RequestIs(w[actor], i, id);
    var sender := w[actor].requests[i].steamID;
    if sender in w {
      NextIs(w[sender], highest);
    }
    hide Find, Remove, NextSocialID;
  }

  /** Rejecting takes the request away and nothing else. */
  lemma RejectEffect(w: Accounts, actor: string, id: uint16, i: nat)
    requires actor in w && RequestAt(w[actor], i, id)
    ensures var me := w[actor];
      Reject(w, actor, id) == Reply(
        w[actor := Social(me.name, me.friends, me.requests[..i] + me.requests[i + 1..])], Success(me.requests[i]))
  {
    RequestIs(w[actor], i, id);
    hide Find, Remove;
  }

  /** In counts: the two list each other once more, and nobody else's count moves. */
  lemma AcceptCounts(w: Accounts, actor: string, id: uint16, i: nat, a: string, b: string)
    requires WorldOk(w) && actor in w && RequestAt(w[actor], i, id)
    ensures var sender := w[actor].requests[i].steamID;
      sender in w && sender != actor && Listed(Accept(w, actor, id).accounts, a, b) ==
        Listed(w, a, b) + if (a, b) == (actor, sender) || (a, b) == (sender, actor) then 1 else 0
  {
    hide WorldOk, Listed, Accept, HighestOf;
    var me, sender := w[actor], w[actor].requests[i].steamID;
    AsksOthers(w, actor, i);
    var rest := me.requests[..i] + me.requests[i + 1..];
    var them := w[sender];
    var highest := HighestIn(them);
    var next: uint16 := (highest as int + 1) % 65536;
    AcceptEffect(w, actor, id, i, highest);
    PairCounts(w, actor, Social(me.name, me.friends + [Friend(id, sender)], rest),
      sender, Social(them.name, them.friends + [Friend(next, actor)], them.requests), a, b);
    CountSnoc(me.friends, Friend(id, sender), b);
    CountSnoc(them.friends, Friend(next, actor), b);
  }

  lemma AsksOthers(w: Accounts, actor: string, i: nat)
    requires WorldOk(w) && actor in w && i < |w[actor].requests|
    ensures w[actor].requests[i].steamID != actor && w[actor].requests[i].steamID in w
  {
    assert ProfileOk(w.Keys, actor, w[actor]) && w[actor].requests[i] in w[actor].requests;
  }

  /** Replacing two accounts moves their own counts alone. */
  lemma PairCounts(w: Accounts, a: string, p: Social, b: string, q: Social, x: string, y: string)
    requires a in w && b in w
    ensures Listed(w[a := p][b := q], x, y) ==
      if x == b then Count(q.friends, y) else if x == a then Count(p.friends, y) else Listed(w, x, y)
    ensures x in w ==> Listed(w, x, y) == Count(w[x].friends, y)
  {
    hide Count;
  }

  lemma HighestIn(p: Social) returns (highest: uint16)
    ensures HighestOf(p, highest)
  {
    var ids := SocialIds(p);
    highest := Highest(ids);
    IdsOfFriends(p);
    hide SocialIds, Highest;
    forall f | f in p.friends ensures f.friendID <= highest {
      var k :| 0 <= k < |p.friends| && p.friends[k] == f;
      assert ids[k] in ids;
    }
    forall r | r in p.requests ensures r.requestID <= highest {
      var k :| 0 <= k < |p.requests| && p.requests[k] == r;
      assert ids[|p.friends| + k] in ids;
    }
    if highest != 0 {
      var k :| 0 <= k < |ids| && ids[k] == highest;
      if k < |p.friends| {
        assert p.friends[k] in p.friends;
      } else {
        assert ids[|p.friends| + (k - |p.friends|)] == p.requests[k - |p.friends|].requestID;
        assert p.requests[k - |p.friends|] in p.requests;
      }
    }
  }

  // ------------------------------------------------------------ deleting

  lemma NoFriend(w: Accounts, actor: string, id: uint16)
    requires actor !in w || forall f | f in w[actor].friends :: f.friendID != id
    ensures var e := if actor !in w then PlayerNotFound else FriendListMissing;
      Delete(w, actor, id) == Reply(w, Failure(e)) && InviteTarget(w, actor, id) == Failure(e)
  {
    if actor in w {
      NoneListed(w[actor].friends, FriendWith(id));
    }
  }

  /** The accounts once the actor's own entry is gone. */
  function Unlisted(w: Accounts, actor: string, i: nat): Accounts
    requires actor in w && i < |w[actor].friends|
  {
    var me := w[actor];
    w[actor := Social(me.name, me.friends[..i] + me.friends[i + 1..], me.requests)]
  }

  /** The entry goes, and the first entry for the actor on the other's list with it. */
  lemma DeleteEffect(w: Accounts, actor: string, id: uint16, i: nat, j: nat)
    requires actor in w && FriendAt(w[actor], i, id)
    requires var left, other := Unlisted(w, actor, i), w[actor].friends[i].steamID;
      other in left && EntryAt(left[other], j, actor)
    ensures var left, other := Unlisted(w, actor, i), w[actor].friends[i].steamID;
      var them := left[other];
      Delete(w, actor, id) == Reply(
        left[other := Social(them.name, them.friends[..j] + them.friends[j + 1..], them.requests)],
        Success((w[actor].friends[i], Some(them.friends[j]))))
  {
    FriendIs(w[actor], i, id);
    EntryIs(Unlisted(w, actor, i)[w[actor].friends[i].steamID], j, actor);
    hide Find, Remove;
  }

  /** Without such an account or such an entry only the actor's own entry goes. */
  lemma DeleteAlone(w: Accounts, actor: string, id: uint16, i: nat)
    requires actor in w && FriendAt(w[actor], i, id)
    requires var left, other := Unlisted(w, actor, i), w[actor].friends[i].steamID;
      other in left ==> forall f | f in left[other].friends :: f.steamID != actor
    ensures Delete(w, actor, id) == Reply(Unlisted(w, actor, i), Success((w[actor].friends[i], None)))
  {
    FriendIs(w[actor], i, id);
    var left, other := Unlisted(w, actor, i), w[actor].friends[i].steamID;
    if other in left {
      NoneListed(left[other].friends, FriendOf(actor));
    }
    hide Find, Remove;
  }

  /** In counts: each lists the other once less, and nobody else's count moves. */
  lemma DeleteCounts(w: Accounts, actor: string, id: uint16, i: nat, a: string, b: string)
    requires WorldOk(w) && actor in w && FriendAt(w[actor], i, id)
    ensures var other := w[actor].friends[i].steamID;
      other != actor && Listed(Delete(w, actor, id).accounts, a, b) ==
        Listed(w, a, b) - if (a, b) == (actor, other) || (a, b) == (other, actor) then 1 else 0
  {
    hide WorldOk, Listed, Delete, Count;
    var me, other := w[actor], w[actor].friends[i].steamID;
    Mirrored(w, actor, me.friends[i]);
    var them, j := w[other], IndexOf(w[other].friends, FriendOf(actor));
    assert forall x | 0 <= x < j :: !FriendOf(actor)(them.friends[x]);
    DeleteEffect(w, actor, id, i, j);
    PairCounts(w, actor, Social(me.name, me.friends[..i] + me.friends[i + 1..], me.requests),
      other, Social(them.name, them.friends[..j] + them.friends[j + 1..], them.requests), a, b);
    CutCount(me.friends, i, b);
    CutCount(them.friends, j, b);
  }

  lemma CutCount(fs: seq<Friend>, i: nat, steamID: string)
    requires i < |fs|
    ensures Count(fs[..i] + fs[i + 1..], steamID) == Count(fs, steamID) - if fs[i].steamID == steamID then 1 else 0
  {
    CountWithout(fs, i, steamID);
    assert Without(fs, i) == fs[..i] + fs[i + 1..];
  }

  /** An invitation goes to the friend under that number, and tells him the actor's first number
      on his own list. */
  lemma InviteEffect(w: Accounts, actor: string, id: uint16, i: nat)
    requires actor in w && FriendAt(w[actor], i, id)
    ensures var other := w[actor].friends[i].steamID;
      && (other !in w ==> InviteTarget(w, actor, id) == Failure(PlayerNotFound))
      && (other in w && (forall f | f in w[other].friends :: f.steamID != actor) ==>
            InviteTarget(w, actor, id) == Failure(FriendListMissing))
      && (other in w ==> forall j: nat | EntryAt(w[other], j, actor) ::
            InviteTarget(w, actor, id) == Success((other, w[other].friends[j].friendID)))
  {
    FriendIs(w[actor], i, id);
    var other := w[actor].friends[i].steamID;
    hide Find;
    if other in w {
      if forall f | f in w[other].friends :: f.steamID != actor {
        NoneListed(w[other].friends, FriendOf(actor));
      }
      forall j: nat | EntryAt(w[other], j, actor)
        ensures Find(w[other].friends, FriendOf(actor)) == Some(w[other].friends[j])
      {
        EntryIs(w[other], j, actor);
      }
    }
  }

  /** What counts as white space around a name. */
  lemma SpaceIs(c: char)
    ensures IsSpace(c) <==>
      c in {'\t', '\n', '\U{000B}', '\U{000C}', '\r', ' ', '\U{0085}', '\U{00A0}', '\U{1680}', '\U{2028}', '\U{2029}',
            '\U{202F}', '\U{205F}', '\U{3000}'} || '\U{2000}' <= c <= '\U{200A}'
  {
  }
}
