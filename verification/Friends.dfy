/** Friend lists and requests: what each call of the friend service does to the accounts, and
    what every run keeps. */
module Friends {
  import opened Bytes
  import opened Wrappers
  import opened Seqs
  import opened IdNumbers

  datatype Friend = Friend(friendID: uint16, steamID: string)

  datatype Request = Request(requestID: uint16, steamID: string)

  datatype Social = Social(name: string, friends: seq<Friend>, requests: seq<Request>)

  type Accounts = map<string, Social>

  datatype Error =
    | PlayerNotFound | FriendNotFound | FriendSelf | AlreadyFriends
    | RequestPending(pending: Request) | RequestNotFound | FriendListMissing

  function FriendWith(id: uint16): Friend -> bool { (f: Friend) => f.friendID == id }

  function FriendOf(steamID: string): Friend -> bool { (f: Friend) => f.steamID == steamID }

  function RequestWith(id: uint16): Request -> bool { (r: Request) => r.requestID == id }

  function RequestFrom(steamID: string): Request -> bool { (r: Request) => r.steamID == steamID }

  function SocialIds(p: Social): seq<uint16> {
    seq(|p.friends|, i requires 0 <= i < |p.friends| => p.friends[i].friendID)
    + seq(|p.requests|, i requires 0 <= i < |p.requests| => p.requests[i].requestID)
  }

  function NextSocialID(p: Social): uint16 {
    OnePast(SocialIds(p))
  }

  /** `SaveSocial`: nothing happens for an account that is gone. */
  function Save(w: Accounts, steamID: string, p: Social): Accounts {
    if steamID in w then w[steamID := w[steamID].(friends := p.friends, requests := p.requests)] else w
  }

  /** Unicode white space. */
  predicate IsSpace(c: char) {
    var n := c as int;
    9 <= n <= 13 || n == 0x20 || n == 0x85 || n == 0xA0 || n == 0x1680 || 0x2000 <= n <= 0x200A
    || n == 0x2028 || n == 0x2029 || n == 0x202F || n == 0x205F || n == 0x3000
  }

  function TrimLeft(s: string): string {
    if s != [] && IsSpace(s[0]) then TrimLeft(s[1..]) else s
  }

  function TrimRight(s: string): string {
    if s != [] && IsSpace(s[|s| - 1]) then TrimRight(s[..|s| - 1]) else s
  }

  /** `strings.TrimSpace`: what a request's name is looked up by. */
  function TrimSpace(s: string): string {
    TrimRight(TrimLeft(s))
  }

  lemma {:induction false} TrimLeftIs(s: string) returns (i: nat)
    ensures i <= |s| && TrimLeft(s) == s[i..] && (i == |s| || !IsSpace(s[i])) && forall k | 0 <= k < i :: IsSpace(s[k])
  {
    if s != [] && IsSpace(s[0]) {
      i := TrimLeftIs(s[1..]);
      assert s[1..][i..] == s[i + 1..];
      assert forall k | 1 <= k < i + 1 :: s[k] == s[1..][k - 1];
      i := i + 1;
    } else {
      i := 0;
    }
  }

  lemma {:induction false} TrimRightIs(s: string) returns (j: nat)
    ensures j <= |s| && TrimRight(s) == s[..j]
    ensures (j == 0 || !IsSpace(s[j - 1])) && forall k | j <= k < |s| :: IsSpace(s[k])
  {
    if s != [] && IsSpace(s[|s| - 1]) {
      j := TrimRightIs(s[..|s| - 1]);
      assert s[..|s| - 1][..j] == s[..j];
    } else {
      j := |s|;
    }
  }

  /** What is left begins and ends with no space, and everything around it was space. */
  lemma TrimSpaceIs(s: string) returns (i: nat, j: nat)
    ensures i <= j <= |s| && TrimSpace(s) == s[i..j]
    ensures i < j ==> !IsSpace(s[i]) && !IsSpace(s[j - 1])
    ensures forall k | 0 <= k < i || j <= k < |s| :: IsSpace(s[k])
  {
    i := TrimLeftIs(s);
    var rest := TrimRightIs(s[i..]);
    j := i + rest;
    assert s[i..][..rest] == s[i..j];
    forall k | j <= k < |s| ensures IsSpace(s[k]) {
      assert s[k] == s[i..][k - i];
    }
    if i < j {
      assert s[j - 1] == s[i..][rest - 1];
    }
  }

  /** An account the name may stand for: which of several is found follows map order. */
  predicate Named(w: Accounts, name: string, found: Option<string>) {
    match found
    case Some(id) => id in w && w[id].name == name
    case None => forall id | id in w :: w[id].name != name
  }

  /** A call's answer, and the accounts after it. */
  datatype Reply<T> = Reply(accounts: Accounts, answer: Result<T, Error>)

  /** `SendRequest`, once the name has been looked up. */
  function Ask(w: Accounts, sender: string, found: Option<string>): Reply<Request> {
    if sender !in w then Reply(w, Failure(PlayerNotFound))
    else if found.None? || found.value !in w then Reply(w, Failure(FriendNotFound))
    else if found.value == sender then Reply(w, Failure(FriendSelf))
    else
      var target := w[found.value];
      if Find(target.friends, FriendOf(sender)).Some? then Reply(w, Failure(AlreadyFriends))
      else match Find(target.requests, RequestFrom(sender))
        case Some(pending) => Reply(w, Failure(RequestPending(pending)))
        case None =>
          var r := Request(NextSocialID(target), sender);
          Reply(Save(w, found.value, target.(requests := target.requests + [r])), Success(r))
  }

  /** Both entries, or none when the sender's account is gone: then only the request goes. */
  function Accept(w: Accounts, actor: string, id: uint16): Reply<Option<(Friend, Friend)>> {
    if actor !in w then Reply(w, Failure(PlayerNotFound))
    else match Find(w[actor].requests, RequestWith(id))
      case None => Reply(w, Failure(RequestNotFound))
      case Some(r) =>
        var me := w[actor].(requests := Remove(w[actor].requests, RequestWith(id)));
        if r.steamID !in w then Reply(Save(w, actor, me), Success(None))
        else
          var sender := w[r.steamID];
          var mine, theirs := Friend(id, r.steamID), Friend(NextSocialID(sender), actor);
          var saved := Save(w, actor, me.(friends := me.friends + [mine]));
          Reply(Save(saved, r.steamID, sender.(friends := sender.friends + [theirs])), Success(Some((mine, theirs))))
  }

  function Reject(w: Accounts, actor: string, id: uint16): Reply<Request> {
    if actor !in w then Reply(w, Failure(PlayerNotFound))
    else match Find(w[actor].requests, RequestWith(id))
      case None => Reply(w, Failure(RequestNotFound))
      case Some(r) => Reply(Save(w, actor, w[actor].(requests := Remove(w[actor].requests, RequestWith(id)))),
          Success(r))
  }

  /** The friend, and the mirrored entry when there was one. */
  function Delete(w: Accounts, actor: string, id: uint16): Reply<(Friend, Option<Friend>)> {
    if actor !in w then Reply(w, Failure(PlayerNotFound))
    else match Find(w[actor].friends, FriendWith(id))
      case None => Reply(w, Failure(FriendListMissing))
      case Some(f) =>
        var saved := Save(w, actor, w[actor].(friends := Remove(w[actor].friends, FriendWith(id))));
        if f.steamID !in saved then Reply(saved, Success((f, None)))
        else
          var other := saved[f.steamID];
          match Find(other.friends, FriendOf(actor))
          case None => Reply(saved, Success((f, None)))
          case Some(mirrored) =>
            Reply(Save(saved, f.steamID, other.(friends := Remove(other.friends, FriendOf(actor)))),
                Success((f, Some(mirrored))))
  }

  /** Who is invited, and the ID the inviter goes by on that list. */
  function InviteTarget(w: Accounts, actor: string, id: uint16): Result<(string, uint16), Error> {
    if actor !in w then Failure(PlayerNotFound)
    else match Find(w[actor].friends, FriendWith(id))
      case None => Failure(FriendListMissing)
      case Some(f) =>
        if f.steamID !in w then Failure(PlayerNotFound)
        else match Find(w[f.steamID].friends, FriendOf(actor))
          case None => Failure(FriendListMissing)
          case Some(mirrored) => Success((f.steamID, mirrored.friendID))
  }

  datatype Op =
    | SendRequest(sender: string, name: string, found: Option<string>)
    | AcceptRequest(actor: string, id: uint16)
    | RejectRequest(actor: string, id: uint16)
    | DeleteFriend(actor: string, id: uint16)
    | Register(steamID: string, name: string)
    | Rename(steamID: string, name: string)

  function Apply(w: Accounts, op: Op): Accounts {
    match op
    case SendRequest(sender, _, found) => Ask(w, sender, found).accounts
    case AcceptRequest(actor, id) => Accept(w, actor, id).accounts
    case RejectRequest(actor, id) => Reject(w, actor, id).accounts
    case DeleteFriend(actor, id) => Delete(w, actor, id).accounts
    case Register(steamID, name) => if steamID in w then w else w[steamID := Social(name, [], [])]
    case Rename(steamID, name) => if steamID in w then w[steamID := w[steamID].(name := name)] else w
  }

  // ------------------------------------------------------------ invariant

  function Count(fs: seq<Friend>, steamID: string): nat {
    if fs == [] then 0
    else Count(fs[..|fs| - 1], steamID) + if fs[|fs| - 1].steamID == steamID then 1 else 0
  }

  /** How often one account lists the other. */
  function Listed(w: Accounts, a: string, b: string): nat {
    if a in w then Count(w[a].friends, b) else 0
  }

  /** Nobody lists or asks himself, everybody asking exists, and no number is used twice. */
  predicate ProfileOk(known: set<string>, a: string, p: Social) {
    && Distinct(SocialIds(p))
    && (forall f | f in p.friends :: f.steamID != a)
    && (forall r | r in p.requests :: r.steamID != a && r.steamID in known)
  }

  ghost predicate Symmetric(w: Accounts) {
    forall a, b :: Listed(w, a, b) == Listed(w, b, a)
  }

  ghost predicate WorldOk(w: Accounts) {
    Symmetric(w) && ProfilesOk(w)
  }

  /** A number past the highest can be handed out: not both ends of the range are in use. */
  predicate IdsLeft(p: Social) {
    !(0xFFFF in SocialIds(p) && 0 in SocialIds(p))
  }

  predicate Legal(w: Accounts, op: Op) {
    match op
    case SendRequest(_, name, found) => Named(w, TrimSpace(name), found) && (found.Some? ==> IdsLeft(w[found.value]))
    case AcceptRequest(actor, id) =>
      actor in w ==> (match Find(w[actor].requests, RequestWith(id))
        case None => true
        case Some(r) => r.steamID in w ==> IdsLeft(w[r.steamID]))
    case _ => true
  }

  // ------------------------------------------------------------ list lemmas

  lemma CountSnoc(fs: seq<Friend>, f: Friend, steamID: string)
    ensures Count(fs + [f], steamID) == Count(fs, steamID) + if f.steamID == steamID then 1 else 0
  {
    assert (fs + [f])[..|fs|] == fs;
  }

  lemma {:induction false} CountPositive(fs: seq<Friend>, steamID: string)
    ensures Count(fs, steamID) > 0 <==> Find(fs, FriendOf(steamID)).Some?
    ensures Count(fs, steamID) > 0 <==> exists f | f in fs :: f.steamID == steamID
  {
    if fs != [] {
      var rest := fs[..|fs| - 1];
      assert fs == rest + [fs[|fs| - 1]];
      CountPositive(rest, steamID);
      var i := IndexOf(fs, FriendOf(steamID));
      if i < |fs| {
        assert fs[i] in fs && fs[i].steamID == steamID;
      }
      if f :| f in fs && f.steamID == steamID {
        var k :| 0 <= k < |fs| && fs[k] == f;
        assert FriendOf(steamID)(fs[k]);
      }
    }
  }

  lemma {:induction false} CountWithout(fs: seq<Friend>, i: nat, steamID: string)
    requires i < |fs|
    ensures Count(Without(fs, i), steamID) == Count(fs, steamID) - if fs[i].steamID == steamID then 1 else 0
  {
    var n := |fs| - 1;
    assert fs == fs[..n] + [fs[n]];
    if i == n {
      assert Without(fs, i) == fs[..n];
    } else {
      CountWithout(fs[..n], i, steamID);
      assert Without(fs, i) == Without(fs[..n], i) + [fs[n]];
      CountSnoc(Without(fs[..n], i), fs[n], steamID);
    }
  }

  lemma IdsOfFriends(p: Social)
    ensures |SocialIds(p)| == |p.friends| + |p.requests|
    ensures forall i | 0 <= i < |p.friends| :: SocialIds(p)[i] == p.friends[i].friendID
    ensures forall i | 0 <= i < |p.requests| :: SocialIds(p)[|p.friends| + i] == p.requests[i].requestID
  {
  }

  lemma RequestsAppend(known: set<string>, a: string, p: Social, r: Request)
    requires ProfileOk(known, a, p) && r.requestID !in SocialIds(p) && r.steamID != a && r.steamID in known
    ensures ProfileOk(known, a, p.(requests := p.requests + [r]))
  {
    assert SocialIds(p.(requests := p.requests + [r])) == SocialIds(p) + [r.requestID];
  }

  lemma FriendsAppend(known: set<string>, a: string, p: Social, f: Friend)
    requires ProfileOk(known, a, p) && f.friendID !in SocialIds(p) && f.steamID != a
    ensures ProfileOk(known, a, p.(friends := p.friends + [f]))
  {
    var n, ids := |p.friends|, SocialIds(p);
    assert SocialIds(p.(friends := p.friends + [f])) == ids[..n] + [f.friendID] + ids[n..];
  }

  lemma RequestsWithout(known: set<string>, a: string, p: Social, i: nat)
    requires ProfileOk(known, a, p) && i < |p.requests|
    ensures var p' := p.(requests := Without(p.requests, i));
      ProfileOk(known, a, p') && p.requests[i].requestID !in SocialIds(p')
  {
    var k := |p.friends| + i;
    DistinctWithout(SocialIds(p), k);
    assert SocialIds(p.(requests := Without(p.requests, i))) == Without(SocialIds(p), k);
    forall r | r in Without(p.requests, i) ensures r in p.requests {
      WithoutKeeps(p.requests, i, r);
    }
  }

  lemma FriendsWithout(known: set<string>, a: string, p: Social, i: nat)
    requires ProfileOk(known, a, p) && i < |p.friends|
    ensures ProfileOk(known, a, p.(friends := Without(p.friends, i)))
  {
    DistinctWithout(SocialIds(p), i);
    assert SocialIds(p.(friends := Without(p.friends, i))) == Without(SocialIds(p), i);
    forall f | f in Without(p.friends, i) ensures f in p.friends {
      WithoutKeeps(p.friends, i, f);
    }
  }

  // -------------------------------------------------------- what calls keep

  ghost predicate ProfilesOk(w: Accounts) {
    forall a | a in w :: ProfileOk(w.Keys, a, w[a])
  }

  lemma SaveOk(w: Accounts, a: string, p: Social)
    requires ProfilesOk(w) && a in w && p.name == w[a].name && ProfileOk(w.Keys, a, p)
    ensures Save(w, a, p) == w[a := p] && Save(w, a, p).Keys == w.Keys && ProfilesOk(Save(w, a, p))
  {
    hide ProfileOk;
    assert w[a := p].Keys == w.Keys;
  }

  /** The pair's two counts move together and no other count moves. */
  ghost predicate Moved(w: Accounts, w': Accounts, a: string, b: string, delta: int) {
    forall x, y :: Listed(w', x, y) == Listed(w, x, y) + if (x == a && y == b) || (x == b && y == a) then delta else 0
  }

  lemma MovedSymmetric(w: Accounts, w': Accounts, a: string, b: string, delta: int)
    requires Symmetric(w) && Moved(w, w', a, b, delta)
    ensures Symmetric(w')
  {
    hide Listed;
  }

  lemma AskOk(w: Accounts, sender: string, found: Option<string>)
    requires WorldOk(w) && (found.Some? && found.value in w ==> IdsLeft(w[found.value]))
    ensures WorldOk(Ask(w, sender, found).accounts)
  {
    var reply := Ask(w, sender, found);
    if reply.answer.Success? {
      var target, r := w[found.value], reply.answer.value;
      OnePastFresh(SocialIds(target));
      RequestsAppend(w.Keys, found.value, target, r);
      SaveOk(w, found.value, target.(requests := target.requests + [r]));
      MovedSymmetric(w, reply.accounts, sender, sender, 0);
    }
    hide SocialIds, Count, ProfileOk;
  }

  /** Asking again changes nothing and gives the same request, as the one that is pending. */
  lemma AskAgain(w: Accounts, sender: string, found: Option<string>)
    requires Ask(w, sender, found).answer.Success?
    ensures var reply := Ask(w, sender, found);
      Ask(reply.accounts, sender, found) == Reply(reply.accounts, Failure(RequestPending(reply.answer.value)))
  {
    hide NextSocialID, IndexOf;
    var target, r := w[found.value], Ask(w, sender, found).answer.value;
    FirstAppended(target.requests, r, RequestFrom(sender));
  }

  lemma FirstAppended<T>(s: seq<T>, x: T, p: T -> bool)
    requires IndexOf(s, p) == |s| && p(x)
    ensures IndexOf(s + [x], p) == |s|
  {
    var i := IndexOf(s + [x], p);
    assert (s + [x])[|s|] == x;
    if i < |s| {
      assert !p(s[i]);
    }
  }

  lemma RejectOk(w: Accounts, actor: string, id: uint16)
    requires WorldOk(w)
    ensures WorldOk(Reject(w, actor, id).accounts)
  {
    var reply := Reject(w, actor, id);
    if reply.answer.Success? {
      var i := IndexOf(w[actor].requests, RequestWith(id));
      RequestsWithout(w.Keys, actor, w[actor], i);
      SaveOk(w, actor, w[actor].(requests := Without(w[actor].requests, i)));
      MovedSymmetric(w, reply.accounts, actor, actor, 0);
    }
    hide SocialIds, Count, ProfileOk;
  }

  /** One entry more on each side: crossed requests may add a second pair, and stay paired. */
  lemma AcceptOk(w: Accounts, actor: string, id: uint16)
    requires WorldOk(w) && Legal(w, AcceptRequest(actor, id))
    ensures WorldOk(Accept(w, actor, id).accounts)
  {
    if Accept(w, actor, id).answer.Success? {
      var i := IndexOf(w[actor].requests, RequestWith(id));
      var r := w[actor].requests[i];
      assert r in w[actor].requests;
      RequestsWithout(w.Keys, actor, w[actor], i);
      OnePastFresh(SocialIds(w[r.steamID]));
      Befriend(w, actor, w[actor].(requests := Without(w[actor].requests, i)), id, r.steamID,
          NextSocialID(w[r.steamID]));
    }
  }

  lemma Befriend(w: Accounts, a: string, me: Social, id: uint16, b: string, theirs: uint16)
    requires WorldOk(w) && a in w && b in w && a != b
    requires ProfileOk(w.Keys, a, me) && me.name == w[a].name && me.friends == w[a].friends && id !in SocialIds(me)
    requires theirs !in SocialIds(w[b])
    ensures var mine, other := me.(friends := me.friends + [Friend(id, b)]),
        w[b].(friends := w[b].friends + [Friend(theirs, a)]);
      WorldOk(Save(Save(w, a, mine), b, other))
  {
    var mine, other := me.(friends := me.friends + [Friend(id, b)]),
        w[b].(friends := w[b].friends + [Friend(theirs, a)]);
    FriendsAppend(w.Keys, a, me, Friend(id, b));
    FriendsAppend(w.Keys, b, w[b], Friend(theirs, a));
    SaveOk(w, a, mine);
    SaveOk(w[a := mine], b, other);
    var w' := w[a := mine][b := other];
    hide SocialIds, ProfileOk, Save;
    forall x, y
      ensures Listed(w', x, y) == Listed(w, x, y) + if (x == a && y == b) || (x == b && y == a) then 1 else 0
    {
      CountSnoc(me.friends, Friend(id, b), y);
      CountSnoc(w[b].friends, Friend(theirs, a), y);
    }
    MovedSymmetric(w, w', a, b, 1);
  }

  /** The mirrored entry goes too: there is one, by symmetry. */
  lemma DeleteOk(w: Accounts, actor: string, id: uint16)
    requires WorldOk(w)
    ensures WorldOk(Delete(w, actor, id).accounts)
  {
    if Delete(w, actor, id).answer.Success? {
      var i := IndexOf(w[actor].friends, FriendWith(id));
      var f := w[actor].friends[i];
      Mirrored(w, actor, f);
      Part(w, actor, i, f.steamID, IndexOf(w[f.steamID].friends, FriendOf(actor)));
      FriendsWithout(w.Keys, actor, w[actor], i);
      SaveOk(w, actor, w[actor].(friends := Without(w[actor].friends, i)));
      hide WorldOk, ProfilesOk, ProfileOk;
    }
  }

  /** A listed friend exists, is somebody else, and lists one back. */
  lemma Mirrored(w: Accounts, a: string, f: Friend)
    requires WorldOk(w) && a in w && f in w[a].friends
    ensures f.steamID in w && f.steamID != a && Find(w[f.steamID].friends, FriendOf(a)).Some?
  {
    CountPositive(w[a].friends, f.steamID);
    assert Listed(w, a, f.steamID) == Listed(w, f.steamID, a);
    CountPositive(w[f.steamID].friends, a);
  }

  lemma PartMoved(w: Accounts, a: string, i: nat, b: string, j: nat)
    requires a in w && b in w && a != b && i < |w[a].friends| && j < |w[b].friends|
    requires w[a].friends[i].steamID == b && w[b].friends[j].steamID == a
    ensures var mine, other := w[a].(friends := Without(w[a].friends, i)), w[b].(friends := Without(w[b].friends, j));
      Moved(w, w[a := mine][b := other], a, b, -1)
  {
    hide Without, Count;
    var mine, other := w[a].(friends := Without(w[a].friends, i)), w[b].(friends := Without(w[b].friends, j));
    var w' := w[a := mine][b := other];
    forall x, y
      ensures Listed(w', x, y) == Listed(w, x, y) + if (x == a && y == b) || (x == b && y == a) then -1 else 0
    {
      CountWithout(w[a].friends, i, y);
      CountWithout(w[b].friends, j, y);
    }
  }

  lemma Part(w: Accounts, a: string, i: nat, b: string, j: nat)
    requires WorldOk(w) && a in w && b in w && a != b && i < |w[a].friends| && j < |w[b].friends|
    requires w[a].friends[i].steamID == b && w[b].friends[j].steamID == a
    ensures var mine, other := w[a].(friends := Without(w[a].friends, i)), w[b].(friends := Without(w[b].friends, j));
      WorldOk(Save(Save(w, a, mine), b, other))
  {
    var mine, other := w[a].(friends := Without(w[a].friends, i)), w[b].(friends := Without(w[b].friends, j));
    hide SocialIds, ProfileOk, Without, Moved;
    FriendsWithout(w.Keys, a, w[a], i);
    FriendsWithout(w.Keys, b, w[b], j);
    SaveOk(w, a, mine);
    SaveOk(w[a := mine], b, other);
    PartMoved(w, a, i, b, j);
    MovedSymmetric(w, w[a := mine][b := other], a, b, -1);
  }

  lemma StepOk(w: Accounts, op: Op)
    requires WorldOk(w) && Legal(w, op)
    ensures WorldOk(Apply(w, op))
  {
    match op
    case SendRequest(sender, _, found) => AskOk(w, sender, found);
    case AcceptRequest(actor, id) => AcceptOk(w, actor, id);
    case RejectRequest(actor, id) => RejectOk(w, actor, id);
    case DeleteFriend(actor, id) => DeleteOk(w, actor, id);
    case Register(steamID, name) => AccountOk(w, op, steamID);
    case Rename(steamID, name) => AccountOk(w, op, steamID);
  }

  lemma AccountOk(w: Accounts, op: Op, steamID: string)
    requires WorldOk(w) && (op.Register? || op.Rename?)
    ensures WorldOk(Apply(w, op))
  {
    var w' := Apply(w, op);
    MovedSymmetric(w, w', steamID, steamID, 0);
    forall a | a in w' ensures ProfileOk(w'.Keys, a, w'[a]) {
      if a in w {
        assert w'[a].friends == w[a].friends && w'[a].requests == w[a].requests;
        assert SocialIds(w'[a]) == SocialIds(w[a]);
      }
    }
  }

  function Run(w: Accounts, ops: seq<Op>): Accounts {
    if ops == [] then w else Apply(Run(w, ops[..|ops| - 1]), ops[|ops| - 1])
  }

  ghost predicate AllLegal(w: Accounts, ops: seq<Op>) {
    ops == [] || (AllLegal(w, ops[..|ops| - 1]) && Legal(Run(w, ops[..|ops| - 1]), ops[|ops| - 1]))
  }

  /** After any run: any two accounts list each other equally often, nobody lists or asks
      himself, and the numbers of an account are all different. */
  lemma {:induction false} RunOk(ops: seq<Op>)
    requires AllLegal(map[], ops)
    ensures var w := Run(map[], ops);
      && WorldOk(w)
      && (forall a, b :: Listed(w, a, b) == Listed(w, b, a))
      && (forall a | a in w :: Listed(w, a, a) == 0 && (forall r | r in w[a].requests :: r.steamID != a))
      && (forall a | a in w :: Distinct(SocialIds(w[a])))
  {
    if ops != [] {
      RunOk(ops[..|ops| - 1]);
      StepOk(Run(map[], ops[..|ops| - 1]), ops[|ops| - 1]);
    }
    var w := Run(map[], ops);
    forall a | a in w ensures Listed(w, a, a) == 0 {
      assert ProfileOk(w.Keys, a, w[a]);
      CountPositive(w[a].friends, a);
    }
  }

  /** Inviting any listed friend works, and the number handed over is the inviter's own on
      the friend's list. */
  lemma InviteResolves(w: Accounts, actor: string, f: Friend)
    requires WorldOk(w) && actor in w && f in w[actor].friends
    ensures var r := InviteTarget(w, actor, f.friendID);
      && r.Success? && r.value.0 == f.steamID && f.steamID in w
      && Find(w[f.steamID].friends, FriendWith(r.value.1)) == Some(Friend(r.value.1, actor))
  {
    Mirrored(w, actor, f);
    FriendByID(w, actor, f);
    var other := w[f.steamID];
    var mirrored := other.friends[IndexOf(other.friends, FriendOf(actor))];
    FriendByID(w, f.steamID, mirrored);
  }

  lemma FriendByID(w: Accounts, a: string, f: Friend)
    requires WorldOk(w) && a in w && f in w[a].friends
    ensures Find(w[a].friends, FriendWith(f.friendID)) == Some(f)
  {
    var fs, ids := w[a].friends, SocialIds(w[a]);
    var i, k := IndexOf(fs, FriendWith(f.friendID)), IndexOf(fs, x => x == f);
    assert fs[k] == f by {
      var j :| 0 <= j < |fs| && fs[j] == f;
    }
    assert FriendWith(f.friendID)(fs[k]);
    assert ids[i] == fs[i].friendID && ids[k] == fs[k].friendID;
  }

  /** A number is reused exactly when both ends of the range are in use. */
  lemma SocialIDFresh(p: Social)
    ensures NextSocialID(p) !in SocialIds(p) <==> IdsLeft(p)
  {
    OnePastFresh(SocialIds(p));
  }
}
