/** How an account runs out of numbers: a run that two players can bring about with one more. */
module FriendNumbers {
  import opened Bytes
  import opened Wrappers
  import opened Seqs
  import opened IdNumbers
  import opened Friends

  const NOBODY: Accounts := map[]

  function Target(): string { "t" }

  predicate IsAsker(name: string) { name == "a" || name == "b" || name == "z" }

  /** Four accounts, one of them with these requests. */
  function Asked(requests: seq<Friends.Request>): Accounts {
    map["t" := Social("t", [], requests), "a" := Social("a", [], []),
        "b" := Social("b", [], []), "z" := Social("z", [], [])]
  }

  lemma AskedIs(requests: seq<Friends.Request>, after: seq<Friends.Request>)
    ensures Target() in Asked(requests) && Asked(requests)[Target()] == Social(Target(), [], requests)
    ensures forall name | IsAsker(name) :: name in Asked(requests) && name != Target()
    ensures Asked(requests)[Target() := Social(Target(), [], after)] == Asked(after)
  {
  }

  lemma RunSnoc(ops: seq<Op>, op: Op)
    ensures Run(NOBODY, ops + [op]) == Apply(Run(NOBODY, ops), op)
    ensures AllLegal(NOBODY, ops) && Legal(Run(NOBODY, ops), op) ==> AllLegal(NOBODY, ops + [op])
  {
    assert (ops + [op])[..|ops|] == ops;
    hide Apply, Legal;
  }

  lemma RegisterStep(ops: seq<Op>, name: string) returns (ops': seq<Op>)
    requires AllLegal(NOBODY, ops) && name !in Run(NOBODY, ops)
    ensures AllLegal(NOBODY, ops') && Run(NOBODY, ops') == Run(NOBODY, ops)[name := Social(name, [], [])]
  {
    ops' := ops + [Register(name, name)];
    RunSnoc(ops, Register(name, name));
    hide AllLegal;
  }

  lemma FourAccounts() returns (ops: seq<Op>)
    ensures AllLegal(NOBODY, ops) && Run(NOBODY, ops) == Asked([])
  {
    ops := RegisterStep([], "t");
    ops := RegisterStep(ops, "a");
    ops := RegisterStep(ops, "b");
    ops := RegisterStep(ops, "z");
    hide Run, AllLegal;
  }

  function Question(name: string): Op {
    SendRequest(name, Target(), Some(Target()))
  }

  lemma NoneFrom(requests: seq<Friends.Request>, name: string)
    requires forall r | r in requests :: r.steamID != name
    ensures Find(requests, RequestFrom(name)).None?
  {
    forall i | 0 <= i < |requests| ensures !RequestFrom(name)(requests[i]) {
      assert requests[i] in requests;
    }
  }

  /** A new request takes one past the highest number. */
  lemma AskStep(requests: seq<Friends.Request>, name: string, id: uint16)
    requires IsAsker(name) && forall r | r in requests :: r.steamID != name
    requires NextSocialID(Social(Target(), [], requests)) == id
    ensures Apply(Asked(requests), Question(name)) == Asked(requests + [Friends.Request(id, name)])
  {
    NoneFrom(requests, name);
    AskedIs(requests, requests + [Friends.Request(id, name)]);
    hide Asked, NextSocialID, Target, IsAsker, RequestFrom, FriendWith;
  }

  lemma AskLegal(requests: seq<Friends.Request>, name: string)
    requires IdsLeft(Social(Target(), [], requests))
    ensures Legal(Asked(requests), Question(name))
  {
    assert TrimSpace(Target()) == Target();
    AskedIs(requests, requests);
    hide Asked, IdsLeft, Target, IsAsker, TrimSpace;
  }

  lemma RejectStep(id: uint16, name: string, rest: seq<Friends.Request>)
    ensures Apply(Asked([Friends.Request(id, name)] + rest), RejectRequest(Target(), id)) == Asked(rest)
  {
    var requests := [Friends.Request(id, name)] + rest;
    assert IndexOf(requests, RequestWith(id)) == 0 && Without(requests, 0) == rest;
    AskedIs(requests, rest);
    hide Asked, Target, IsAsker;
  }

  lemma OneRequest(id: uint16, name: string)
    requires 1 <= id
    ensures NextSocialID(Social(Target(), [], [Friends.Request(id, name)])) == (id + 1) % 0x1_0000
    ensures IdsLeft(Social(Target(), [], [Friends.Request(id, name)]))
  {
    var p := Social(Target(), [], [Friends.Request(id, name)]);
    assert SocialIds(p) == [id];
    HighestIs(SocialIds(p), id);
  }

  lemma FirstAsk() returns (ops: seq<Op>)
    ensures AllLegal(NOBODY, ops) && Run(NOBODY, ops) == Asked([Friends.Request(1, "a")])
  {
    var before := FourAccounts();
    assert SocialIds(Social(Target(), [], [])) == [];
    HighestIs([], 0);
    AskStep([], "a", 1);
    AskLegal([], "a");
    assert [] + [Friends.Request(1, "a")] == [Friends.Request(1, "a")];
    ops := before + [Question("a")];
    RunSnoc(before, Question("a"));
    hide Run, AllLegal, Apply, Legal, Asked;
  }

  lemma SecondAsk(ops: seq<Op>, id: uint16, other: string, name: string) returns (ops': seq<Op>)
    requires AllLegal(NOBODY, ops) && Run(NOBODY, ops) == Asked([Friends.Request(id, other)])
    requires 1 <= id && IsAsker(name) && name != other
    ensures AllLegal(NOBODY, ops')
    ensures Run(NOBODY, ops') == Asked([Friends.Request(id, other)] + [Friends.Request((id + 1) % 0x1_0000, name)])
  {
    OneRequest(id, other);
    AskStep([Friends.Request(id, other)], name, (id + 1) % 0x1_0000);
    AskLegal([Friends.Request(id, other)], name);
    RunSnoc(ops, Question(name));
    ops' := ops + [Question(name)];
    hide *;
  }

  lemma RejectLegal(w: Accounts, id: uint16)
    ensures Legal(w, RejectRequest(Target(), id))
  {
  }

  /** One player asks behind the other, whose request is then rejected. */
  lemma Turn(ops: seq<Op>, id: uint16, other: string, name: string) returns (ops': seq<Op>)
    requires AllLegal(NOBODY, ops) && Run(NOBODY, ops) == Asked([Friends.Request(id, other)])
    requires 1 <= id < 0xFFFF && IsAsker(name) && name != other
    ensures AllLegal(NOBODY, ops') && Run(NOBODY, ops') == Asked([Friends.Request(id + 1, name)])
  {
    hide *;
    var asked := SecondAsk(ops, id, other, name);
    var reject := RejectRequest(Target(), id);
    RejectLegal(Run(NOBODY, asked), id);
    RejectStep(id, other, [Friends.Request(id + 1, name)]);
    RunSnoc(asked, reject);
    ops' := asked + [reject];
  }

  lemma {:induction false} Climb(id: uint16) returns (ops: seq<Op>, name: string)
    requires 1 <= id
    ensures AllLegal(NOBODY, ops) && name in {"a", "b"} && Run(NOBODY, ops) == Asked([Friends.Request(id, name)])
  {
    if id == 1 {
      name := "a";
      ops := FirstAsk();
    } else {
      var other;
      ops, other := Climb(id - 1);
      name := Other(other);
      OtherAsker(other);
      ops := Turn(ops, id - 1, other, name);
    }
    hide Run, AllLegal, Asked;
  }

  /** Three requests, the last two under one number. */
  function Collision(first: string, second: string, number: uint16): seq<Friends.Request> {
    [Friends.Request(0xFFFF, first), Friends.Request(number, second), Friends.Request(number, "z")]
  }

  /** So a run does reach an account that uses both 65535 and 0, and there the next request is
      given a number that is already on the list. */
  lemma NumbersRunOut() returns (ops: seq<Op>, first: string, second: string)
    ensures AllLegal(NOBODY, ops) && first != second && second != "z"
    ensures |Collision(first, second, 0)| == 3 && Run(NOBODY, ops) == Asked(Collision(first, second, 0)[..2])
    ensures !IdsLeft(Social(Target(), [], Collision(first, second, 0)[..2]))
    ensures Apply(Run(NOBODY, ops), Question("z")) == Asked(Collision(first, second, 0))
  {
    hide *;
    var before;
    before, first := Climb(0xFFFF);
    second := Other(first);
    OtherAsker(first);
    ops := SecondAsk(before, 0xFFFF, first, second);
    UsedUp(first, second);
  }

  function Other(name: string): string {
    if name == "a" then "b" else "a"
  }

  lemma OtherAsker(name: string)
    requires name in {"a", "b"}
    ensures IsAsker(Other(name)) && Other(name) in {"a", "b"} && Other(name) != name && Other(name) != "z"
  {
  }

  lemma UsedUp(first: string, second: string)
    requires first in {"a", "b"} && second in {"a", "b"}
    ensures |Collision(first, second, 0)| == 3
    ensures var requests := Collision(first, second, 0)[..2];
      && [Friends.Request(0xFFFF, first)] + [Friends.Request(0, second)] == requests
      && !IdsLeft(Social(Target(), [], requests))
      && Apply(Asked(requests), Question("z")) == Asked(Collision(first, second, 0))
  {
    var requests := Collision(first, second, 0)[..2];
    var p := Social(Target(), [], requests);
    assert SocialIds(p) == [0xFFFF, 0];
    HighestIs(SocialIds(p), 0xFFFF);
    AskStep(requests, "z", 0);
    assert requests + [Friends.Request(0, "z")] == Collision(first, second, 0);
    hide Apply, Asked;
  }
}
