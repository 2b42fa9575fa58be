/** How a clan runs out of numbers: a run that two players can bring about on their own. */
module ClanNumbers {
  import opened Bytes
  import opened Seqs
  import opened IdNumbers
  import opened ClanModel
  import opened ClanInvariant
  import opened ClanRuns

  const CLAN: string := "c"

  /** Somebody outside any clan. */
  function Outsider(name: string): Actor {
    Actor(name, name, 1, "")
  }

  function Application(id: uint16, name: string): Applicant {
    Applicant(id, name, name, 1)
  }

  /** One clan, with its founder and this queue. */
  function WithQueue(queue: seq<Applicant>): World {
    World(map[CLAN := Founded("m", "m", CLAN).(applicants := queue)], map[])
  }

  function NumberAfter(queue: seq<Applicant>): uint16 {
    OnePast(Ids(WithQueue(queue).clans[CLAN]))
  }

  lemma RunGrows(run: seq<World>, ops: seq<Op>, op: Op)
    requires IsRun(run, ops) && Legal(run[|ops|], op)
    ensures |run| == |ops| + 1 && IsRun(run + [Apply(run[|ops|], op)], ops + [op])
  {
    hide Apply, Legal;
  }

  /** A new player's request takes one past the highest number. */
  lemma RequestStep(queue: seq<Applicant>, name: string, id: uint16)
    requires name != "m" && forall q | q in queue :: q.steamID != name
    requires NumberAfter(queue) == id
    ensures Apply(WithQueue(queue), RequestJoin(Outsider(name), CLAN)) == WithQueue(queue + [Application(id, name)])
  {
    NotFound(WithQueue(queue).clans[CLAN], name);
  }

  /** The first in the queue withdraws. */
  lemma CancelStep(id: uint16, name: string, rest: seq<Applicant>)
    ensures var w := WithQueue([Application(id, name)] + rest);
      Legal(w, Cancel(Outsider(name), CLAN)) && Apply(w, Cancel(Outsider(name), CLAN)) == WithQueue(rest)
  {
    var queue := [Application(id, name)] + rest;
    assert IndexOf(queue, ApplicantOf(name)) == 0 && IndexOf(queue, ApplicantWith(id)) == 0;
    assert Without(queue, 0) == rest;
  }

  lemma QueueNumbers(id: uint16, name: string)
    requires 2 <= id
    ensures NumberAfter([Application(id, name)]) == (id + 1) % 0x1_0000
    ensures IdsLeft(WithQueue([Application(id, name)]).clans[CLAN])
  {
    var c := WithQueue([Application(id, name)]).clans[CLAN];
    assert Ids(c) == [1, id];
    HighestIs(Ids(c), id);
    IdsAreIDs(c, 0);
  }

  lemma FirstRequest() returns (run: seq<World>, ops: seq<Op>)
    ensures IsRun(run, ops) && run[|ops|] == WithQueue([Application(2, "a")])
  {
    var found, ask := Create("m", "m", CLAN), RequestJoin(Outsider("a"), CLAN);
    var first := WithQueue([]);
    assert Apply(EMPTY, found) == first;
    assert Ids(first.clans[CLAN]) == [1];
    HighestIs(Ids(first.clans[CLAN]), 1);
    IdsAreIDs(first.clans[CLAN], 0);
    RequestStep([], "a", 2);
    assert [] + [Application(2, "a")] == [Application(2, "a")];
    run, ops := [EMPTY, first, WithQueue([Application(2, "a")])], [found, ask];
  }

  lemma RequestLegal(id: uint16, other: string, name: string)
    requires 2 <= id
    ensures Legal(WithQueue([Application(id, other)]), RequestJoin(Outsider(name), CLAN))
    ensures NumberAfter([Application(id, other)]) == (id + 1) % 0x1_0000
  {
    QueueNumbers(id, other);
    hide IdsLeft, OnePast, Ids;
  }

  lemma OnlyQueued(id: uint16, other: string, name: string)
    requires name != other
    ensures forall q | q in [Application(id, other)] :: q.steamID != name
  {
  }

  lemma TurnSteps(id: uint16, other: string, name: string)
    requires 2 <= id < 0xFFFF && name != "m" && name != other
    ensures var w, ask := WithQueue([Application(id, other)]), RequestJoin(Outsider(name), CLAN);
      var withdraw, both := Cancel(Outsider(other), CLAN),
          WithQueue([Application(id, other), Application(id + 1, name)]);
      && Legal(w, ask) && Apply(w, ask) == both
      && Legal(both, withdraw) && Apply(both, withdraw) == WithQueue([Application(id + 1, name)])
  {
    hide *;
    RequestLegal(id, other, name);
    OnlyQueued(id, other, name);
    RequestStep([Application(id, other)], name, id + 1);
    CancelStep(id, other, [Application(id + 1, name)]);
    assert [Application(id, other)] + [Application(id + 1, name)]
        == [Application(id, other), Application(id + 1, name)];
  }

  /** One player requests behind the other, who then withdraws. */
  lemma Turn(run: seq<World>, ops: seq<Op>, id: uint16, other: string, name: string)
    returns (run': seq<World>, ops': seq<Op>)
    requires IsRun(run, ops) && run[|ops|] == WithQueue([Application(id, other)])
    requires 2 <= id < 0xFFFF && name != "m" && name != other
    ensures IsRun(run', ops') && run'[|ops'|] == WithQueue([Application(id + 1, name)])
  {
    hide *;
    var ask, withdraw := RequestJoin(Outsider(name), CLAN), Cancel(Outsider(other), CLAN);
    TurnSteps(id, other, name);
    RunGrows(run, ops, ask);
    run', ops' := run + [Apply(run[|ops|], ask)], ops + [ask];
    RunGrows(run', ops', withdraw);
    run', ops' := run' + [Apply(run'[|ops'|], withdraw)], ops' + [withdraw];
  }

  /** Two players who request and withdraw in turn bring the queue to any number. */
  lemma {:induction false} Climb(id: uint16) returns (run: seq<World>, ops: seq<Op>, name: string)
    requires 2 <= id
    ensures IsRun(run, ops) && name in {"a", "b"} && run[|ops|] == WithQueue([Application(id, name)])
  {
    if id == 2 {
      name := "a";
      run, ops := FirstRequest();
    } else {
      var other;
      run, ops, other := Climb(id - 1);
      name := if other == "a" then "b" else "a";
      run, ops := Turn(run, ops, id - 1, other, name);
    }
  }

  /** So a run does reach a clan that uses both 65535 and 0, and there the next request is given
      a number that is already in the queue. */
  lemma NumbersRunOut() returns (run: seq<World>, ops: seq<Op>)
    ensures IsRun(run, ops) && CLAN in run[|ops|].clans && !IdsLeft(run[|ops|].clans[CLAN])
    ensures var queue := Apply(run[|ops|], RequestJoin(Outsider("z"), CLAN)).clans[CLAN].applicants;
      |queue| == 3 && queue[1].applicantID == queue[2].applicantID && queue[1].steamID != queue[2].steamID
  {
    var first;
    run, ops, first := Climb(0xFFFF);
    var second := if first == "a" then "b" else "a";
    var queue, ask := [Application(0xFFFF, first), Application(0, second)], RequestJoin(Outsider(second), CLAN);
    QueueNumbers(0xFFFF, first);
    RequestStep([Application(0xFFFF, first)], second, 0);
    hide Apply, Legal, IdsLeft;
    assert [Application(0xFFFF, first)] + [Application(0, second)] == queue;
    RunGrows(run, ops, ask);
    run, ops := run + [Apply(run[|ops|], ask)], ops + [ask];
    UsedUp(first, second);
  }

  lemma UsedUp(first: string, second: string)
    requires first in {"a", "b"} && second in {"a", "b"}
    ensures var w := WithQueue([Application(0xFFFF, first), Application(0, second)]);
      && !IdsLeft(w.clans[CLAN])
      && Apply(w, RequestJoin(Outsider("z"), CLAN))
         == WithQueue([Application(0xFFFF, first), Application(0, second), Application(0, "z")])
  {
    var queue := [Application(0xFFFF, first), Application(0, second)];
    var c := WithQueue(queue).clans[CLAN];
    assert queue[0] in c.applicants && queue[1] in c.applicants;
    assert Ids(c) == [1, 0xFFFF, 0];
    HighestIs(Ids(c), 0xFFFF);
    RequestStep(queue, "z", 0);
    assert queue + [Application(0, "z")] == [queue[0], queue[1], Application(0, "z")];
  }
}
