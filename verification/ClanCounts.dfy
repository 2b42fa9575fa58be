/** The member-count row that goes out to the clients. */
module ClanCounts {
  import opened Bytes
  import opened ClanModel
  import opened ClanInvariant
  import opened ClanRuns

  datatype Counts = Counts(currentTotal: uint8, managers: uint8, members: uint8, associates: uint8, capacity: uint8)

  function Clamp(value: nat): uint8 {
    if value > 0xFF then 0xFF else value
  }

  function IncrementByte(value: uint8): uint8 {
    if value == 0xFF then value else value + 1
  }

  function CountRank(ms: seq<Member>, rank: uint8): (n: nat)
    ensures n <= |ms|
  {
    if ms == [] then 0
    else CountRank(ms[..|ms| - 1], rank) + if ms[|ms| - 1].rank == rank then 1 else 0
  }

  function CountsOf(c: Clan): Counts {
    var total := Clamp(|c.members|);
    Counts(
      total,
      Clamp(CountRank(c.members, RANK_MANAGER)),
      Clamp(CountRank(c.members, RANK_MEMBER)),
      Clamp(CountRank(c.members, RANK_ASSOCIATE)),
      if total > Capacity(c) then total else Capacity(c))
  }

  lemma {:induction false} CountIsSize(ms: seq<Member>, rank: uint8)
    ensures CountRank(ms, rank) == |set i | 0 <= i < |ms| && ms[i].rank == rank|
  {
    if ms != [] {
      var n := |ms| - 1;
      CountIsSize(ms[..n], rank);
      PlacesGrow(ms, rank);
    }
  }

  lemma PlacesGrow(ms: seq<Member>, rank: uint8)
    requires ms != []
    ensures var n := |ms| - 1;
      |set i | 0 <= i < |ms| && ms[i].rank == rank|
      == |set i | 0 <= i < n && ms[..n][i].rank == rank| + if ms[n].rank == rank then 1 else 0
  {
    var n := |ms| - 1;
    var before, all := set i | 0 <= i < n && ms[..n][i].rank == rank, set i | 0 <= i < |ms| && ms[i].rank == rank;
    assert all == if ms[n].rank == rank then before + {n} else before;
  }

  /** The row in numbers: members, ranks 2, 8 and 9, each up to 255, and a capacity that is 50 when
      none is stored and never below the total. */
  lemma RowIs(c: Clan)
    ensures var size := (rank: uint8) => |set i | 0 <= i < |c.members| && c.members[i].rank == rank|;
      var cut := (n: int) => if n > 255 then 255 else n;
      var total, capacity := cut(|c.members|), if c.memberCapacity == 0 then 50 else c.memberCapacity;
      var row := CountsOf(c);
      && row.currentTotal == total && row.managers == cut(size(2)) && row.members == cut(size(8))
      && row.associates == cut(size(9)) && row.capacity == if total > capacity then total else capacity
  {
    CountIsSize(c.members, 2);
    CountIsSize(c.members, 8);
    CountIsSize(c.members, 9);
    hide CountRank;
  }

  method MakeClanMemberCounts(c: Clan) returns (counts: Counts)
    ensures counts == CountsOf(c)
  {
    var managers: uint8, members: uint8, associates: uint8 := 0, 0, 0;
    for i := 0 to |c.members|
      invariant managers == Clamp(CountRank(c.members[..i], RANK_MANAGER))
      invariant members == Clamp(CountRank(c.members[..i], RANK_MEMBER))
      invariant associates == Clamp(CountRank(c.members[..i], RANK_ASSOCIATE))
    {
      assert c.members[..i + 1][..i] == c.members[..i];
      var rank := c.members[i].rank;
      if rank == RANK_MANAGER {
        managers := IncrementByte(managers);
      } else if rank == RANK_MEMBER {
        members := IncrementByte(members);
      } else if rank == RANK_ASSOCIATE {
        associates := IncrementByte(associates);
      }
    }
    assert c.members[..|c.members|] == c.members;
    var capacity := if c.memberCapacity == 0 then DEFAULT_CAPACITY else c.memberCapacity;
    var total := Clamp(|c.members|);
    if total > capacity {
      capacity := total;
    }
    counts := Counts(total, managers, members, associates, capacity);
  }

  lemma {:induction false} RanksPartition(ms: seq<Member>)
    requires forall m | m in ms :: RankOk(m.rank)
    ensures |ms| == CountRank(ms, RANK_MASTER) + CountRank(ms, RANK_MANAGER) + CountRank(ms, RANK_MEMBER)
                    + CountRank(ms, RANK_ASSOCIATE)
  {
    if ms != [] {
      assert ms[|ms| - 1] in ms;
      RanksPartition(ms[..|ms| - 1]);
    }
  }

  lemma {:induction false} CountNone(ms: seq<Member>, rank: uint8)
    requires forall i | 0 <= i < |ms| :: ms[i].rank != rank
    ensures CountRank(ms, rank) == 0
  {
    if ms != [] {
      CountNone(ms[..|ms| - 1], rank);
    }
  }

  lemma {:induction false} CountOne(ms: seq<Member>, rank: uint8, k: nat)
    requires k < |ms| && ms[k].rank == rank && forall i | 0 <= i < |ms| && i != k :: ms[i].rank != rank
    ensures CountRank(ms, rank) == 1
  {
    if k == |ms| - 1 {
      CountNone(ms[..k], rank);
    } else {
      CountOne(ms[..|ms| - 1], rank, k);
    }
  }

  /** In every reachable state the row of a clan with members is exact: one master and the
      three counts add up to the roster, and nothing saturates. */
  lemma RowIsExact(run: seq<World>, ops: seq<Op>, i: nat, name: string)
    requires IsRun(run, ops) && i < |run| && name in run[i].clans && run[i].clans[name].members != []
    ensures var c := run[i].clans[name];
            var row := CountsOf(c);
            && row.currentTotal == |c.members| == 1 + row.managers + row.members + row.associates
            && row.managers == CountRank(c.members, RANK_MANAGER)
            && row.members == CountRank(c.members, RANK_MEMBER)
            && row.associates == CountRank(c.members, RANK_ASSOCIATE)
            && row.capacity == Capacity(c)
  {
    RunOk(run, ops, i);
    var c := run[i].clans[name];
    assert ClanOk(c);
    MasterIsUnique(c);
    var k :| OnlyMaster(c, k);
    CountOne(c.members, RANK_MASTER, k);
    RanksPartition(c.members);
  }
}
