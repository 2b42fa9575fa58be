/** The list of live rooms and its wrap-around number allocator. */
module RoomRegistry {
  import opened Bytes
  import opened Wrappers

  /** Zero is no room's number. */
  const LAST: nat := 0xFFFF

  class Room {
    var number: uint16

    constructor ()
      ensures number == 0
    {
      number := 0;
    }
  }

  /** The k-th number tried after `last`: upwards, from 65535 back to 1. */
  function Candidate(last: uint16, k: nat): (n: uint16)
    requires k > 0
    ensures 1 <= n <= LAST
  {
    (last + k - 1) % LAST + 1
  }

  /** The number after `last`, as `uint16` arithmetic with zero skipped gives it. */
  function Successor(last: uint16): uint16 {
    var next := (last + 1) % 0x1_0000;
    if next == 0 then 1 else next
  }

  lemma CandidateStep(last: uint16, k: nat)
    ensures Candidate(last, 1) == Successor(last)
    ensures k > 0 ==> Candidate(last, k + 1) == Successor(Candidate(last, k))
  {
  }

  /** Numbers that rooms may hold. */
  predicate InRange(taken: set<uint16>) {
    forall n | n in taken :: 1 <= n <= LAST
  }

  /** The numbers 1 to n. */
  function UpTo(n: nat): (s: set<uint16>)
    requires n <= LAST
    ensures |s| == n && forall k: uint16 :: k in s <==> 1 <= k <= n
  {
    if n == 0 then {} else UpTo(n - 1) + {n}
  }

  lemma {:induction false} SubsetSize(a: set<uint16>, b: set<uint16>)
    requires a <= b
    ensures |a| <= |b|
    ensures |a| == |b| ==> a == b
  {
    if x :| x in a {
      SubsetSize(a - {x}, b - {x});
      assert a == (a - {x}) + {x} && b == (b - {x}) + {x};
    }
  }

  /** Every number is tried within one turn of the circle. */
  lemma EveryNumberTried(last: uint16, n: uint16) returns (k: nat)
    requires 1 <= n <= LAST
    ensures 0 < k <= LAST && Candidate(last, k) == n
  {
    k := (n + LAST - 1 - last % LAST) % LAST + 1;
  }

  lemma FreeNumber(taken: set<uint16>) returns (n: uint16)
    requires InRange(taken) && |taken| < LAST
    ensures 1 <= n <= LAST && n !in taken
  {
    var all := UpTo(LAST);
    if all <= taken {
      SubsetSize(all, taken);
      assert false;
    }
    n :| n in all && n !in taken;
  }

  /** A search from `last` ends at some turn exactly when fewer than 65535 rooms are open; with
      all numbers taken the source's loop never leaves, holding its mutex. */
  lemma SearchEnds(last: uint16, taken: set<uint16>)
    requires InRange(taken)
    ensures (exists k: nat :: k > 0 && Candidate(last, k) !in taken) <==> |taken| < LAST
  {
    if |taken| < LAST {
      var n := FreeNumber(taken);
      var k := EveryNumberTried(last, n);
      assert Candidate(last, k) !in taken;
    } else {
      var all := UpTo(LAST);
      assert taken <= all;
      SubsetSize(taken, all);
    }
  }

  /** The one set of open rooms for which no try ever succeeds. */
  lemma SearchStuck(last: uint16, taken: set<uint16>)
    requires InRange(taken)
    ensures (forall k: nat :: k > 0 ==> Candidate(last, k) in taken) <==> taken == UpTo(LAST)
  {
    SearchEnds(last, taken);
    if |taken| >= LAST {
      SubsetSize(taken, UpTo(LAST));
    }
  }

  /** `k` is the first try that finds a free number. */
  predicate FirstFree(last: uint16, taken: set<uint16>, k: nat) {
    && k > 0 && Candidate(last, k) !in taken
    && forall j | 0 < j < k :: Candidate(last, j) in taken
  }

  lemma {:induction false} LeastFree(last: uint16, taken: set<uint16>, bound: nat) returns (k: nat)
    requires bound > 0 && Candidate(last, bound) !in taken
    ensures k <= bound && FirstFree(last, taken, k)
  {
    if j :| 0 < j < bound && Candidate(last, j) !in taken {
      k := LeastFree(last, taken, j);
    } else {
      k := bound;
    }
  }

  /** Opened one after the other, rooms are numbered 1, 2, 3, ..., up to that set. */
  lemma OpensInTurn(n: nat)
    requires n < LAST
    ensures FirstFree(n, UpTo(n), 1) && UpTo(n) + {Candidate(n, 1)} == UpTo(n + 1)
  {
    hide UpTo, Candidate;
    CandidateStep(n, 0);
    assert Candidate(n, 1) == n + 1;
  }

  predicate Ordered(rooms: seq<Room>)
    reads rooms
  {
    forall i, j | 0 <= i < j < |rooms| :: rooms[i].number <= rooms[j].number
  }

  predicate DistinctNumbers(rooms: seq<Room>)
    reads rooms
  {
    forall i, j | 0 <= i < j < |rooms| :: rooms[i].number != rooms[j].number
  }

  /** Inserting before the first larger number. */
  lemma InsertKeeps(sorted: seq<Room>, at: nat, room: Room)
    requires Ordered(sorted) && at <= |sorted|
    requires forall j | 0 <= j < at :: sorted[j].number <= room.number
    requires at < |sorted| ==> room.number < sorted[at].number
    ensures var t := sorted[..at] + [room] + sorted[at..];
            && Ordered(t)
            && (forall r :: r in t <==> r in sorted || r == room)
            && (DistinctNumbers(sorted) && (forall r | r in sorted :: r.number != room.number) ==> DistinctNumbers(t))
  {
  }

  /** `sort.Slice` by number. */
  method SortByNumber(rooms: seq<Room>) returns (sorted: seq<Room>)
    ensures Ordered(sorted) && |sorted| == |rooms| && forall r :: r in sorted <==> r in rooms
    ensures DistinctNumbers(rooms) ==> DistinctNumbers(sorted)
  {
    sorted := [];
    for i := 0 to |rooms|
      invariant Ordered(sorted) && |sorted| == i
      invariant forall r :: r in sorted <==> r in rooms[..i]
      invariant DistinctNumbers(rooms) ==> DistinctNumbers(sorted)
    {
      var room, at := rooms[i], 0;
      while at < |sorted| && sorted[at].number <= room.number
        invariant 0 <= at <= |sorted|
        invariant forall j | 0 <= j < at :: sorted[j].number <= room.number
      {
        at := at + 1;
      }
      InsertKeeps(sorted, at, room);
      assert rooms[..i + 1] == rooms[..i] + [room];
      sorted := sorted[..at] + [room] + sorted[at..];
    }
    assert rooms[..|rooms|] == rooms;
  }

  class Registry {
    var rooms: map<uint16, Room>
    var lastRoom: uint16

    constructor ()
      ensures rooms == map[] && lastRoom == 0 && Valid()
    {
      rooms, lastRoom := map[], 0;
    }

    /** Every number leads to the room that carries it. */
    ghost predicate Valid()
      reads this, rooms.Values
    {
      && InRange(rooms.Keys)
      && forall n | n in rooms :: rooms[n].number == n
    }

    /** The number given is the first free one after the last number given. The registry stays
        valid exactly when the room was not open already. */
    method Open(room: Room) returns (number: uint16)
      requires Valid() && |rooms| < LAST
      modifies this, room
      ensures exists k :: FirstFree(old(lastRoom), old(rooms.Keys), k) && number == Candidate(old(lastRoom), k)
      ensures rooms == old(rooms)[number := room] && lastRoom == number && room.number == number
      ensures number !in old(rooms)
      ensures Valid() <==> room !in old(rooms.Values)
    {
      hide Candidate;
      ghost var first: nat;
      assert |rooms.Keys| == |rooms|;
      var n := FreeNumber(rooms.Keys);
      var bound := EveryNumberTried(lastRoom, n);
      first := LeastFree(lastRoom, rooms.Keys, bound);
      ghost var tries, last := 0, lastRoom;
      while true
        invariant 0 <= tries < first && FirstFree(last, rooms.Keys, first)
        invariant lastRoom == if tries == 0 then last else Candidate(last, tries)
        decreases first - tries
        modifies `lastRoom
      {
        CandidateStep(last, tries);
        lastRoom := (lastRoom + 1) % 0x1_0000;
        if lastRoom == 0 {
          lastRoom := 1;
        }
        tries := tries + 1;
        if lastRoom !in rooms {
          break;
        }
      }
      assert FirstFree(old(lastRoom), old(rooms.Keys), tries);
      room.number := lastRoom;
      rooms := rooms[room.number := room];
      number := room.number;
      if room in old(rooms.Values) {
        ghost var m :| m in old(rooms) && old(rooms)[m] == room;
        assert rooms[m].number != m;
      }
    }

    method Find(number: uint16) returns (room: Option<Room>)
      requires Valid()
      ensures room.Some? <==> number in rooms
      ensures room.Some? ==> room.value == rooms[number] && room.value.number == number
    {
      room := if number in rooms then Some(rooms[number]) else None;
    }

    method Close(number: uint16)
      requires Valid()
      modifies this`rooms
      ensures rooms == old(rooms) - {number} && Valid()
    {
      rooms := rooms - {number};
    }

    /** Exactly the open rooms, in strictly increasing order of number. */
    method List() returns (listing: seq<Room>)
      requires Valid()
      ensures forall i, j | 0 <= i < j < |listing| :: listing[i].number < listing[j].number
      ensures forall n | n in rooms :: rooms[n] in listing
      ensures forall room | room in listing :: room.number in rooms && rooms[room.number] == room
    {
      var found: seq<Room> := [];
      var left := rooms.Keys;
      while left != {}
        invariant left <= rooms.Keys
        invariant forall n | n in rooms :: n in left || rooms[n] in found
        invariant forall room | room in found ::
          room.number in rooms && rooms[room.number] == room && room.number !in left
        invariant DistinctNumbers(found)
        decreases left
      {
        var n :| n in left;
        left := left - {n};
        found := found + [rooms[n]];
      }
      listing := SortByNumber(found);
    }
  }
}
