/** Inventories, loadouts and mounted items: what the model types' own methods compute. */
module Inventory {
  import opened Bytes
  import opened Wrappers
  import opened Seqs

  const SECOND: int := 1_000_000_000
  const TWO_32: int := 0x1_0000_0000
  const CHARACTER_ATC: uint8 := 0x0B
  const CHARACTER_TF: uint8 := 0x0C
  const MAX_SERIAL: uint16 := 0xFFFE

  /** `ExpiresAt` in nanoseconds; Go's zero time, on an owned item, is before any other. */
  datatype Expiry = Never | At(ns: int)

  datatype Item = Item(serial: uint16, index: uint32, value: uint32, state: uint8, itemType: uint8, expiry: Expiry)

  datatype Equipped = Equipped(slot: uint8, serial: uint16)

  datatype Attached = Attached(parent: uint16, child: uint16, slot: uint8)

  datatype Account = Account(
    level: uint32, point: uint64, cash: uint64,
    inventory: seq<Item>, loadout: seq<Equipped>, attachments: seq<Attached>)

  predicate IsExpired(item: Item, now: int) {
    item.expiry.At? && item.expiry.ns <= now
  }

  /** What the client is told: a count, or for a rental the whole seconds left. */
  function WireValue(item: Item, now: int): uint32 {
    if item.expiry.Never? then item.value
    else if item.expiry.ns <= now then 0
    else ((item.expiry.ns - now) / SECOND) % TWO_32
  }

  predicate IsCustomSlot(slot: uint8) { 0x3D <= slot <= 0x42 }

  function WithSerial(serial: uint16): Item -> bool { (item: Item) => item.serial == serial }

  function OfIndex(index: uint32): Item -> bool { (item: Item) => item.index == index }

  // ------------------------------------------------------------- serials

  function Serials(inv: seq<Item>): seq<uint16> {
    seq(|inv|, i requires 0 <= i < |inv| => inv[i].serial)
  }

  /** The first of `from`, `from + 1`, ... up to 65534 that is not in use; zero when all are. */
  function FreeFrom(used: seq<uint16>, from: uint16): (serial: uint16)
    requires 1 <= from
    ensures serial != 0 ==> from <= serial <= MAX_SERIAL && serial !in used
    ensures forall k: uint16 | from <= k <= MAX_SERIAL && (serial == 0 || k < serial) :: k in used
    decreases 0xFFFF - from
  {
    if from > MAX_SERIAL then 0
    else if from !in used then from
    else FreeFrom(used, from + 1)
  }

  function NextSerial(inv: seq<Item>): uint16 {
    FreeFrom(Serials(inv), 1)
  }

  // ----------------------------------------------------------- materials

  type Need = map<uint32, int>

  function Needed(need: Need, index: uint32): int {
    if index in need then need[index] else 0
  }

  /** The first stack of every needed item holds enough: no second stack is looked at. */
  predicate Covers(inv: seq<Item>, need: Need) {
    forall index | index in need :: Find(inv, OfIndex(index)).Some?
        && Find(inv, OfIndex(index)).value.value >= need[index]
  }

  /** The stack at `k` is the one that pays for its item. */
  predicate Pays(inv: seq<Item>, need: Need, k: nat)
    requires k < |inv|
  {
    Needed(need, inv[k].index) > 0 && forall j | 0 <= j < k :: inv[j].index != inv[k].index
  }

  datatype Consumed = Consumed(next: seq<Item>, deleted: seq<uint16>, updated: seq<Item>)

  /** What is left of the first `n` stacks, and what was taken. */
  function Taken(inv: seq<Item>, need: Need, n: nat): Consumed
    requires n <= |inv|
  {
    if n == 0 then Consumed([], [], [])
    else
      var c, item := Taken(inv, need, n - 1), inv[n - 1];
      if !Pays(inv, need, n - 1) then c.(next := c.next + [item])
      else if item.value <= Needed(need, item.index) then c.(deleted := c.deleted + [item.serial])
      else
        var left := item.(value := item.value - Needed(need, item.index));
        c.(next := c.next + [left], updated := c.updated + [left])
  }

  function Consume(inv: seq<Item>, need: Need): Option<Consumed> {
    if Covers(inv, need) then Some(Taken(inv, need, |inv|)) else None
  }

  // --------------------------------------------------------- consumables

  datatype Spent = UsedUp(serial: uint16) | Reduced(remaining: Item)

  /** One unit of the stack with this serial. */
  function SpendUnit(inv: seq<Item>, serial: uint16): Option<(seq<Item>, Spent)> {
    var i := IndexOf(inv, WithSerial(serial));
    if i == |inv| then None
    else if inv[i].value <= 1 then Some((Without(inv, i), UsedUp(serial)))
    else
      var left := inv[i].(value := inv[i].value - 1);
      Some((inv[i := left], Reduced(left)))
  }

  // -------------------------------------------------- loadout and mounts

  function InOtherSlot(slot: uint8): Equipped -> bool { (e: Equipped) => e.slot != slot }

  function Equip(loadout: seq<Equipped>, slot: uint8, serial: uint16): seq<Equipped> {
    Filter(loadout, InOtherSlot(slot)) + [Equipped(slot, serial)]
  }

  function Elsewhere(parent: uint16, slot: uint8): Attached -> bool {
    (m: Attached) => m.parent != parent || m.slot != slot
  }

  function Mount(mounts: seq<Attached>, parent: uint16, child: uint16, slot: uint8): seq<Attached> {
    Filter(mounts, Elsewhere(parent, slot)) + [Attached(parent, child, slot)]
  }

  function NotPair(parent: uint16, child: uint16): Attached -> bool {
    (m: Attached) => m.parent != parent || m.child != child
  }

  function Unmount(mounts: seq<Attached>, parent: uint16, child: uint16): seq<Attached> {
    Filter(mounts, NotPair(parent, child))
  }

  // --------------------------------------------------------------- purge

  function Unexpired(now: int): Item -> bool { (item: Item) => !IsExpired(item, now) }

  function Expired(now: int): Item -> bool { (item: Item) => IsExpired(item, now) }

  /** The serials an expired item had. */
  function Gone(inv: seq<Item>, now: int): seq<uint16> {
    Serials(Filter(inv, Expired(now)))
  }

  function Worn(gone: seq<uint16>): Equipped -> bool { (e: Equipped) => e.serial !in gone }

  function Mounted(gone: seq<uint16>): Attached -> bool {
    (m: Attached) => m.child !in gone && m.parent !in gone
  }

  function Purge(a: Account, now: int): Account {
    var gone := Gone(a.inventory, now);
    a.(inventory := Filter(a.inventory, Unexpired(now)),
       loadout := Filter(a.loadout, Worn(gone)),
       attachments := Filter(a.attachments, Mounted(gone)))
  }

  // ---------------------------------------------------------- properties

  predicate SerialsOk(inv: seq<Item>) {
    Distinct(Serials(inv)) && forall s | s in Serials(inv) :: 1 <= s <= MAX_SERIAL
  }

  /** Units of one item over all its stacks. */
  function Units(inv: seq<Item>, index: uint32): nat {
    if inv == [] then 0
    else
      var last := inv[|inv| - 1];
      Units(inv[..|inv| - 1], index) + if last.index == index then last.value else 0
  }

  function Positive(x: int): nat { if x > 0 then x else 0 }

  /** Exactly the units needed go, whatever item one counts. */
  lemma ConsumeConserves(inv: seq<Item>, need: Need, index: uint32)
    requires Consume(inv, need).Some?
    ensures Units(Consume(inv, need).value.next, index) == Units(inv, index) - Positive(Needed(need, index))
  {
    TakenUnits(inv, need, |inv|, index);
    assert inv[..|inv|] == inv;
  }

  lemma UnitsSnoc(inv: seq<Item>, item: Item, index: uint32)
    ensures Units(inv + [item], index) == Units(inv, index) + if item.index == index then item.value else 0
  {
    assert (inv + [item])[..|inv|] == inv;
  }

  lemma UnitsPrefix(inv: seq<Item>, k: nat, index: uint32)
    requires k < |inv|
    ensures Units(inv[..k + 1], index) == Units(inv[..k], index) + if inv[k].index == index then inv[k].value else 0
  {
    assert inv[..k + 1] == inv[..k] + [inv[k]];
    UnitsSnoc(inv[..k], inv[k], index);
  }

  lemma PaysFirst(inv: seq<Item>, need: Need, k: nat)
    requires k < |inv|
    ensures Pays(inv, need, k) <==> Needed(need, inv[k].index) > 0 && IndexOf(inv, OfIndex(inv[k].index)) == k
  {
    var first := IndexOf(inv, OfIndex(inv[k].index));
    assert OfIndex(inv[k].index)(inv[k]);
    if first == k {
      assert forall j | 0 <= j < k :: !OfIndex(inv[k].index)(inv[j]);
    } else {
      assert inv[first].index == inv[k].index;
    }
  }

  /** What one stack adds to the units of an item that are left. */
  function UnitsLeft(inv: seq<Item>, need: Need, k: nat, index: uint32): int
    requires k < |inv|
  {
    if inv[k].index != index then 0
    else if !Pays(inv, need, k) then inv[k].value
    else if inv[k].value <= Needed(need, index) then 0
    else inv[k].value - Needed(need, index)
  }

  lemma StepUnits(inv: seq<Item>, need: Need, k: nat, index: uint32)
    requires k < |inv|
    ensures Units(Taken(inv, need, k + 1).next, index) == Units(Taken(inv, need, k).next, index)
        + UnitsLeft(inv, need, k, index)
  {
    var before, item := Taken(inv, need, k).next, inv[k];
    if !Pays(inv, need, k) {
      UnitsSnoc(before, item, index);
    } else if item.value > Needed(need, item.index) {
      UnitsSnoc(before, item.(value := item.value - Needed(need, item.index)), index);
    }
    hide Pays;
  }

  /** The first stack of an item has all that is needed; the others pay nothing. */
  lemma UnitsLeftIs(inv: seq<Item>, need: Need, k: nat, index: uint32)
    requires Covers(inv, need) && k < |inv|
    ensures var first := IndexOf(inv, OfIndex(index));
      UnitsLeft(inv, need, k, index) == (if inv[k].index == index then inv[k].value else 0)
                                      - (if first == k then Positive(Needed(need, index)) else 0)
  {
    PaysFirst(inv, need, k);
    if inv[k].index == index {
      assert OfIndex(index)(inv[k]);
    }
    hide Pays;
  }

  /** One more stack changes both totals alike, but for what the first stack of the item pays. */
  lemma UnitsStep(inv: seq<Item>, need: Need, k: nat, index: uint32)
    requires Covers(inv, need) && k < |inv|
    ensures Units(Taken(inv, need, k + 1).next, index) - Units(Taken(inv, need, k).next, index)
         == Units(inv[..k + 1], index) - Units(inv[..k], index)
            - if IndexOf(inv, OfIndex(index)) == k then Positive(Needed(need, index)) else 0
  {
    hide *;
    StepUnits(inv, need, k, index);
    UnitsLeftIs(inv, need, k, index);
    UnitsPrefix(inv, k, index);
  }

  lemma {:induction false} TakenUnits(inv: seq<Item>, need: Need, n: nat, index: uint32)
    requires Covers(inv, need) && n <= |inv|
    ensures Units(Taken(inv, need, n).next, index)
         == Units(inv[..n], index) - if IndexOf(inv, OfIndex(index)) < n then Positive(Needed(need, index)) else 0
  {
    hide *;
    if n == 0 {
      NothingTaken(inv, need, index);
    } else {
      TakenUnits(inv, need, n - 1, index);
      UnitsStep(inv, need, n - 1, index);
    }
  }

  lemma NothingTaken(inv: seq<Item>, need: Need, index: uint32)
    ensures Units(Taken(inv, need, 0).next, index) == Units(inv[..0], index) == 0
  {
  }

  function Unneeded(need: Need): Item -> bool { (item: Item) => Needed(need, item.index) <= 0 }

  /** What the recipe does not name stays, in order. */
  lemma ConsumeKeeps(inv: seq<Item>, need: Need)
    requires Consume(inv, need).Some?
    ensures Filter(Consume(inv, need).value.next, Unneeded(need)) == Filter(inv, Unneeded(need))
  {
    TakenKeeps(inv, need, |inv|);
    assert inv[..|inv|] == inv;
  }

  lemma {:induction false} TakenKeeps(inv: seq<Item>, need: Need, n: nat)
    requires n <= |inv|
    ensures Filter(Taken(inv, need, n).next, Unneeded(need)) == Filter(inv[..n], Unneeded(need))
  {
    if n > 0 {
      TakenKeeps(inv, need, n - 1);
      var before, item := Taken(inv, need, n - 1).next, inv[n - 1];
      assert inv[..n] == inv[..n - 1] + [item];
      FilterSnoc(inv[..n - 1], item, Unneeded(need));
      FilterSnoc(before, item, Unneeded(need));
      if Pays(inv, need, n - 1) && item.value > Needed(need, item.index) {
        FilterSnoc(before, item.(value := item.value - Needed(need, item.index)), Unneeded(need));
      }
      hide Filter, Pays;
    }
  }

  function NotIn(serials: seq<uint16>): uint16 -> bool { (s: uint16) => s !in serials }

  /** `deleted` and `updated` are exactly the difference between the two inventories. */
  lemma ConsumeDiff(inv: seq<Item>, need: Need)
    requires Distinct(Serials(inv)) && Consume(inv, need).Some?
    ensures var c := Consume(inv, need).value;
      && Serials(c.next) == Filter(Serials(inv), NotIn(c.deleted))
      && (forall s | s in c.deleted :: s in Serials(inv))
      && (forall item | item in c.next :: item in c.updated || (item in inv && item.serial !in Serials(c.updated)))
      && (forall item | item in c.updated :: item in c.next && ReducedFrom(inv, item))
  {
    TakenSerials(inv, need, |inv|);
    TakenItems(inv, need, |inv|);
    TakenUpdated(inv, need, |inv|);
    assert inv[..|inv|] == inv;
  }

  predicate ReducedFrom(inv: seq<Item>, item: Item) {
    exists was | was in inv :: item == was.(value := item.value) && 0 < item.value < was.value
  }

  lemma SerialsSnoc(inv: seq<Item>, item: Item)
    ensures Serials(inv + [item]) == Serials(inv) + [item.serial]
  {
  }

  lemma SerialsPrefix(inv: seq<Item>, n: nat)
    requires n < |inv|
    ensures inv[..n + 1] == inv[..n] + [inv[n]]
    ensures Serials(inv[..n + 1]) == Serials(inv[..n]) + [inv[n].serial]
    ensures Distinct(Serials(inv)) ==> inv[n].serial !in Serials(inv[..n])
  {
    assert inv[..n + 1] == inv[..n] + [inv[n]];
    SerialsSnoc(inv[..n], inv[n]);
    if Distinct(Serials(inv)) {
      forall j | 0 <= j < n ensures Serials(inv[..n])[j] != inv[n].serial {
        assert Serials(inv)[j] == inv[j].serial && Serials(inv)[n] == inv[n].serial;
      }
    }
  }

  lemma SerialIn(inv: seq<Item>, item: Item)
    requires item in inv
    ensures item.serial in Serials(inv)
  {
    var k :| 0 <= k < |inv| && inv[k] == item;
    assert Serials(inv)[k] == item.serial;
  }

  /** One step of the walk over the stacks. */
  lemma TakenStep(inv: seq<Item>, need: Need, n: nat) returns (rest: seq<Item>)
    requires n < |inv|
    ensures |rest| <= 1 && Taken(inv, need, n + 1).next == Taken(inv, need, n).next + rest
    ensures Taken(inv, need, n + 1).deleted == Taken(inv, need, n).deleted + if rest == [] then [inv[n].serial] else []
    ensures Taken(inv, need, n + 1).updated == Taken(inv, need, n).updated + if rest == [inv[n]] then [] else rest
    ensures rest != [] ==> rest[0] == inv[n].(value := rest[0].value)
    ensures rest != [] ==> rest[0] == inv[n] || 0 < rest[0].value < inv[n].value
  {
    var before, after := Taken(inv, need, n).next, Taken(inv, need, n + 1).next;
    rest := after[|before|..];
  }

  /** One more stack with a serial of its own: it stays, or its serial joins the deleted ones. */
  lemma SerialsStep(before: Consumed, after: Consumed, rest: seq<Item>, all: seq<uint16>, serial: uint16)
    requires Serials(before.next) == Filter(all, NotIn(before.deleted)) && serial !in all
    requires forall s | s in before.deleted :: s in all
    requires |rest| <= 1 && (rest != [] ==> rest[0].serial == serial) && after.next == before.next + rest
    requires after.deleted == before.deleted + if rest == [] then [serial] else []
    ensures Serials(after.next) == Filter(all + [serial], NotIn(after.deleted))
    ensures forall s | s in after.deleted :: s in all + [serial]
  {
    hide Filter, Serials;
    FilterSnoc(all, serial, NotIn(after.deleted));
    FilterSame(all, NotIn(before.deleted), NotIn(after.deleted));
    if rest != [] {
      assert rest == [rest[0]];
      SerialsSnoc(before.next, rest[0]);
    } else {
      assert after.next == before.next;
    }
  }

  lemma {:induction false} TakenSerials(inv: seq<Item>, need: Need, n: nat)
    requires Distinct(Serials(inv)) && n <= |inv|
    ensures Serials(Taken(inv, need, n).next) == Filter(Serials(inv[..n]), NotIn(Taken(inv, need, n).deleted))
    ensures forall s | s in Taken(inv, need, n).deleted :: s in Serials(inv[..n])
  {
    if n > 0 {
      hide *;
      TakenSerials(inv, need, n - 1);
      SerialsPrefix(inv, n - 1);
      var rest := TakenStep(inv, need, n - 1);
      SerialsStep(Taken(inv, need, n - 1), Taken(inv, need, n), rest, Serials(inv[..n - 1]), inv[n - 1].serial);
    }
  }

  /** An updated item is one of the stacks with less in it. */
  lemma UpdatedStep(inv: seq<Item>, before: Consumed, after: Consumed, rest: seq<Item>, k: nat)
    requires k < |inv| && Serials(inv[..k + 1]) == Serials(inv[..k]) + [inv[k].serial]
    requires forall item | item in before.updated ::
      item in before.next && ReducedFrom(inv, item) && item.serial in Serials(inv[..k])
    requires |rest| <= 1 && after.next == before.next + rest
    requires rest != [] ==> rest[0] == inv[k].(value := rest[0].value)
    requires rest != [] ==> rest[0] == inv[k] || 0 < rest[0].value < inv[k].value
    requires after.updated == before.updated + if rest == [inv[k]] then [] else rest
    ensures forall item | item in after.updated ::
      item in after.next && ReducedFrom(inv, item) && item.serial in Serials(inv[..k + 1])
  {
    hide Serials;
    if rest != [] && rest[0] != inv[k] {
      assert inv[k] in inv && ReducedFrom(inv, rest[0]);
    }
  }

  lemma {:induction false} TakenUpdated(inv: seq<Item>, need: Need, n: nat)
    requires n <= |inv|
    ensures forall item | item in Taken(inv, need, n).updated ::
      item in Taken(inv, need, n).next && ReducedFrom(inv, item) && item.serial in Serials(inv[..n])
  {
    if n > 0 {
      hide *;
      TakenUpdated(inv, need, n - 1);
      SerialsPrefix(inv, n - 1);
      var rest := TakenStep(inv, need, n - 1);
      UpdatedStep(inv, Taken(inv, need, n - 1), Taken(inv, need, n), rest, n - 1);
    }
  }

  /** One more stack: what is left of it is the stack itself, or an updated item. */
  lemma ItemsStep(before: Consumed, after: Consumed, rest: seq<Item>, all: seq<Item>, item: Item)
    requires forall x | x in before.next ::
      x in before.updated || (x in all && x.serial !in Serials(before.updated))
    requires (forall u | u in before.updated :: u.serial in Serials(all)) && item.serial !in Serials(all)
    requires |rest| <= 1 && (rest != [] ==> rest[0].serial == item.serial) && after.next == before.next + rest
    requires after.updated == before.updated + if rest == [item] then [] else rest
    ensures forall x | x in after.next ::
      x in after.updated || (x in all + [item] && x.serial !in Serials(after.updated))
  {
    hide Serials;
    if rest != [] && rest != [item] {
      assert rest == [rest[0]];
      SerialsSnoc(before.updated, rest[0]);
    } else {
      assert after.updated == before.updated;
    }
    forall x | x in after.next && x !in after.updated
      ensures x in all + [item] && x.serial !in Serials(after.updated)
    {
      if x in before.next {
        SerialIn(all, x);
      } else {
        UpdatedSerials(before.updated, Serials(all), item.serial);
      }
    }
  }

  lemma {:induction false} TakenItems(inv: seq<Item>, need: Need, n: nat)
    requires Distinct(Serials(inv)) && n <= |inv|
    ensures var c := Taken(inv, need, n);
      forall item | item in c.next :: item in c.updated || (item in inv[..n] && item.serial !in Serials(c.updated))
  {
    if n > 0 {
      hide *;
      TakenItems(inv, need, n - 1);
      TakenUpdated(inv, need, n - 1);
      SerialsPrefix(inv, n - 1);
      var rest := TakenStep(inv, need, n - 1);
      ItemsStep(Taken(inv, need, n - 1), Taken(inv, need, n), rest, inv[..n - 1], inv[n - 1]);
    }
  }

  lemma UpdatedSerials(updated: seq<Item>, all: seq<uint16>, serial: uint16)
    requires serial !in all && forall u | u in updated :: u.serial in all
    ensures serial !in Serials(updated)
  {
  }

  // ----------------------------------------------------- serials in use

  lemma FindSerial(inv: seq<Item>, serial: uint16)
    ensures Find(inv, WithSerial(serial)).Some? <==> serial in Serials(inv)
    ensures serial in Serials(inv) ==>
      Find(inv, WithSerial(serial)).value in inv && Find(inv, WithSerial(serial)).value.serial == serial
  {
    var i := IndexOf(inv, WithSerial(serial));
    if i < |inv| {
      SerialIn(inv, inv[i]);
    } else {
      forall j | 0 <= j < |inv| ensures Serials(inv)[j] != serial {
        assert !WithSerial(serial)(inv[j]);
      }
    }
  }

  lemma FindItem(inv: seq<Item>, item: Item)
    requires Distinct(Serials(inv)) && item in inv
    ensures Find(inv, WithSerial(item.serial)) == Some(item)
  {
    var i, k := IndexOf(inv, WithSerial(item.serial)), IndexOf(inv, x => x == item);
    assert inv[k] == item by {
      var j :| 0 <= j < |inv| && inv[j] == item;
    }
    assert WithSerial(item.serial)(inv[k]);
    assert Serials(inv)[i] == Serials(inv)[k];
  }

  lemma {:induction false} FilterSerials(inv: seq<Item>, p: Item -> bool)
    requires Distinct(Serials(inv))
    ensures Distinct(Serials(Filter(inv, p)))
    ensures forall s | s in Serials(Filter(inv, p)) :: s in Serials(inv)
  {
    if inv != [] {
      var n := |inv| - 1;
      SerialsPrefix(inv, n);
      assert inv[..n + 1] == inv;
      assert Serials(inv)[..n] == Serials(inv[..n]);
      FilterSerials(inv[..n], p);
      var kept := Filter(inv[..n], p);
      if p(inv[n]) {
        SerialsSnoc(kept, inv[n]);
        assert Filter(inv, p) == kept + [inv[n]];
      } else {
        assert Filter(inv, p) == kept;
      }
    }
  }

  lemma AppendSerial(inv: seq<Item>, item: Item)
    requires SerialsOk(inv) && item.serial == NextSerial(inv) != 0
    ensures SerialsOk(inv + [item])
  {
    SerialsSnoc(inv, item);
  }

  lemma UpdateSerial(inv: seq<Item>, i: nat, item: Item)
    requires i < |inv| && item.serial == inv[i].serial
    ensures Serials(inv[i := item]) == Serials(inv)
  {
  }

  lemma WithoutSerial(inv: seq<Item>, i: nat)
    requires i < |inv|
    ensures Serials(Without(inv, i)) == Without(Serials(inv), i)
  {
  }
}
