/** The player object and the methods that change it, each against its function. */
module PlayerModel {
  import opened Bytes
  import opened Wrappers
  import opened Seqs
  import opened GoSlice
  import opened Catalog
  import opened Inventory

  const TWO_64: int := 0x1_0000_0000_0000_0000

  function Balance(a: Account, w: Wallet): uint64 {
    if w.CashWallet? then a.cash else a.point
  }

  /** In `uint64` arithmetic: taking too much would wrap. */
  function Charge(a: Account, w: Wallet, amount: uint64): Account {
    match w
    case CashWallet => a.(cash := (a.cash - amount) % TWO_64)
    case PointWallet => a.(point := (a.point - amount) % TWO_64)
    case NoWallet => a
  }

  /** `models.Player` as stored: copying it copies the inventory's slice, not the array behind it.
      Loadouts and mounts are never written in place. */
  datatype PlayerRec = PlayerRec(
    level: uint32, point: uint64, cash: uint64,
    inventory: Slice<Item>, loadout: seq<Equipped>, attachments: seq<Attached>)

  function AccountOf(r: PlayerRec): Account
    requires Fits(r.inventory)
    reads r.inventory.arr
  {
    Account(r.level, r.point, r.cash, View(r.inventory), r.loadout, r.attachments)
  }

  class Player {
    var level: uint32
    var point: uint64
    var cash: uint64
    var inventory: Slice<Item>
    var loadout: seq<Equipped>
    var attachments: seq<Attached>

    /** A copy of the struct, sharing its array. */
    constructor (r: PlayerRec)
      ensures Rec() == r
    {
      level, point, cash, inventory, loadout, attachments :=
        r.level, r.point, r.cash, r.inventory, r.loadout, r.attachments;
    }

    function Rec(): PlayerRec
      reads this
    {
      PlayerRec(level, point, cash, inventory, loadout, attachments)
    }

    function Value(): Account
      requires Fits(inventory)
      reads this, inventory.arr
    {
      AccountOf(Rec())
    }

    method Item(serial: uint16) returns (r: Option<Item>)
      requires Fits(inventory)
      ensures r == Find(View(inventory), WithSerial(serial))
    {
      r := SearchSerial(View(inventory), serial);
    }

    method NextSerial() returns (serial: uint16)
      requires Fits(inventory)
      ensures serial == Inventory.NextSerial(View(inventory))
    {
      var items := View(inventory);
      var used: set<uint16> := {};
      for i := 0 to |items|
        invariant forall s :: s in used <==> s in Serials(items)[..i]
      {
        assert Serials(items)[i] == items[i].serial;
        used := used + {items[i].serial};
      }
      assert Serials(items)[..|items|] == Serials(items);
      serial := 1;
      while serial < 0xFFFF
        invariant 1 <= serial
        invariant FreeFrom(Serials(items), 1) == FreeFrom(Serials(items), serial)
      {
        if serial !in used {
          return serial;
        }
        serial := serial + 1;
      }
      return 0;
    }

    method Debit(w: Wallet, amount: uint64)
      requires Fits(inventory)
      modifies this`point, this`cash
      ensures Value() == Charge(old(Value()), w, amount)
    {
      match w
      case CashWallet => cash := (cash - amount) % TWO_64;
      case PointWallet => point := (point - amount) % TWO_64;
      case NoWallet =>
    }

    /** Builds a new list: the shared array stays as it is. */
    method ConsumeMaterials(need: Need) returns (deleted: seq<uint16>, updated: seq<Item>, ok: bool)
      requires Fits(inventory)
      modifies this`inventory
      ensures Fits(inventory) && (if ok then fresh(inventory.arr) else inventory == old(inventory))
      ensures var c := Consume(old(View(inventory)), need);
        && ok == c.Some?
        && (ok ==> View(inventory) == c.value.next && deleted == c.value.deleted && updated == c.value.updated)
        && (!ok ==> deleted == [] && updated == [])
    {
      hide Taken;
      var items := View(inventory);
      var left := need.Keys;
      while left != {}
        invariant left <= need.Keys
        invariant forall index | index in need && index !in left ::
          Find(items, OfIndex(index)).Some? && Find(items, OfIndex(index)).value.value >= need[index]
        modifies {}
        decreases left
      {
        var index :| index in left;
        left := left - {index};
        var item := SearchIndex(items, index);
        if item.None? || item.value.value < need[index] {
          return [], [], false;
        }
      }
      var next;
      next, deleted, updated := TakeMaterials(items, need);
      inventory := FromSeq(next);
      ok := true;
    }

    /** A stack that only shrinks is written in the shared array; one that is used up leaves a
        new list, and the array as it was. */
    method SpendUnit(serial: uint16) returns (r: Option<Spent>)
      requires Fits(inventory)
      modifies this`inventory, inventory.arr
      ensures Fits(inventory) && (inventory.arr == old(inventory.arr) || fresh(inventory.arr))
      ensures match Inventory.SpendUnit(old(View(inventory)), serial)
              case None => r == None && View(inventory) == old(View(inventory))
              case Some((next, spent)) => r == Some(spent) && View(inventory) == next
      ensures r.Some? && r.value.Reduced? ==> inventory == old(inventory)
      ensures r.None? || r.value.UsedUp? ==> unchanged(old(inventory.arr)) && (r.None? ==> inventory == old(inventory))
    {
      var i := PlaceOf(View(inventory), serial);
      if i == inventory.len {
        return None;
      }
      var item := View(inventory)[i];
      hide IndexOf;
      if item.value <= 1 {
        inventory := RemoveAt(inventory, i);
        return Some(UsedUp(serial));
      }
      item := item.(value := item.value - 1);
      WriteAt(inventory, i, item);
      return Some(Reduced(item));
    }

    /** Builds a new list when something has expired, and writes no array. */
    method PurgeExpired(now: int) returns (removed: seq<uint16>)
      requires Fits(inventory)
      modifies this
      ensures Fits(inventory) && (inventory == old(inventory) || fresh(inventory.arr))
      ensures Value() == Purge(old(Value()), now) && removed == Gone(old(View(inventory)), now)
      ensures removed == [] ==> Rec() == old(Rec())
    {
      hide Filter;
      var kept;
      removed, kept := SplitExpired(View(inventory), now);
      if removed == [] {
        NothingGone(Value(), now);
        return [];
      }
      attachments := KeepMounts(attachments, removed);
      loadout := KeepWorn(loadout, removed);
      inventory := FromSeq(kept);
    }
  }

  method PlaceOf(items: seq<Item>, serial: uint16) returns (i: nat)
    ensures i == IndexOf(items, WithSerial(serial))
  {
    i := 0;
    while i < |items|
      invariant i <= |items| && forall j | 0 <= j < i :: !WithSerial(serial)(items[j])
    {
      if items[i].serial == serial {
        assert WithSerial(serial)(items[i]);
        return;
      }
      i := i + 1;
    }
  }

  method SearchSerial(items: seq<Item>, serial: uint16) returns (r: Option<Item>)
    ensures r == Find(items, WithSerial(serial))
  {
    var i := PlaceOf(items, serial);
    r := if i < |items| then Some(items[i]) else None;
  }

  method SearchIndex(items: seq<Item>, index: uint32) returns (r: Option<Item>)
    ensures r == Find(items, OfIndex(index))
  {
    for i := 0 to |items|
      invariant forall j | 0 <= j < i :: !OfIndex(index)(items[j])
    {
      if items[i].index == index {
        assert OfIndex(index)(items[i]);
        return Some(items[i]);
      }
    }
    return None;
  }

  /** When nothing has expired a purge is no change. */
  lemma NothingGone(a: Account, now: int)
    requires Gone(a.inventory, now) == []
    ensures Purge(a, now) == a
  {
    assert |Filter(a.inventory, Expired(now))| == 0;
    FilterHas(a.inventory, Expired(now));
    forall item | item in a.inventory ensures Unexpired(now)(item) {
      assert item !in Filter(a.inventory, Expired(now));
    }
    FilterAll(a.inventory, Unexpired(now));
    FilterAll(a.loadout, Worn([]));
    FilterAll(a.attachments, Mounted([]));
  }

  /** The walk keeps its own list of what is still to be taken, and zeroes an entry once the
      first stack has paid. */
  method TakeMaterials(inv: seq<Item>, need: Need) returns (next: seq<Item>, deleted: seq<uint16>, updated: seq<Item>)
    ensures Consumed(next, deleted, updated) == Taken(inv, need, |inv|)
  {
    hide IndexOf, OfIndex;
    var remaining := need;
    next, deleted, updated := [], [], [];
    for i := 0 to |inv|
      invariant remaining.Keys == need.Keys
      invariant forall index | index in need :: remaining[index] == Outstanding(inv, need, index, i)
      invariant Consumed(next, deleted, updated) == Taken(inv, need, i)
    {
      var item := inv[i];
      forall index ensures Outstanding(inv, need, index, i + 1) ==
          if index == item.index && Pays(inv, need, i) then 0 else Outstanding(inv, need, index, i) {
        OutstandingStep(inv, need, index, i);
      }
      OutstandingStep(inv, need, item.index, i);
      hide Outstanding, Pays, OfIndex;
      var count := Needed(remaining, item.index);
      if count > 0 {
        remaining := remaining[item.index := 0];
        if item.value <= count {
          deleted := deleted + [item.serial];
          continue;
        }
        item := item.(value := item.value - count);
        updated := updated + [item];
      }
      next := next + [item];
    }
  }

  /** What the walk still has to take after the first `n` stacks. */
  function Outstanding(inv: seq<Item>, need: Need, index: uint32, n: nat): int {
    if IndexOf(inv, OfIndex(index)) < n && Needed(need, index) > 0 then 0 else Needed(need, index)
  }

  lemma OutstandingStep(inv: seq<Item>, need: Need, index: uint32, n: nat)
    requires n < |inv|
    ensures Pays(inv, need, n) <==> Outstanding(inv, need, inv[n].index, n) > 0
    ensures Pays(inv, need, n) ==> Outstanding(inv, need, inv[n].index, n) == Needed(need, inv[n].index)
    ensures Outstanding(inv, need, index, n + 1) ==
      if index == inv[n].index && Pays(inv, need, n) then 0 else Outstanding(inv, need, index, n)
  {
    PaysFirst(inv, need, n);
    assert OfIndex(inv[n].index)(inv[n]);
    if index != inv[n].index {
      assert !OfIndex(index)(inv[n]);
    }
  }

  method SplitExpired(inv: seq<Item>, now: int) returns (removed: seq<uint16>, kept: seq<Item>)
    ensures removed == Gone(inv, now) && kept == Filter(inv, Unexpired(now))
  {
    removed, kept := [], [];
    for i := 0 to |inv|
      invariant removed == Gone(inv[..i], now) && kept == Filter(inv[..i], Unexpired(now))
    {
      SerialsPrefix(inv, i);
      FilterSnoc(inv[..i], inv[i], Expired(now));
      FilterSnoc(inv[..i], inv[i], Unexpired(now));
      SerialsSnoc(Filter(inv[..i], Expired(now)), inv[i]);
      hide Filter, Serials;
      if IsExpired(inv[i], now) {
        removed := removed + [inv[i].serial];
        continue;
      }
      kept := kept + [inv[i]];
    }
    assert inv[..|inv|] == inv;
  }

  method KeepMounts(mounts: seq<Attached>, gone: seq<uint16>) returns (next: seq<Attached>)
    ensures next == Filter(mounts, Mounted(gone))
  {
    next := [];
    for i := 0 to |mounts|
      invariant next == Filter(mounts[..i], Mounted(gone))
    {
      FilterSnoc(mounts[..i], mounts[i], Mounted(gone));
      assert mounts[..i + 1] == mounts[..i] + [mounts[i]];
      if mounts[i].child !in gone && mounts[i].parent !in gone {
        next := next + [mounts[i]];
      }
    }
    assert mounts[..|mounts|] == mounts;
  }

  method KeepWorn(loadout: seq<Equipped>, gone: seq<uint16>) returns (next: seq<Equipped>)
    ensures next == Filter(loadout, Worn(gone))
  {
    next := [];
    for i := 0 to |loadout|
      invariant next == Filter(loadout[..i], Worn(gone))
    {
      FilterSnoc(loadout[..i], loadout[i], Worn(gone));
      assert loadout[..i + 1] == loadout[..i] + [loadout[i]];
      if loadout[i].serial !in gone {
        next := next + [loadout[i]];
      }
    }
    assert loadout[..|loadout|] == loadout;
  }

  /** One item per slot. */
  method EquipSlot(loadout: seq<Equipped>, slot: uint8, serial: uint16) returns (next: seq<Equipped>)
    ensures next == Equip(loadout, slot, serial)
  {
    next := [];
    for i := 0 to |loadout|
      invariant next == Filter(loadout[..i], InOtherSlot(slot))
    {
      FilterSnoc(loadout[..i], loadout[i], InOtherSlot(slot));
      assert loadout[..i + 1] == loadout[..i] + [loadout[i]];
      if loadout[i].slot != slot {
        next := next + [loadout[i]];
      }
    }
    assert loadout[..|loadout|] == loadout;
    next := next + [Equipped(slot, serial)];
  }

  /** One item per slot of a parent. */
  method MountOn(mounts: seq<Attached>, parent: uint16, child: uint16, slot: uint8) returns (next: seq<Attached>)
    ensures next == Mount(mounts, parent, child, slot)
  {
    next := [];
    for i := 0 to |mounts|
      invariant next == Filter(mounts[..i], Elsewhere(parent, slot))
    {
      FilterSnoc(mounts[..i], mounts[i], Elsewhere(parent, slot));
      assert mounts[..i + 1] == mounts[..i] + [mounts[i]];
      if mounts[i].parent != parent || mounts[i].slot != slot {
        next := next + [mounts[i]];
      }
    }
    assert mounts[..|mounts|] == mounts;
    next := next + [Attached(parent, child, slot)];
  }

  method UnmountFrom(mounts: seq<Attached>, parent: uint16, child: uint16) returns (next: seq<Attached>)
    ensures next == Unmount(mounts, parent, child)
  {
    next := [];
    for i := 0 to |mounts|
      invariant next == Filter(mounts[..i], NotPair(parent, child))
    {
      FilterSnoc(mounts[..i], mounts[i], NotPair(parent, child));
      assert mounts[..i + 1] == mounts[..i] + [mounts[i]];
      if mounts[i].parent != parent || mounts[i].child != child {
        next := next + [mounts[i]];
      }
    }
    assert mounts[..|mounts|] == mounts;
  }
}
