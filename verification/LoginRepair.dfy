/** What a login repairs: nothing expired stays, and every faction has a character again. */
module LoginRepair {
  import opened Bytes
  import opened Seqs
  import opened Inventory
  import opened PlayerModel
  import opened Economy

  predicate SlotsUnique(loadout: seq<Equipped>) {
    forall i, j | 0 <= i < j < |loadout| :: loadout[i].slot != loadout[j].slot
  }

  lemma {:induction false} FilterSlots(loadout: seq<Equipped>, p: Equipped -> bool)
    requires SlotsUnique(loadout)
    ensures SlotsUnique(Filter(loadout, p))
  {
    if loadout != [] {
      var n := |loadout| - 1;
      FilterSlots(loadout[..n], p);
      FilterHas(loadout[..n], p);
      assert forall e | e in loadout[..n] :: e.slot != loadout[n].slot;
    }
  }

  lemma EquipUnique(loadout: seq<Equipped>, slot: uint8, serial: uint16)
    requires SlotsUnique(loadout)
    ensures SlotsUnique(Inventory.Equip(loadout, slot, serial))
  {
    FilterSlots(loadout, InOtherSlot(slot));
    FilterHas(loadout, InOtherSlot(slot));
    var kept := Filter(loadout, InOtherSlot(slot));
    forall i | 0 <= i < |kept| ensures kept[i].slot != slot {
      assert kept[i] in kept;
    }
  }

  lemma EquipHas(loadout: seq<Equipped>, slot: uint8, serial: uint16, e: Equipped)
    ensures e in Inventory.Equip(loadout, slot, serial) <==>
            e == Equipped(slot, serial) || (e in loadout && e.slot != slot)
  {
    FilterHas(loadout, InOtherSlot(slot));
  }

  /** The loadout after the first `n` items, against the one before. */
  predicate DressOk(inv: seq<Item>, loadout: seq<Equipped>, worn: seq<Equipped>, filled: set<uint8>, n: nat)
    requires n <= |inv|
  {
    && filled == FilledSlots(inv, worn)
    && (forall k | 0 <= k < n && IsCharacter(inv[k].itemType) :: inv[k].itemType in filled)
    && (forall e | e in loadout && (Filled(inv, e) || !IsCharacter(e.slot)) :: e in worn)
    && (forall e | e in worn :: e in loadout || e.serial in Serials(inv))
    && (SlotsUnique(loadout) ==> SlotsUnique(worn))
  }

  lemma FilledByEquip(inv: seq<Item>, worn: seq<Equipped>, item: Item)
    requires Distinct(Serials(inv)) && item in inv && item.itemType !in FilledSlots(inv, worn)
    ensures FilledSlots(inv, Inventory.Equip(worn, item.itemType, item.serial))
         == FilledSlots(inv, worn) + {item.itemType}
  {
    var next, e' := Inventory.Equip(worn, item.itemType, item.serial), Equipped(item.itemType, item.serial);
    FindItem(inv, item);
    hide Find;
    EquipHas(worn, item.itemType, item.serial, e');
    forall slot ensures slot in FilledSlots(inv, next) <==> slot in FilledSlots(inv, worn) + {item.itemType} {
      if slot in FilledSlots(inv, next) {
        var e :| e in next && Filled(inv, e) && e.slot == slot;
        EquipHas(worn, item.itemType, item.serial, e);
      }
      if slot in FilledSlots(inv, worn) {
        var e :| e in worn && Filled(inv, e) && e.slot == slot;
        EquipHas(worn, item.itemType, item.serial, e);
      }
    }
  }

  lemma EquipStep(inv: seq<Item>, loadout: seq<Equipped>, worn: seq<Equipped>, filled: set<uint8>, n: nat)
    requires Distinct(Serials(inv)) && n < |inv| && DressOk(inv, loadout, worn, filled, n)
    requires IsCharacter(inv[n].itemType) && inv[n].itemType !in filled
    ensures var item := inv[n];
      DressOk(inv, loadout, Inventory.Equip(worn, item.itemType, item.serial), filled + {item.itemType}, n + 1)
  {
    var item := inv[n];
    var next := Inventory.Equip(worn, item.itemType, item.serial);
    FilledByEquip(inv, worn, item);
    SerialIn(inv, item);
    if SlotsUnique(loadout) {
      EquipUnique(worn, item.itemType, item.serial);
    }
    forall e
      ensures e in next <==> e == Equipped(item.itemType, item.serial) || (e in worn && e.slot != item.itemType)
    {
      EquipHas(worn, item.itemType, item.serial, e);
    }
    hide Find, Serials, Inventory.Equip, SlotsUnique;
    forall e | e in loadout && (Filled(inv, e) || !IsCharacter(e.slot)) ensures e in next {
      assert Filled(inv, e) ==> e.slot in FilledSlots(inv, worn);
    }
  }

  lemma SkipStep(inv: seq<Item>, loadout: seq<Equipped>, worn: seq<Equipped>, filled: set<uint8>, n: nat)
    requires n < |inv| && DressOk(inv, loadout, worn, filled, n)
    requires !IsCharacter(inv[n].itemType) || inv[n].itemType in filled
    ensures DressOk(inv, loadout, worn, filled, n + 1)
  {
    hide Filled, FilledSlots, SlotsUnique, Serials;
  }

  lemma StartStep(inv: seq<Item>, loadout: seq<Equipped>)
    ensures DressOk(inv, loadout, loadout, FilledSlots(inv, loadout), 0)
  {
    hide Filled, FilledSlots, SlotsUnique, Serials;
  }

  lemma {:induction false} DressedOk(inv: seq<Item>, loadout: seq<Equipped>, n: nat)
    requires Distinct(Serials(inv)) && n <= |inv|
    ensures DressOk(inv, loadout, Dressed(inv, loadout, n).0, Dressed(inv, loadout, n).1, n)
  {
    hide DressOk, FilledSlots, Serials, IsCharacter, Inventory.Equip;
    if n == 0 {
      StartStep(inv, loadout);
    } else {
      DressedOk(inv, loadout, n - 1);
      var (worn, filled) := Dressed(inv, loadout, n - 1);
      if IsCharacter(inv[n - 1].itemType) && inv[n - 1].itemType !in filled {
        EquipStep(inv, loadout, worn, filled, n - 1);
      } else {
        SkipStep(inv, loadout, worn, filled, n - 1);
      }
    }
  }

  /** Nothing left to do changes nothing. */
  lemma {:induction false} DressedStays(inv: seq<Item>, loadout: seq<Equipped>, n: nat)
    requires n <= |inv|
    requires forall k | 0 <= k < |inv| && IsCharacter(inv[k].itemType) :: inv[k].itemType in FilledSlots(inv, loadout)
    ensures Dressed(inv, loadout, n) == (loadout, FilledSlots(inv, loadout))
  {
    if n > 0 {
      DressedStays(inv, loadout, n - 1);
    }
  }

  /** The entry for an owned character of the slot, or any other entry, whose item is not purged. */
  predicate ValidChoice(a: Account, e: Equipped, now: int) {
    e in a.loadout && e.serial !in Gone(a.inventory, now) && (e.slot in {0x0B, 0x0C} ==> Filled(a.inventory, e))
  }

  lemma GoneIsExpired(inv: seq<Item>, now: int, serial: uint16)
    ensures serial in Gone(inv, now) <==> exists item | item in inv :: item.serial == serial && IsExpired(item, now)
  {
    FilterHas(inv, Expired(now));
    var expired := Filter(inv, Expired(now));
    if serial in Gone(inv, now) {
      var k :| 0 <= k < |expired| && Serials(expired)[k] == serial;
      assert expired[k] in inv && IsExpired(expired[k], now);
    }
    if item :| item in inv && item.serial == serial && IsExpired(item, now) {
      assert item in expired;
      SerialIn(expired, item);
    }
  }

  lemma LoginPurges(a: Account, now: int)
    requires Distinct(Serials(a.inventory))
    ensures var l := Login(a, now);
      && (forall item | item in l.inventory :: item in a.inventory && !IsExpired(item, now))
      && (forall e | e in l.loadout :: e.serial !in Gone(a.inventory, now))
      && (forall m | m in l.attachments :: m.parent !in Gone(a.inventory, now) && m.child !in Gone(a.inventory, now))
  {
    var p, gone := Purge(a, now), Gone(a.inventory, now);
    FilterHas(a.inventory, Unexpired(now));
    FilterHas(a.loadout, Worn(gone));
    FilterHas(a.attachments, Mounted(gone));
    FilterSerials(a.inventory, Unexpired(now));
    DressedOk(p.inventory, p.loadout, |p.inventory|);
    forall s | s in Serials(p.inventory) ensures s !in gone {
      FindSerial(p.inventory, s);
      var kept := Find(p.inventory, WithSerial(s)).value;
      GoneIsExpired(a.inventory, now, s);
      if item :| item in a.inventory && item.serial == s && IsExpired(item, now) {
        FindItem(a.inventory, item);
        FindItem(a.inventory, kept);
      }
    }
  }

  lemma LoginDresses(a: Account, now: int)
    requires Distinct(Serials(a.inventory))
    ensures var l := Login(a, now);
      && (SlotsUnique(a.loadout) ==> SlotsUnique(l.loadout))
      && (forall item | item in l.inventory && item.itemType in {0x0B, 0x0C} ::
            exists e | e in l.loadout :: e.slot == item.itemType && Filled(l.inventory, e))
      && (forall e | ValidChoice(a, e, now) :: e in l.loadout)
  {
    var p, gone := Purge(a, now), Gone(a.inventory, now);
    FilterHas(a.loadout, Worn(gone));
    FilterSerials(a.inventory, Unexpired(now));
    DressedOk(p.inventory, p.loadout, |p.inventory|);
    if SlotsUnique(a.loadout) {
      FilterSlots(a.loadout, Worn(gone));
    }
    forall e | ValidChoice(a, e, now) ensures e in Login(a, now).loadout {
      if e.slot in {0x0B, 0x0C} {
        StillFilled(a, e, now);
      }
    }
  }

  lemma StillFilled(a: Account, e: Equipped, now: int)
    requires Distinct(Serials(a.inventory)) && Filled(a.inventory, e) && e.serial !in Gone(a.inventory, now)
    ensures Filled(Purge(a, now).inventory, e)
  {
    var inv := Purge(a, now).inventory;
    FindSerial(a.inventory, e.serial);
    var item := Find(a.inventory, WithSerial(e.serial)).value;
    GoneIsExpired(a.inventory, now, e.serial);
    FilterHas(a.inventory, Unexpired(now));
    FilterSerials(a.inventory, Unexpired(now));
    assert item in inv;
    FindItem(inv, item);
  }

  /** A second login at the same time finds nothing to repair. */
  lemma LoginIdempotent(a: Account, now: int)
    requires Distinct(Serials(a.inventory))
    ensures Login(Login(a, now), now) == Login(a, now)
  {
    var l, p := Login(a, now), Purge(a, now);
    FilterHas(a.inventory, Unexpired(now));
    forall i | 0 <= i < |l.inventory| ensures !Expired(now)(l.inventory[i]) {
      assert l.inventory[i] in l.inventory;
    }
    FilterNone(l.inventory, Expired(now));
    NothingGone(l, now);
    FilterSerials(a.inventory, Unexpired(now));
    DressedOk(p.inventory, p.loadout, |p.inventory|);
    DressedStays(l.inventory, l.loadout, |l.inventory|);
  }
}
