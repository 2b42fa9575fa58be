/** Loadouts and mounts: one item a slot, in every run, and what one call sets. */
module Equipment {
  import opened Bytes
  import opened Wrappers
  import opened Seqs
  import opened Catalog
  import opened Inventory
  import opened Economy
  import opened EconomyRuns
  import opened LoginRepair

  /** One child in a slot of a parent. */
  predicate MountsUnique(mounts: seq<Attached>) {
    forall i, j | 0 <= i < j < |mounts| :: mounts[i].parent != mounts[j].parent || mounts[i].slot != mounts[j].slot
  }

  lemma {:induction false} FilterMounts(mounts: seq<Attached>, p: Attached -> bool)
    requires MountsUnique(mounts)
    ensures MountsUnique(Filter(mounts, p))
  {
    if mounts != [] {
      var n := |mounts| - 1;
      FilterMounts(mounts[..n], p);
      FilterHas(mounts[..n], p);
      assert forall m | m in mounts[..n] :: m.parent != mounts[n].parent || m.slot != mounts[n].slot;
    }
  }

  lemma MountUnique(mounts: seq<Attached>, parent: uint16, child: uint16, slot: uint8)
    requires MountsUnique(mounts)
    ensures MountsUnique(Mount(mounts, parent, child, slot))
  {
    var kept := Filter(mounts, Elsewhere(parent, slot));
    FilterMounts(mounts, Elsewhere(parent, slot));
    FilterHas(mounts, Elsewhere(parent, slot));
    forall i | 0 <= i < |kept| ensures kept[i].parent != parent || kept[i].slot != slot {
      assert kept[i] in kept;
    }
  }

  lemma {:induction false} ArmedUnique(a: Account, loadout: seq<Equipped>, serials: seq<uint16>, now: int)
    requires SlotsUnique(loadout) && Armed(a, loadout, serials, now).Success?
    ensures SlotsUnique(Armed(a, loadout, serials, now).value)
    decreases |serials|
  {
    if serials != [] {
      if serials[0] == 0 {
        ArmedUnique(a, loadout, serials[1..], now);
      } else {
        var item := Owned(a, serials[0]).value;
        EquipUnique(loadout, item.itemType, serials[0]);
        ArmedUnique(a, Inventory.Equip(loadout, item.itemType, serials[0]), serials[1..], now);
      }
    }
  }

  predicate PlacesOk(a: Account) {
    SlotsUnique(a.loadout) && MountsUnique(a.attachments)
  }

  /** Whatever is called, no slot ever holds two items and no place on a parent two parts. */
  lemma StepPlaces(cat: Catalog, a: Account, op: Op)
    requires AccountOk(cat, a) && PlacesOk(a)
    ensures PlacesOk(Apply(cat, a, op))
  {
    hide SlotsUnique, MountsUnique, Inventory.Equip, Mount, Unmount, Filter, Buy, Craft, SpendConsumable, Dressed;
    match op
    case LogIn(now) =>
      var gone := Gone(a.inventory, now);
      FilterSlots(a.loadout, Worn(gone));
      FilterMounts(a.attachments, Mounted(gone));
      LoginDresses(a, now);
    case Wear(serial, now) =>
      if Owned(a, serial).Some? { EquipUnique(a.loadout, Owned(a, serial).value.itemType, serial); }
    case WearAll(serials, now) =>
      if Armed(a, a.loadout, serials, now).Success? { ArmedUnique(a, a.loadout, serials, now); }
    case Fit(parent, child, now) => AttachPlaces(cat, a, parent, child, now);
    case Unfit(parent, child) =>
      UnmountUnique(a.attachments, parent, child);
    case Purchase(index, now) => BuyPlaces(cat, a, index, now);
    case PurchasePart(weapon, index, now, later) =>
      BuyPlaces(cat, a, index, now);
      if Buy(cat, a, index, now).Success? {
        AttachPlaces(cat, Buy(cat, a, index, now).value.account, weapon, Buy(cat, a, index, now).value.item.serial,
            later);
      }
    case Make(recipeID, now) => CraftPlaces(cat, a, recipeID, now);
    case UseUp(f) => SpendPlaces(cat, a, f);
  }

  lemma {:induction false} PlacesKept(cat: Catalog, a: Account, ops: seq<Op>)
    requires AccountOk(cat, a) && PlacesOk(a)
    ensures AccountOk(cat, Run(cat, a, ops)) && PlacesOk(Run(cat, a, ops))
  {
    if ops != [] {
      PlacesKept(cat, a, ops[..|ops| - 1]);
      StepOk(cat, Run(cat, a, ops[..|ops| - 1]), ops[|ops| - 1]);
      StepPlaces(cat, Run(cat, a, ops[..|ops| - 1]), ops[|ops| - 1]);
    }
  }

  /** The i-th starter item is known and goes in this slot. */
  predicate SlotIs(cat: Catalog, i: nat, slot: uint8)
    requires i < |STARTER_ITEMS|
  {
    STARTER_ITEMS[i] in cat.items && ItemType(cat.items[STARTER_ITEMS[i]]) == slot
  }

  /** No two of the first `n` starter items go in one slot. */
  predicate StartersApart(cat: Catalog, n: nat)
    requires n <= |STARTER_ITEMS|
  {
    forall i, j, slot | 0 <= i < j < n :: !(SlotIs(cat, i, slot) && SlotIs(cat, j, slot))
  }

  predicate HasSlot(loadout: seq<Equipped>, slot: uint8) {
    exists e | e in loadout :: e.slot == slot
  }

  predicate StarterFor(cat: Catalog, n: nat, slot: uint8)
    requires n <= |STARTER_ITEMS|
  {
    exists i | 0 <= i < n :: SlotIs(cat, i, slot)
  }

  lemma SlotsSnoc(loadout: seq<Equipped>, e: Equipped)
    ensures SlotsUnique(loadout + [e]) <==> SlotsUnique(loadout) && !HasSlot(loadout, e.slot)
    ensures forall slot :: HasSlot(loadout + [e], slot) <==> HasSlot(loadout, slot) || slot == e.slot
  {
    var more := loadout + [e];
    assert more[..|loadout|] == loadout && more[|loadout|] == e;
    if SlotsUnique(more) {
      forall i, j | 0 <= i < j < |loadout| ensures loadout[i].slot != loadout[j].slot {
        assert more[i] == loadout[i] && more[j] == loadout[j];
      }
    }
  }

  /** One more starter item is apart when no earlier one has its slot. */
  lemma StartersStep(cat: Catalog, n: nat)
    requires n < |STARTER_ITEMS|
    ensures forall s :: StarterFor(cat, n + 1, s) <==> StarterFor(cat, n, s) || SlotIs(cat, n, s)
    ensures StartersApart(cat, n + 1) <==>
      StartersApart(cat, n) && forall s | SlotIs(cat, n, s) :: !StarterFor(cat, n, s)
  {
    hide SlotIs;
    if StartersApart(cat, n + 1) {
      forall s | SlotIs(cat, n, s) ensures !StarterFor(cat, n, s) {
        if i :| 0 <= i < n && SlotIs(cat, i, s) {
          assert false;
        }
      }
    }
  }

  lemma {:induction false} KitSlots(cat: Catalog, n: nat, now: int)
    requires n <= |STARTER_ITEMS|
    ensures forall slot :: HasSlot(Kit(cat, n, now).1, slot) <==> StarterFor(cat, n, slot)
    ensures SlotsUnique(Kit(cat, n, now).1) <==> StartersApart(cat, n)
  {
    hide SlotsUnique, StartersApart, HasSlot, StarterFor, ItemType;
    if n > 0 {
      KitSlots(cat, n - 1, now);
      StartersStep(cat, n - 1);
      var before, index := Kit(cat, n - 1, now), STARTER_ITEMS[n - 1];
      if index in cat.items {
        assert SlotIs(cat, n - 1, ItemType(cat.items[index]));
        SlotsSnoc(before.1, Equipped(ItemType(cat.items[index]), |before.0| + 1));
      }
    } else {
      KitStart(cat, now);
    }
  }

  lemma KitStart(cat: Catalog, now: int)
    ensures Kit(cat, 0, now).1 == [] && SlotsUnique([]) && StartersApart(cat, 0)
    ensures forall slot :: !HasSlot([], slot) && !StarterFor(cat, 0, slot)
  {
  }

  /** A new account has one item a slot exactly when the catalog keeps its starter items apart:
      the kit is appended, not equipped. */
  lemma NewAccountPlaces(cat: Catalog, point: uint64, cash: uint64, now: int)
    ensures PlacesOk(NewAccount(cat, point, cash, now)) <==> StartersApart(cat, |STARTER_ITEMS|)
  {
    KitSlots(cat, |STARTER_ITEMS|, now);
    hide Kit, StartersApart;
  }

  /** One catalog that puts the first two starter items in one slot. */
  lemma StartersCollide(point: uint64, cash: uint64, now: int)
    ensures var cat := Catalog(map[11100101 := NO_ITEM, 12100101 := NO_ITEM], map[], map[]);
      !PlacesOk(NewAccount(cat, point, cash, now))
  {
    var cat := Catalog(map[11100101 := NO_ITEM, 12100101 := NO_ITEM], map[], map[]);
    assert SlotIs(cat, 0, ItemType(NO_ITEM)) && SlotIs(cat, 1, ItemType(NO_ITEM));
    NewAccountPlaces(cat, point, cash, now);
  }

  /** With such a catalog, from a new account on, no slot ever holds two items and no place on
      a parent two parts. */
  lemma RunPlaces(cat: Catalog, point: uint64, cash: uint64, now: int, ops: seq<Op>)
    requires StartersApart(cat, |STARTER_ITEMS|)
    ensures PlacesOk(Run(cat, NewAccount(cat, point, cash, now), ops))
  {
    RunOk(cat, point, cash, now, []);
    NewAccountPlaces(cat, point, cash, now);
    PlacesKept(cat, NewAccount(cat, point, cash, now), ops);
    hide NewAccount;
  }

  lemma UnmountUnique(mounts: seq<Attached>, parent: uint16, child: uint16)
    requires MountsUnique(mounts)
    ensures MountsUnique(Unmount(mounts, parent, child))
  {
    FilterMounts(mounts, NotPair(parent, child));
  }

  lemma AttachPlaces(cat: Catalog, a: Account, parent: uint16, child: uint16, now: int)
    requires PlacesOk(a)
    ensures Attach(cat, a, parent, child, now).Success? ==> PlacesOk(Attach(cat, a, parent, child, now).value.0)
  {
    if Owned(a, child).Some? {
      MountUnique(a.attachments, parent, child, Owned(a, child).value.itemType);
    }
    hide MountsUnique, SlotsUnique, Mount;
  }

  lemma BuyPlaces(cat: Catalog, a: Account, index: uint32, now: int)
    requires PlacesOk(a)
    ensures Buy(cat, a, index, now).Success? ==> PlacesOk(Buy(cat, a, index, now).value.account)
  {
    hide SlotsUnique, MountsUnique, AddToInventory;
  }

  lemma CraftPlaces(cat: Catalog, a: Account, recipeID: uint32, now: int)
    requires PlacesOk(a)
    ensures Craft(cat, a, recipeID, now).Success? ==> PlacesOk(Craft(cat, a, recipeID, now).value.account)
  {
    hide SlotsUnique, MountsUnique, Consume, NeedFor, NewItem;
  }

  lemma SpendPlaces(cat: Catalog, a: Account, f: int)
    requires PlacesOk(a)
    ensures SpendConsumable(cat, a, f).Success? ==> PlacesOk(SpendConsumable(cat, a, f).value.0)
  {
    hide SlotsUnique, MountsUnique;
  }

  // ------------------------------------------------------ what a call sets

  /** The last weapon of the list that goes in this slot. */
  function LastFor(a: Account, serials: seq<uint16>, slot: uint8): Option<uint16> {
    if serials == [] then None
    else
      var serial := serials[|serials| - 1];
      if serial != 0 && Owned(a, serial).Some? && Owned(a, serial).value.itemType == slot then Some(serial)
      else LastFor(a, serials[..|serials| - 1], slot)
  }

  /** Each slot named by the list holds the last weapon for it, alone; every other slot is as
      it was. */
  lemma {:induction false} ArmedSets(a: Account, loadout: seq<Equipped>, serials: seq<uint16>, now: int, e: Equipped)
    requires Armed(a, loadout, serials, now).Success?
    ensures e in Armed(a, loadout, serials, now).value <==>
      match LastFor(a, serials, e.slot) case Some(serial) => e.serial == serial case None => e in loadout
    decreases |serials|
  {
    if serials != [] {
      LastForCons(a, serials, e.slot);
      if serials[0] == 0 {
        ArmedSets(a, loadout, serials[1..], now, e);
      } else {
        var item := Owned(a, serials[0]).value;
        EquipHas(loadout, item.itemType, serials[0], e);
        ArmedSets(a, Inventory.Equip(loadout, item.itemType, serials[0]), serials[1..], now, e);
      }
    }
  }

  lemma {:induction false} LastForCons(a: Account, serials: seq<uint16>, slot: uint8)
    requires serials != []
    ensures LastFor(a, serials, slot) ==
      (match LastFor(a, serials[1..], slot)
       case Some(serial) => Some(serial)
       case None => LastFor(a, [serials[0]], slot))
    decreases |serials|
  {
    var n := |serials| - 1;
    if n > 0 {
      LastForCons(a, serials[..n], slot);
      assert serials[..n][1..] == serials[1..][..n - 1];
      assert serials[..n][0] == serials[0];
    } else {
      assert serials == [serials[0]];
    }
  }

  /** Nothing of this list is in the way of the new mount, nor the same pair mounted elsewhere. */
  predicate PlaceFree(mounts: seq<Attached>, parent: uint16, child: uint16, slot: uint8) {
    forall m | m in mounts :: m.parent == parent ==> m.slot != slot && m.child != child
  }

  /** Detaching undoes attaching exactly when the place was free and the pair not yet mounted. */
  lemma DetachUndoesAttach(mounts: seq<Attached>, parent: uint16, child: uint16, slot: uint8)
    ensures Unmount(Mount(mounts, parent, child, slot), parent, child) == mounts
        <==> PlaceFree(mounts, parent, child, slot)
  {
    var kept := Filter(mounts, Elsewhere(parent, slot));
    FilterSnoc(kept, Attached(parent, child, slot), NotPair(parent, child));
    FilterHas(mounts, Elsewhere(parent, slot));
    FilterHas(kept, NotPair(parent, child));
    if PlaceFree(mounts, parent, child, slot) {
      FilterAll(mounts, Elsewhere(parent, slot));
      FilterAll(mounts, NotPair(parent, child));
    } else {
      var m :| m in mounts && m.parent == parent && (m.slot == slot || m.child == child);
      assert m !in Filter(kept, NotPair(parent, child));
    }
  }
}
