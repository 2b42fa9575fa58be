/** What a login leaves behind, slot by slot. */
module LoginLaws {
  import opened Bytes
  import opened Seqs
  import opened Inventory
  import opened Economy
  import opened StoreLaws
  import LoginRepair

  /** An item of this serial has run out. */
  predicate Lapsed(inv: seq<Item>, serial: uint16, now: int) {
    exists i | 0 <= i < |inv| :: inv[i].serial == serial && RunOut(inv[i], now)
  }

  /** The entries of one slot, in their order. */
  function InSlot(loadout: seq<Equipped>, slot: uint8): seq<Equipped> {
    Keep(loadout, OfSlot(slot))
  }

  function OfSlot(slot: uint8): Equipped -> bool { (e: Equipped) => e.slot == slot }

  /** The entry names an owned item of this type. */
  predicate Wears(inv: seq<Item>, e: Equipped, itemType: uint8) {
    exists i | 0 <= i < |inv| :: ItemAt(inv, i, e.serial) && inv[i].itemType == itemType
  }

  /** A choice for a slot is valid when its item is of the slot's type. */
  predicate HasChoice(inv: seq<Item>, loadout: seq<Equipped>, slot: uint8) {
    exists k | 0 <= k < |loadout| :: loadout[k].slot == slot && Wears(inv, loadout[k], slot)
  }

  /** The first item of a type. */
  predicate FirstOfType(inv: seq<Item>, i: nat, itemType: uint8) {
    i < |inv| && inv[i].itemType == itemType && forall j | 0 <= j < i :: inv[j].itemType != itemType
  }

  /** What has not run out stays, in its order, and with it the entries and mounts that name nothing
      that has. */
  lemma PurgeIs(a: Account, now: int)
    ensures var p, inv := Purge(a, now), a.inventory;
      && p.inventory == Keep(inv, (item: Item) => !RunOut(item, now))
      && p.loadout == Keep(a.loadout, (e: Equipped) => !Lapsed(inv, e.serial, now))
      && p.attachments
         == Keep(a.attachments, (m: Attached) => !Lapsed(inv, m.parent, now) && !Lapsed(inv, m.child, now))
      && p == a.(inventory := p.inventory, loadout := p.loadout, attachments := p.attachments)
  {
    var inv, gone := a.inventory, Inventory.Gone(a.inventory, now);
    forall s: uint16 ensures s in gone <==> Lapsed(inv, s, now) {
      LapsedIs(inv, s, now);
    }
    hide Lapsed, Inventory.Gone;
    FilterSame(inv, Unexpired(now), (item: Item) => !RunOut(item, now));
    KeepIs(inv, (item: Item) => !RunOut(item, now));
    FilterSame(a.loadout, Worn(gone), (e: Equipped) => !Lapsed(inv, e.serial, now));
    KeepIs(a.loadout, (e: Equipped) => !Lapsed(inv, e.serial, now));
    var fits := (m: Attached) => !Lapsed(inv, m.parent, now) && !Lapsed(inv, m.child, now);
    FilterSame(a.attachments, Mounted(gone), fits);
    KeepIs(a.attachments, fits);
  }

  lemma LapsedIs(inv: seq<Item>, serial: uint16, now: int)
    ensures serial in Inventory.Gone(inv, now) <==> Lapsed(inv, serial, now)
  {
    LoginRepair.GoneIsExpired(inv, now, serial);
    if i :| 0 <= i < |inv| && inv[i].serial == serial && RunOut(inv[i], now) {
      assert inv[i] in inv;
    }
    hide Inventory.Gone;
  }

  lemma ChoiceIs(inv: seq<Item>, loadout: seq<Equipped>, slot: uint8)
    ensures slot in FilledSlots(inv, loadout) <==> HasChoice(inv, loadout, slot)
  {
    forall e: Equipped ensures Filled(inv, e) <==> Wears(inv, e, e.slot) {
      FilledIs(inv, e);
    }
    hide Filled, Wears;
    if k :| 0 <= k < |loadout| && loadout[k].slot == slot && Wears(inv, loadout[k], slot) {
      assert loadout[k] in loadout;
    }
  }

  lemma FilledIs(inv: seq<Item>, e: Equipped)
    ensures Filled(inv, e) <==> Wears(inv, e, e.slot)
  {
    var i := IndexOf(inv, WithSerial(e.serial));
    if i < |inv| {
      assert forall j | 0 <= j < i :: !WithSerial(e.serial)(inv[j]);
      assert ItemAt(inv, i, e.serial);
    }
    forall k | 0 <= k < |inv| && ItemAt(inv, k, e.serial) ensures k == i {
      FirstAt(inv, WithSerial(e.serial), k);
    }
  }

  lemma {:induction false} KeepKeep<T>(s: seq<T>, p: T -> bool, q: T -> bool, both: T -> bool)
    requires forall x :: both(x) <==> p(x) && q(x)
    ensures Keep(Keep(s, p), q) == Keep(s, both)
  {
    if s != [] {
      KeepKeep(s[1..], p, q, both);
      if p(s[0]) {
        assert ([s[0]] + Keep(s[1..], p))[1..] == Keep(s[1..], p);
      } else {
        assert Keep(s, p) == Keep(s[1..], p);
      }
    }
  }

  lemma {:induction false} KeepNone<T>(s: seq<T>, p: T -> bool)
    requires forall x :: !p(x)
    ensures Keep(s, p) == []
  {
    if s != [] {
      KeepNone(s[1..], p);
    }
  }

  /** Equipping fills its slot with one entry. */
  lemma EquipOwn(worn: seq<Equipped>, slot: uint8, serial: uint16)
    ensures InSlot(Inventory.Equip(worn, slot, serial), slot) == [Equipped(slot, serial)]
  {
    var entry, none := Equipped(slot, serial), (e: Equipped) => false;
    OtherSlots(worn, slot);
    var kept := Filter(worn, InOtherSlot(slot));
    KeepAppend(kept, [entry], OfSlot(slot));
    assert Keep([entry], OfSlot(slot)) == [entry];
    KeepKeep(worn, (e: Equipped) => e.slot != slot, OfSlot(slot), none);
    KeepNone(worn, none);
  }

  /** It leaves every other slot as it is. */
  lemma EquipOther(worn: seq<Equipped>, slot: uint8, serial: uint16, p: Equipped -> bool)
    requires forall e: Equipped | e.slot == slot :: !p(e)
    ensures Keep(Inventory.Equip(worn, slot, serial), p) == Keep(worn, p)
  {
    var entry := Equipped(slot, serial);
    OtherSlots(worn, slot);
    KeepAppend(Filter(worn, InOtherSlot(slot)), [entry], p);
    assert Keep([entry], p) == [];
    KeepKeep(worn, (e: Equipped) => e.slot != slot, p, p);
  }

  /** After the first `n` items: a slot with a valid choice is as it was; one without has the
      first item of its type, if there is one yet. */
  ghost predicate SlotDone(
    inv: seq<Item>, loadout: seq<Equipped>, worn: seq<Equipped>, filled: set<uint8>, n: nat, slot: uint8)
    requires n <= |inv|
  {
    if HasChoice(inv, loadout, slot) then InSlot(worn, slot) == InSlot(loadout, slot) && slot in filled
    else if exists j | 0 <= j < n :: inv[j].itemType == slot then
      slot in filled && forall i: nat | i < n && FirstOfType(inv, i, slot) ::
        InSlot(worn, slot) == [Equipped(slot, inv[i].serial)]
    else InSlot(worn, slot) == InSlot(loadout, slot) && slot !in filled
  }

  /** One more item, for one of the two character slots. */
  lemma SlotStep(
    inv: seq<Item>, loadout: seq<Equipped>, worn: seq<Equipped>, filled: set<uint8>, n: nat, slot: uint8)
    requires n < |inv| && slot in {0x0B, 0x0C} && SlotDone(inv, loadout, worn, filled, n, slot)
    ensures var item := inv[n];
      if item.itemType in {0x0B, 0x0C} && item.itemType !in filled
      then
        var next := Inventory.Equip(worn, item.itemType, item.serial);
        SlotDone(inv, loadout, next, filled + {item.itemType}, n + 1, slot)
      else SlotDone(inv, loadout, worn, filled, n + 1, slot)
  {
    hide HasChoice, InSlot, Inventory.Equip;
    var item := inv[n];
    if item.itemType in {0x0B, 0x0C} && item.itemType !in filled {
      if item.itemType == slot {
        EquipOwn(worn, slot, item.serial);
        assert FirstOfType(inv, n, slot);
      } else {
        OtherKept(worn, item.itemType, item.serial, slot);
      }
    }
  }

  lemma OtherKept(worn: seq<Equipped>, slot: uint8, serial: uint16, other: uint8)
    requires slot != other
    ensures InSlot(Inventory.Equip(worn, slot, serial), other) == InSlot(worn, other)
  {
    EquipOther(worn, slot, serial, OfSlot(other));
  }

  /** Any slot but the two character slots. */
  predicate OffFaction(e: Equipped) { e.slot !in {0x0B, 0x0C} }

  lemma {:induction false} DressesSlots(inv: seq<Item>, loadout: seq<Equipped>, n: nat, slot: uint8)
    requires n <= |inv| && slot in {0x0B, 0x0C}
    ensures SlotDone(inv, loadout, Dressed(inv, loadout, n).0, Dressed(inv, loadout, n).1, n, slot)
  {
    if n == 0 {
      hide FilledSlots, HasChoice;
      ChoiceIs(inv, loadout, slot);
    } else {
      hide SlotDone, Inventory.Equip, FilledSlots;
      DressesSlots(inv, loadout, n - 1, slot);
      var (worn, filled) := Dressed(inv, loadout, n - 1);
      SlotStep(inv, loadout, worn, filled, n - 1, slot);
    }
  }

  lemma {:induction false} DressesNoOther(inv: seq<Item>, loadout: seq<Equipped>, n: nat)
    requires n <= |inv|
    ensures Keep(Dressed(inv, loadout, n).0, OffFaction) == Keep(loadout, OffFaction)
  {
    if n > 0 {
      hide Keep, Inventory.Equip, FilledSlots;
      DressesNoOther(inv, loadout, n - 1);
      var (worn, filled) := Dressed(inv, loadout, n - 1);
      if inv[n - 1].itemType in {0x0B, 0x0C} {
        EquipOther(worn, inv[n - 1].itemType, inv[n - 1].serial, OffFaction);
      }
    }
  }

  /** A login purges what has run out, and of the loadout changes the two character slots alone. */
  lemma LoginKeeps(a: Account, now: int)
    ensures var l, inv := Login(a, now), a.inventory;
      && l.inventory == Keep(inv, (item: Item) => !RunOut(item, now))
      && l.attachments
         == Keep(a.attachments, (m: Attached) => !Lapsed(inv, m.parent, now) && !Lapsed(inv, m.child, now))
      && l == a.(inventory := l.inventory, loadout := l.loadout, attachments := l.attachments)
      && Keep(l.loadout, OffFaction) == Keep(a.loadout, (e: Equipped) => OffFaction(e) && !Lapsed(inv, e.serial, now))
  {
    var p := Purge(a, now);
    PurgeIs(a, now);
    DressesNoOther(p.inventory, p.loadout, |p.inventory|);
    hide Purge, Dressed, Lapsed, SlotDone;
    KeepKeep(a.loadout, (e: Equipped) => !Lapsed(a.inventory, e.serial, now), OffFaction,
      (e: Equipped) => OffFaction(e) && !Lapsed(a.inventory, e.serial, now));
  }

  /** Each character slot, 0x0B and 0x0C: with a valid choice among what has not run out its
      entries stay; without one it gets the first owned character of its type, if there is one. */
  lemma LoginSlot(a: Account, now: int, slot: uint8)
    requires slot in {0x0B, 0x0C}
    ensures var l, inv := Login(a, now), a.inventory;
      var stay := Keep(a.loadout, (e: Equipped) => !Lapsed(inv, e.serial, now));
      && (HasChoice(l.inventory, stay, slot) ==> InSlot(l.loadout, slot) == InSlot(stay, slot))
      && (!HasChoice(l.inventory, stay, slot) ==>
            && (forall i: nat | FirstOfType(l.inventory, i, slot) ::
                  InSlot(l.loadout, slot) == [Equipped(slot, l.inventory[i].serial)])
            && ((forall item | item in l.inventory :: item.itemType != slot) ==>
                  InSlot(l.loadout, slot) == InSlot(stay, slot)))
  {
    var p := Purge(a, now);
    PurgeIs(a, now);
    DressesSlots(p.inventory, p.loadout, |p.inventory|, slot);
    hide Purge, Dressed, Lapsed, Keep, HasChoice, InSlot;
  }

  /** So a faction with an owned character that has not run out always has one equipped. */
  lemma LoginEquips(a: Account, now: int, slot: uint8, item: Item)
    requires slot in {0x0B, 0x0C} && item in a.inventory && item.itemType == slot && !RunOut(item, now)
    ensures var l := Login(a, now);
      exists e, x :: e in l.loadout && e.slot == slot && x in l.inventory && x.serial == e.serial && x.itemType == slot
  {
    var l, inv := Login(a, now), a.inventory;
    var stay := Keep(inv, (x: Item) => !RunOut(x, now));
    LoginKeeps(a, now);
    LoginSlot(a, now, slot);
    KeepHas(inv, (x: Item) => !RunOut(x, now), item);
    hide Login;
    var kept := Keep(a.loadout, (e: Equipped) => !Lapsed(inv, e.serial, now));
    if k :| 0 <= k < |kept| && kept[k].slot == slot && Wears(l.inventory, kept[k], slot) {
      var i :| 0 <= i < |l.inventory| && ItemAt(l.inventory, i, kept[k].serial) && l.inventory[i].itemType == slot;
      SlotHas(kept, slot, kept[k]);
      SlotHas(l.loadout, slot, kept[k]);
      assert l.inventory[i] in l.inventory;
    } else {
      var i := IndexOf(l.inventory, (x: Item) => x.itemType == slot);
      assert l.inventory != [];
      FirstOne(l.inventory, slot, item, i);
      var e := Equipped(slot, l.inventory[i].serial);
      SlotHas(l.loadout, slot, e);
      assert e in [e] && l.inventory[i] in l.inventory;
    }
  }

  lemma FirstOne(inv: seq<Item>, slot: uint8, item: Item, i: nat)
    requires item in inv && item.itemType == slot && i == IndexOf(inv, (x: Item) => x.itemType == slot)
    ensures FirstOfType(inv, i, slot)
  {
    var p := (x: Item) => x.itemType == slot;
    var k :| 0 <= k < |inv| && inv[k] == item;
    assert p(inv[k]);
    assert forall j | 0 <= j < i :: !p(inv[j]);
  }

  lemma {:induction false} KeepHas<T>(s: seq<T>, p: T -> bool, x: T)
    ensures x in Keep(s, p) <==> x in s && p(x)
  {
    if s != [] {
      KeepHas(s[1..], p, x);
      assert s == [s[0]] + s[1..];
    }
  }

  lemma SlotHas(loadout: seq<Equipped>, slot: uint8, e: Equipped)
    ensures e in InSlot(loadout, slot) <==> e in loadout && e.slot == slot
  {
    KeepHas(loadout, OfSlot(slot), e);
  }
}
