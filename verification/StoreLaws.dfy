/** What each call of the player service asks for and does, in list places, catalog columns and
    numbers. */
module StoreLaws {
  import opened Bytes
  import opened Wrappers
  import opened Seqs
  import opened Catalog
  import opened Inventory
  import opened PlayerModel
  import opened Economy
  import opened EconomyRuns

  /** The item that a serial stands for: the first that has it. */
  predicate ItemAt(inv: seq<Item>, i: nat, serial: uint16) {
    i < |inv| && inv[i].serial == serial && forall j | 0 <= j < i :: inv[j].serial != serial
  }

  predicate NoItem(inv: seq<Item>, serial: uint16) {
    forall i | 0 <= i < |inv| :: inv[i].serial != serial
  }

  /** The first stack of an item. */
  predicate StackAt(inv: seq<Item>, i: nat, index: uint32) {
    i < |inv| && inv[i].index == index && forall j | 0 <= j < i :: inv[j].index != index
  }

  /** A serial that a new item may have. */
  predicate Free(inv: seq<Item>, serial: uint16) {
    1 <= serial <= 65534 && NoItem(inv, serial)
  }

  predicate LeastFree(inv: seq<Item>, serial: uint16) {
    Free(inv, serial) && forall s: uint16 | s < serial :: !Free(inv, s)
  }

  predicate RunOut(item: Item, now: int) {
    item.expiry.At? && item.expiry.ns <= now
  }

  /** The elements that are kept, in their order. */
  function Keep<T>(s: seq<T>, p: T -> bool): seq<T> {
    if s == [] then [] else (if p(s[0]) then [s[0]] else []) + Keep(s[1..], p)
  }

  lemma {:induction false} KeepAppend<T>(s: seq<T>, t: seq<T>, p: T -> bool)
    ensures Keep(s + t, p) == Keep(s, p) + Keep(t, p)
  {
    hide Keep;
    if s == [] {
      assert s + t == t;
      KeepNothing(p);
    } else {
      assert (s + t)[1..] == s[1..] + t && (s + t)[0] == s[0];
      KeepAppend(s[1..], t, p);
      KeepCons(s, p);
      KeepCons(s + t, p);
    }
  }

  lemma KeepNothing<T>(p: T -> bool)
    ensures Keep([], p) == []
  {
  }

  lemma KeepCons<T>(s: seq<T>, p: T -> bool)
    requires s != []
    ensures Keep(s, p) == (if p(s[0]) then [s[0]] else []) + Keep(s[1..], p)
  {
  }

  lemma {:induction false} KeepIs<T>(s: seq<T>, p: T -> bool)
    ensures Filter(s, p) == Keep(s, p)
  {
    if s != [] {
      var n := |s| - 1;
      KeepIs(s[..n], p);
      assert s == s[..n] + [s[n]];
      KeepAppend(s[..n], [s[n]], p);
      assert Keep([s[n]], p) == if p(s[n]) then [s[n]] else [];
    }
  }

  lemma OwnedIs(a: Account, i: nat, serial: uint16)
    requires ItemAt(a.inventory, i, serial)
    ensures Owned(a, serial) == Some(a.inventory[i])
  {
    FirstAt(a.inventory, WithSerial(serial), i);
  }

  lemma NotOwned(a: Account, serial: uint16)
    requires NoItem(a.inventory, serial)
    ensures Owned(a, serial) == None
  {
    FirstAt(a.inventory, WithSerial(serial), |a.inventory|);
  }

  lemma StackIs(inv: seq<Item>, i: nat, index: uint32)
    requires StackAt(inv, i, index)
    ensures IndexOf(inv, OfIndex(index)) == i
  {
    FirstAt(inv, OfIndex(index), i);
  }

  lemma FreeIs(inv: seq<Item>, serial: uint16)
    ensures NoItem(inv, serial) <==> serial !in Serials(inv)
  {
    forall i | 0 <= i < |inv| ensures Serials(inv)[i] == inv[i].serial {
    }
  }

  /** A new item's serial is the least free one; there is none exactly when it would be zero. */
  lemma SerialIs(inv: seq<Item>)
    ensures NextSerial(inv) != 0 <==> exists s: uint16 :: Free(inv, s)
    ensures NextSerial(inv) != 0 ==> LeastFree(inv, NextSerial(inv))
  {
    NextSerialLeast(inv);
    hide NextSerial, Serials, NoItem;
    forall s: uint16 ensures NoItem(inv, s) <==> s !in Serials(inv) {
      FreeIs(inv, s);
    }
    if NextSerial(inv) != 0 {
      assert Free(inv, NextSerial(inv));
    }
  }

  // ------------------------------------------------------------ equipment

  /** An owned item that has not run out goes into its own slot; the other slots stay. */
  lemma EquipEffect(a: Account, serial: uint16, now: int)
    ensures NoItem(a.inventory, serial) ==> Economy.Equip(a, serial, now) == Failure(ItemNotOwned)
    ensures forall i: nat | ItemAt(a.inventory, i, serial) ::
      var item := a.inventory[i];
      Economy.Equip(a, serial, now) ==
        if RunOut(item, now) then Failure(ItemExpired)
        else Success(a.(loadout :=
            Keep(a.loadout, (e: Equipped) => e.slot != item.itemType) + [Equipped(item.itemType, serial)]))
  {
    if NoItem(a.inventory, serial) {
      NotOwned(a, serial);
    }
    forall i: nat | ItemAt(a.inventory, i, serial) ensures Owned(a, serial) == Some(a.inventory[i])
      ensures var slot := a.inventory[i].itemType;
        Inventory.Equip(a.loadout, slot, serial)
        == Keep(a.loadout, (e: Equipped) => e.slot != slot) + [Equipped(slot, serial)]
    {
      OwnedIs(a, i, serial);
      OtherSlots(a.loadout, a.inventory[i].itemType);
    }
    hide Owned, Inventory.Equip, Keep;
  }

  lemma OtherSlots(loadout: seq<Equipped>, slot: uint8)
    ensures Filter(loadout, InOtherSlot(slot)) == Keep(loadout, (e: Equipped) => e.slot != slot)
  {
    FilterSame(loadout, InOtherSlot(slot), (e: Equipped) => e.slot != slot);
    KeepIs(loadout, (e: Equipped) => e.slot != slot);
  }

  /** Zero, or an owned item that has not run out. */
  ghost predicate Wearable(inv: seq<Item>, serial: uint16, now: int) {
    serial == 0 || exists i: nat :: ItemAt(inv, i, serial) && !RunOut(inv[i], now)
  }

  lemma OwnedOrNot(a: Account, serial: uint16)
    ensures Owned(a, serial).None? ==> NoItem(a.inventory, serial)
    ensures Owned(a, serial).Some? ==>
      exists i: nat :: ItemAt(a.inventory, i, serial) && Owned(a, serial).value == a.inventory[i]
    ensures forall i: nat | ItemAt(a.inventory, i, serial) :: Owned(a, serial) == Some(a.inventory[i])
  {
    var k := IndexOf(a.inventory, WithSerial(serial));
    if k < |a.inventory| {
      assert forall j | 0 <= j < k :: !WithSerial(serial)(a.inventory[j]);
      assert ItemAt(a.inventory, k, serial);
    } else {
      assert forall j | 0 <= j < k :: !WithSerial(serial)(a.inventory[j]);
    }
    forall i: nat | ItemAt(a.inventory, i, serial) ensures Owned(a, serial) == Some(a.inventory[i]) {
      OwnedIs(a, i, serial);
    }
  }

  lemma WearableIs(a: Account, serial: uint16, now: int)
    requires serial != 0
    ensures Wearable(a.inventory, serial, now)
        <==> Owned(a, serial).Some? && !IsExpired(Owned(a, serial).value, now)
  {
    OwnedOrNot(a, serial);
    hide Owned, ItemAt;
  }

  /** A weapon list goes through exactly when every serial in it is wearable. */
  lemma {:induction false} WeaponsWhen(a: Account, loadout: seq<Equipped>, serials: seq<uint16>, now: int)
    ensures Armed(a, loadout, serials, now).Success? <==>
      forall k | 0 <= k < |serials| :: Wearable(a.inventory, serials[k], now)
    decreases |serials|
  {
    if serials != [] {
      hide Owned, Inventory.Equip, Wearable, IsExpired;
      AllOf(a.inventory, serials, now);
      if serials[0] == 0 {
        ZeroIsWearable(a.inventory, now);
        WeaponsWhen(a, loadout, serials[1..], now);
      } else {
        WearableIs(a, serials[0], now);
        if Wearable(a.inventory, serials[0], now) {
          WeaponsWhen(a, Inventory.Equip(loadout, Owned(a, serials[0]).value.itemType, serials[0]), serials[1..], now);
        }
      }
    }
  }

  lemma ZeroIsWearable(inv: seq<Item>, now: int)
    ensures Wearable(inv, 0, now)
  {
  }

  lemma AllOf(inv: seq<Item>, serials: seq<uint16>, now: int)
    requires serials != []
    ensures (forall k | 0 <= k < |serials| :: Wearable(inv, serials[k], now)) <==>
      Wearable(inv, serials[0], now) && forall k | 0 <= k < |serials[1..]| :: Wearable(inv, serials[1..][k], now)
  {
    hide Wearable;
    assert forall k | 1 <= k < |serials| :: serials[k] == serials[1..][k - 1];
  }

  /** Whether the catalog lets this part on this weapon: the slots 0x3D to 0x42 are for listed
      parts only. */
  predicate MayMount(cat: Catalog, weapon: Item, part: Item) {
    0x3D <= part.itemType <= 0x42 ==> weapon.index in cat.partsFor && part.index in cat.partsFor[weapon.index]
  }

  lemma AttachEffect(cat: Catalog, a: Account, parent: uint16, child: uint16, now: int)
    ensures var o, inv := Attach(cat, a, parent, child, now), a.inventory;
      && (NoItem(inv, child) || NoItem(inv, parent) ==> o == Failure(ItemNotOwned))
      && forall p: nat, c: nat | ItemAt(inv, p, parent) && ItemAt(inv, c, child) ::
        var slot := inv[c].itemType;
        o == if RunOut(inv[c], now) then Failure(ItemExpired)
             else if !MayMount(cat, inv[p], inv[c]) then Failure(PartNotCompatible)
             else Success((a.(attachments :=
                 Keep(a.attachments, (m: Attached) => !(m.parent == parent && m.slot == slot))
                 + [Attached(parent, child, slot)]), inv[c]))
  {
    hide Mount, Keep;
    var inv := a.inventory;
    if NoItem(inv, child) {
      NotOwned(a, child);
    }
    if NoItem(inv, parent) {
      NotOwned(a, parent);
    }
    forall p: nat, c: nat | ItemAt(inv, p, parent) && ItemAt(inv, c, child)
      ensures Owned(a, parent) == Some(inv[p]) && Owned(a, child) == Some(inv[c])
      ensures var slot := inv[c].itemType;
        Mount(a.attachments, parent, child, slot)
        == Keep(a.attachments, (m: Attached) => !(m.parent == parent && m.slot == slot))
           + [Attached(parent, child, slot)]
    {
      OwnedIs(a, p, parent);
      OwnedIs(a, c, child);
      MountIs(a.attachments, parent, child, inv[c].itemType);
    }
    hide Owned;
  }

  lemma MountIs(mounts: seq<Attached>, parent: uint16, child: uint16, slot: uint8)
    ensures Mount(mounts, parent, child, slot)
         == Keep(mounts, (m: Attached) => !(m.parent == parent && m.slot == slot)) + [Attached(parent, child, slot)]
  {
    FilterSame(mounts, Elsewhere(parent, slot), (m: Attached) => !(m.parent == parent && m.slot == slot));
    KeepIs(mounts, (m: Attached) => !(m.parent == parent && m.slot == slot));
  }

  lemma DetachEffect(a: Account, parent: uint16, child: uint16)
    ensures NoItem(a.inventory, child) ==> Detach(a, parent, child) == Failure(ItemNotOwned)
    ensures forall c: nat | ItemAt(a.inventory, c, child) ::
      Detach(a, parent, child) == Success((a.(attachments :=
          Keep(a.attachments, (m: Attached) => !(m.parent == parent && m.child == child))), a.inventory[c]))
  {
    if NoItem(a.inventory, child) {
      NotOwned(a, child);
    }
    FilterSame(a.attachments, NotPair(parent, child), (m: Attached) => !(m.parent == parent && m.child == child));
    KeepIs(a.attachments, (m: Attached) => !(m.parent == parent && m.child == child));
    hide Keep, Filter;
    forall c: nat | ItemAt(a.inventory, c, child) ensures Owned(a, child) == Some(a.inventory[c]) {
      OwnedIs(a, c, child);
    }
  }

  // ---------------------------------------------------------------- store

  /** The price in points, the sale counted in; zero for none. */
  function PointsAsked(g: GameItem): uint64 {
    if g.cashType == 1 then 0 else if g.isSale && g.salePrice > 0 then g.salePrice else g.pointPrice
  }

  /** The price in cash: for cash items, and for others that have no price in points. */
  function CashAsked(g: GameItem): uint64 {
    if PointsAsked(g) > 0 then 0 else g.cashPrice
  }

  /** Cash is for the items of cash type 1 and for what has no other price. A sale price takes the
      place of the point price; an item of cash type 1 without a cash price is free. */
  lemma AskedIs(g: GameItem)
    ensures g.cashType == 1 ==> PointsAsked(g) == 0 && CashAsked(g) == g.cashPrice
    ensures g.cashType != 1 && g.isSale && g.salePrice > 0 ==> PointsAsked(g) == g.salePrice && CashAsked(g) == 0
    ensures g.cashType != 1 && !(g.isSale && g.salePrice > 0) && g.pointPrice > 0 ==>
      PointsAsked(g) == g.pointPrice && CashAsked(g) == 0
    ensures g.cashType != 1 && !(g.isSale && g.salePrice > 0) && g.pointPrice == 0 ==>
      PointsAsked(g) == 0 && CashAsked(g) == g.cashPrice
  {
  }

  /** The stack a purchase goes to. */
  predicate GoesTo(inv: seq<Item>, g: GameItem, index: uint32, i: nat) {
    StackAt(inv, i, index) && (g.useTime > 0 || g.isMerge)
  }

  /** The purchase finds a stack to go to, or a serial for a new one. */
  ghost predicate HasRoom(inv: seq<Item>, g: GameItem, index: uint32) {
    (exists i: nat :: GoesTo(inv, g, index, i)) || (exists s: uint16 :: Free(inv, s))
  }

  lemma GoesToIs(inv: seq<Item>, g: GameItem, index: uint32)
    ensures var i := IndexOf(inv, OfIndex(index));
      (exists k: nat :: GoesTo(inv, g, index, k)) <==> i < |inv| && (g.useTime > 0 || g.isMerge)
    ensures forall k: nat | GoesTo(inv, g, index, k) :: k == IndexOf(inv, OfIndex(index))
  {
    var i := IndexOf(inv, OfIndex(index));
    if i < |inv| {
      assert forall j | 0 <= j < i :: !OfIndex(index)(inv[j]);
      assert StackAt(inv, i, index);
      assert (g.useTime > 0 || g.isMerge) ==> GoesTo(inv, g, index, i);
    }
    forall k: nat | GoesTo(inv, g, index, k) ensures k == i {
      StackIs(inv, k, index);
    }
  }

  /** The first check that a refused purchase fails. */
  function WhyNot(cat: Catalog, a: Account, index: uint32): Economy.Error {
    if index !in cat.items then ItemUnknown
    else if !cat.items[index].isSell then ItemNotForSale
    else if a.level < cat.items[index].buyLevelLimit then LevelTooLow
    else if a.point < PointsAsked(cat.items[index]) || a.cash < CashAsked(cat.items[index]) then InsufficientFunds
    else InventoryFull
  }

  /** Exactly what a purchase needs, check by check: exact money and the exact level are enough. */
  lemma BuyWhen(cat: Catalog, a: Account, index: uint32, now: int)
    ensures Buy(cat, a, index, now).Success? <==>
      && index in cat.items && cat.items[index].isSell && a.level >= cat.items[index].buyLevelLimit
      && a.point >= PointsAsked(cat.items[index]) && a.cash >= CashAsked(cat.items[index])
      && HasRoom(a.inventory, cat.items[index], index)
    ensures Buy(cat, a, index, now).Failure? ==> Buy(cat, a, index, now).error == WhyNot(cat, a, index)
  {
    hide NextSerial, Free, IndexOf, GoesTo;
    if index in cat.items {
      GoesToIs(a.inventory, cat.items[index], index);
      SerialIs(a.inventory);
    }
  }

  /** A successful purchase takes the price the columns ask for, and no more, from one wallet. */
  lemma BuyCharge(cat: Catalog, a: Account, index: uint32, now: int)
    requires Buy(cat, a, index, now).Success?
    ensures var g, b := cat.items[index], Buy(cat, a, index, now).value;
      && b.account.point == a.point - PointsAsked(g) && b.account.cash == a.cash - CashAsked(g)
      && b.price == PointsAsked(g) + CashAsked(g) && (PointsAsked(g) == 0 || CashAsked(g) == 0)
      && b.wallet == if PointsAsked(g) > 0 then PointWallet else if CashAsked(g) > 0 then CashWallet else NoWallet
  {
    hide AddToInventory;
  }

  /** The slot an item of the catalog goes in. */
  function SlotOf(g: GameItem): uint8 {
    (11 + 10 * (g.highGroup - 1) + (g.middleGroup - 1)) % 256
  }

  function EndOf(g: GameItem, start: int): Expiry {
    if g.useTime > 0 then At(start + g.useTime * 1_000_000_000) else Never
  }

  /** What a purchase does to the inventory: a rental already held runs longer, from its end or
      from now if that is past; a stack grows by one, in 32 bits; anything else is a new item. */
  lemma BuyEffect(cat: Catalog, a: Account, index: uint32, now: int)
    requires Buy(cat, a, index, now).Success?
    ensures var g, inv, b := cat.items[index], a.inventory, Buy(cat, a, index, now).value;
      && b.account == a.(inventory := b.account.inventory, point := b.account.point, cash := b.account.cash)
      && (b.isNew <==> forall i: nat :: !GoesTo(inv, g, index, i))
      && (b.isNew ==>
            && LeastFree(inv, b.item.serial) && b.account.inventory == inv + [b.item]
            && b.item == Item(b.item.serial, index, 1, 1, SlotOf(g), EndOf(g, now)))
      && forall i: nat | GoesTo(inv, g, index, i) ::
        && b.account.inventory == inv[i := b.item]
        && b.item ==
             if g.useTime > 0
             then inv[i].(expiry :=
               EndOf(g, if inv[i].expiry.At? && inv[i].expiry.ns >= now then inv[i].expiry.ns else now))
             else inv[i].(value := (inv[i].value + 1) % 0x1_0000_0000)
  {
    hide NextSerial, LeastFree, Free, IndexOf, GoesTo, StorePrice;
    GoesToIs(a.inventory, cat.items[index], index);
    SerialIs(a.inventory);
  }

  /** A part is bought only for an owned weapon that the catalog lists it for. */
  lemma PartRefused(cat: Catalog, a: Account, weapon: uint16, index: uint32, now: int, later: int)
    ensures NoItem(a.inventory, weapon) ==>
      BuyCustomPart(cat, a, weapon, index, now, later) == (a, Failure(ItemNotOwned))
    ensures forall i: nat | ItemAt(a.inventory, i, weapon) ::
      var gun := a.inventory[i].index;
      !(gun in cat.partsFor && index in cat.partsFor[gun]) ==>
        BuyCustomPart(cat, a, weapon, index, now, later) == (a, Failure(PartNotCompatible))
  {
    if NoItem(a.inventory, weapon) {
      NotOwned(a, weapon);
    }
    forall i: nat | ItemAt(a.inventory, i, weapon) ensures Owned(a, weapon) == Some(a.inventory[i]) {
      OwnedIs(a, i, weapon);
    }
    hide Owned, Buy, Attach;
  }

  // ------------------------------------------------------------- crafting

  /** What the rows of a recipe add up to for one item. */
  function Total(rows: seq<Material>, index: uint32): int {
    if rows == [] then 0 else (if rows[0].itemIndex == index then rows[0].count else 0) + Total(rows[1..], index)
  }

  lemma {:induction false} TotalAppend(rows: seq<Material>, last: Material, index: uint32)
    ensures Total(rows + [last], index) == Total(rows, index) + if last.itemIndex == index then last.count else 0
  {
    if rows == [] {
      assert rows + [last] == [last] && [last][1..] == [];
    } else {
      assert (rows + [last])[1..] == rows[1..] + [last];
      TotalAppend(rows[1..], last, index);
    }
  }

  lemma {:induction false} NeedIs(rows: seq<Material>, index: uint32)
    ensures Needed(NeedFor(rows), index) == Total(rows, index)
    ensures index in NeedFor(rows) <==> exists m :: m in rows && m.itemIndex == index
  {
    if rows != [] {
      var n := |rows| - 1;
      NeedIs(rows[..n], index);
      assert rows == rows[..n] + [rows[n]];
      TotalAppend(rows[..n], rows[n], index);
    }
  }

  /** The first stack of an item holds this much. */
  ghost predicate Holds(inv: seq<Item>, index: uint32, total: int) {
    exists i: nat :: StackAt(inv, i, index) && inv[i].value >= total
  }

  /** The first stack of every material holds what the rows add up to. */
  ghost predicate MaterialsThere(inv: seq<Item>, rows: seq<Material>) {
    forall m | m in rows :: Holds(inv, m.itemIndex, Total(rows, m.itemIndex))
  }

  /** What is left of the k-th stack: the first of a material pays for it, and is gone when it
      holds no more than that. */
  function LeftOf(inv: seq<Item>, rows: seq<Material>, k: nat): seq<Item>
    requires k < |inv|
  {
    var item, total := inv[k], Total(rows, inv[k].index);
    if total <= 0 || !StackAt(inv, k, item.index) then [item]
    else if item.value <= total then []
    else [item.(value := item.value - total)]
  }

  function LeftUpTo(inv: seq<Item>, rows: seq<Material>, n: nat): seq<Item>
    requires n <= |inv|
  {
    if n == 0 then [] else LeftUpTo(inv, rows, n - 1) + LeftOf(inv, rows, n - 1)
  }

  lemma CoversIs(inv: seq<Item>, rows: seq<Material>)
    ensures Covers(inv, NeedFor(rows)) <==> MaterialsThere(inv, rows)
  {
    hide NeedFor, Total, Find;
    var need := NeedFor(rows);
    forall index: uint32
      ensures index in need <==> exists m :: m in rows && m.itemIndex == index
      ensures index in need ==> need[index] == Total(rows, index)
    {
      NeedIs(rows, index);
    }
    if Covers(inv, need) {
      forall m | m in rows ensures Holds(inv, m.itemIndex, Total(rows, m.itemIndex)) {
        assert m.itemIndex in need;
        HoldsIs(inv, m.itemIndex, Total(rows, m.itemIndex));
      }
    }
    if MaterialsThere(inv, rows) {
      forall index | index in need
        ensures Find(inv, OfIndex(index)).Some? && Find(inv, OfIndex(index)).value.value >= need[index]
      {
        HoldsIs(inv, index, need[index]);
      }
    }
  }

  lemma HoldsIs(inv: seq<Item>, index: uint32, total: int)
    ensures Holds(inv, index, total)
        <==> Find(inv, OfIndex(index)).Some? && Find(inv, OfIndex(index)).value.value >= total
  {
    FirstStack(inv, index);
    hide Find, StackAt;
  }

  lemma FirstStack(inv: seq<Item>, index: uint32)
    ensures Find(inv, OfIndex(index)).Some? <==> exists i: nat :: StackAt(inv, i, index)
    ensures forall i: nat | StackAt(inv, i, index) :: Find(inv, OfIndex(index)) == Some(inv[i])
  {
    var k := IndexOf(inv, OfIndex(index));
    if k < |inv| {
      assert forall j | 0 <= j < k :: !OfIndex(index)(inv[j]);
      assert StackAt(inv, k, index);
    }
    forall i: nat | StackAt(inv, i, index) ensures i == k {
      StackIs(inv, i, index);
    }
  }

  lemma {:induction false} LeftIs(inv: seq<Item>, rows: seq<Material>, n: nat)
    requires n <= |inv|
    ensures Taken(inv, NeedFor(rows), n).next == LeftUpTo(inv, rows, n)
  {
    if n > 0 {
      LeftIs(inv, rows, n - 1);
      NeedIs(rows, inv[n - 1].index);
      hide NeedFor, Total;
    }
  }

  /** The first check that a refused craft fails. */
  ghost function WhyNotMade(cat: Catalog, a: Account, recipeID: uint32): Economy.Error {
    if recipeID !in cat.recipes || !cat.recipes[recipeID].exist then RecipeUnknown
    else if a.level < cat.recipes[recipeID].requireLevel then LevelTooLow
    else if a.point < cat.recipes[recipeID].pricePoint then InsufficientFunds
    else if !MaterialsThere(a.inventory, cat.recipes[recipeID].materials) then MaterialMissing
    else InventoryFull
  }

  /** Exactly what crafting needs, check by check. */
  lemma CraftWhen(cat: Catalog, a: Account, recipeID: uint32, now: int)
    ensures Craft(cat, a, recipeID, now).Success? <==>
      && recipeID in cat.recipes && cat.recipes[recipeID].exist
      && var recipe := cat.recipes[recipeID];
      && a.level >= recipe.requireLevel && a.point >= recipe.pricePoint
      && MaterialsThere(a.inventory, recipe.materials)
      && exists s: uint16 :: Free(LeftUpTo(a.inventory, recipe.materials, |a.inventory|), s)
    ensures Craft(cat, a, recipeID, now).Failure? ==> Craft(cat, a, recipeID, now).error == WhyNotMade(cat, a, recipeID)
  {
    hide NextSerial, MaterialsThere, Covers, NeedFor, Taken, LeftUpTo, Free, ItemType, ExpiryFor;
    if recipeID in cat.recipes {
      var rows := cat.recipes[recipeID].materials;
      CoversIs(a.inventory, rows);
      LeftIs(a.inventory, rows, |a.inventory|);
      SerialIs(LeftUpTo(a.inventory, rows, |a.inventory|));
    }
  }

  /** The materials go, one unit of the output comes, and the recipe's points are paid. */
  lemma CraftEffect(cat: Catalog, a: Account, recipeID: uint32, now: int)
    requires Craft(cat, a, recipeID, now).Success?
    ensures var recipe, r := cat.recipes[recipeID], Craft(cat, a, recipeID, now).value;
      var g := if recipe.itemOutput in cat.items then cat.items[recipe.itemOutput] else NO_ITEM;
      var left := LeftUpTo(a.inventory, recipe.materials, |a.inventory|);
      && LeastFree(left, r.output.serial)
      && r.output == Item(r.output.serial, recipe.itemOutput, 1, 1, SlotOf(g), EndOf(g, now))
      && r.account == a.(inventory := left + [r.output], point := a.point - recipe.pricePoint)
      && r.price == recipe.pricePoint
  {
    hide NextSerial, LeastFree, Covers, NeedFor, Taken, LeftUpTo;
    var rows := cat.recipes[recipeID].materials;
    LeftIs(a.inventory, rows, |a.inventory|);
    SerialIs(LeftUpTo(a.inventory, rows, |a.inventory|));
  }

  // ---------------------------------------------------------- consumables

  /** The first item of this function with something left. */
  predicate UsableAt(cat: Catalog, inv: seq<Item>, i: nat, f: int) {
    && i < |inv| && Usable(cat, inv[i], f) && forall j | 0 <= j < i :: !Usable(cat, inv[j], f)
  }

  predicate Usable(cat: Catalog, item: Item, f: int) {
    item.index in cat.items && cat.items[item.index].functionIndex == f && item.value > 0
  }

  /** Without such an item nothing is spent. */
  lemma SpendRefused(cat: Catalog, a: Account, f: int)
    requires forall i | 0 <= i < |a.inventory| :: !Usable(cat, a.inventory[i], f)
    ensures SpendConsumable(cat, a, f) == Failure(ConsumableMissing)
  {
    FirstAt(a.inventory, Serves(cat, f), |a.inventory|);
  }

  /** One unit of it goes, and with the last unit the item, the first of its serial. */
  lemma SpendEffect(cat: Catalog, a: Account, f: int, i: nat, j: nat)
    requires UsableAt(cat, a.inventory, i, f) && ItemAt(a.inventory, j, a.inventory[i].serial)
    ensures var inv, item := a.inventory, a.inventory[j];
      var less := item.(value := if item.value > 0 then item.value - 1 else 0);
      SpendConsumable(cat, a, f) ==
        if item.value <= 1 then Success((a.(inventory := inv[..j] + inv[j + 1..]), UsedUp(item.serial)))
        else Success((a.(inventory := inv[j := less]), Reduced(less)))
  {
    hide Find, IndexOf, UsableAt;
    UsedIs(cat, a.inventory, i, j, f);
  }

  lemma UsedIs(cat: Catalog, inv: seq<Item>, i: nat, j: nat, f: int)
    requires UsableAt(cat, inv, i, f) && ItemAt(inv, j, inv[i].serial)
    ensures Find(inv, Serves(cat, f)) == Some(inv[i]) && IndexOf(inv, WithSerial(inv[i].serial)) == j < |inv|
  {
    FirstAt(inv, Serves(cat, f), i);
    FirstAt(inv, WithSerial(inv[i].serial), j);
  }

  // ------------------------------------------------------------- accounts

  /** A rental's row carries its whole seconds left, any other row its count. */
  lemma WireIs(item: Item, now: int)
    ensures WireValue(item, now) ==
      match item.expiry
      case Never => item.value
      case At(ns) => if ns <= now then 0 else (ns - now) / 1_000_000_000 % 0x1_0000_0000
  {
  }

  /** With the whole kit in the catalog a new account has it, in this order, worn in its slots. */
  lemma NewAccountIs(cat: Catalog, point: uint64, cash: uint64, now: int)
    requires 11100101 in cat.items && 12100101 in cat.items && 21102201 in cat.items
    ensures var g, h, k := cat.items[11100101], cat.items[12100101], cat.items[21102201];
      NewAccount(cat, point, cash, now) == Account(1, point, cash,
        [Item(1, 11100101, 1, 1, SlotOf(g), EndOf(g, now)), Item(2, 12100101, 1, 1, SlotOf(h), EndOf(h, now)),
         Item(3, 21102201, 1, 1, SlotOf(k), EndOf(k, now))],
        [Equipped(SlotOf(g), 1), Equipped(SlotOf(h), 2), Equipped(SlotOf(k), 3)], [])
  {
    KitStep(cat, 1, now);
    KitStep(cat, 2, now);
    KitStep(cat, 3, now);
    hide Kit;
  }

  /** In any catalog: the starter items it knows and no others, numbered from 1. */
  lemma KitStep(cat: Catalog, n: nat, now: int)
    requires 0 < n <= 3
    ensures Kit(cat, 0, now) == ([], [])
    ensures var index: uint32 := if n == 1 then 11100101 else if n == 2 then 12100101 else 21102201;
      var (inv, loadout) := Kit(cat, n - 1, now);
      Kit(cat, n, now) ==
        if index in cat.items then
          var g, serial := cat.items[index], |inv| + 1;
          (inv + [Item(serial, index, 1, 1, SlotOf(g), EndOf(g, now))], loadout + [Equipped(SlotOf(g), serial)])
        else (inv, loadout)
  {
    assert |STARTER_ITEMS| == 3;
  }

  lemma NewAccountKit(cat: Catalog, point: uint64, cash: uint64, now: int)
    ensures NewAccount(cat, point, cash, now) == Account(1, point, cash, Kit(cat, 3, now).0, Kit(cat, 3, now).1, [])
  {
  }
}
