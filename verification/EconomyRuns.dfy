/** What every run of the player service keeps of an account: serials, rentals, money. */
module EconomyRuns {
  import opened Bytes
  import opened Wrappers
  import opened Seqs
  import opened Catalog
  import opened Inventory
  import opened Economy

  datatype Op =
    | LogIn(now: int)
    | Wear(serial: uint16, now: int)
    | WearAll(serials: seq<uint16>, now: int)
    | Fit(parent: uint16, child: uint16, now: int)
    | Unfit(parent: uint16, child: uint16)
    | Purchase(index: uint32, now: int)
    | PurchasePart(weapon: uint16, index: uint32, now: int, later: int)
    | Make(recipeID: uint32, now: int)
    | UseUp(functionIndex: int)

  /** The account a call leaves behind; a refused call leaves it as it was. */
  function Apply(cat: Catalog, a: Account, op: Op): Account {
    match op
    case LogIn(now) => Login(a, now)
    case Wear(serial, now) => (match Economy.Equip(a, serial, now) case Success(a') => a' case Failure(_) => a)
    case WearAll(serials, now) => (match ChangeWeapons(a, serials, now) case Success(a') => a' case Failure(_) => a)
    case Fit(parent, child, now) =>
      (match Attach(cat, a, parent, child, now) case Success((a', _)) => a' case Failure(_) => a)
    case Unfit(parent, child) => (match Detach(a, parent, child) case Success((a', _)) => a' case Failure(_) => a)
    case Purchase(index, now) => (match Buy(cat, a, index, now) case Success(b) => b.account case Failure(_) => a)
    case PurchasePart(weapon, index, now, later) => BuyCustomPart(cat, a, weapon, index, now, later).0
    case Make(recipeID, now) => (match Craft(cat, a, recipeID, now) case Success(c) => c.account case Failure(_) => a)
    case UseUp(f) => (match SpendConsumable(cat, a, f) case Success((a', _)) => a' case Failure(_) => a)
  }

  function Run(cat: Catalog, a: Account, ops: seq<Op>): Account {
    if ops == [] then a else Apply(cat, Run(cat, a, ops[..|ops| - 1]), ops[|ops| - 1])
  }

  // ------------------------------------------------- serials and rentals

  /** The items with an expiry are those the catalog rents out. */
  predicate RentalsOk(cat: Catalog, inv: seq<Item>) {
    forall item | item in inv :: item.expiry.At? <==> IsRental(cat, item.index)
  }

  predicate AccountOk(cat: Catalog, a: Account) {
    SerialsOk(a.inventory) && RentalsOk(cat, a.inventory)
  }

  /** The next serial is the least free one, and there is none exactly when all 65534 are taken. */
  lemma NextSerialLeast(inv: seq<Item>)
    ensures NextSerial(inv) == 0 <==> forall k: uint16 | 1 <= k <= MAX_SERIAL :: k in Serials(inv)
    ensures NextSerial(inv) != 0 ==> 1 <= NextSerial(inv) <= MAX_SERIAL && NextSerial(inv) !in Serials(inv)
    ensures NextSerial(inv) != 0 ==> forall k: uint16 | 1 <= k < NextSerial(inv) :: k in Serials(inv)
  {
  }

  lemma AddedOk(cat: Catalog, inv: seq<Item>, index: uint32, now: int)
    requires SerialsOk(inv) && RentalsOk(cat, inv) && index in cat.items
    requires var d := AddToInventory(inv, cat.items[index], index, now); d.isNew ==> d.item.serial != 0
    ensures var d := AddToInventory(inv, cat.items[index], index, now);
      && SerialsOk(d.inventory) && RentalsOk(cat, d.inventory)
      && d.item in d.inventory && d.item.index == index
      && (forall s | s in Serials(inv) :: s in Serials(d.inventory))
  {
    var g := cat.items[index];
    var d := AddToInventory(inv, g, index, now);
    var i := IndexOf(inv, OfIndex(index));
    if d.isNew {
      AppendSerial(inv, d.item);
      SerialsSnoc(inv, d.item);
    } else {
      assert inv[i] in inv;
      UpdateSerial(inv, i, d.item);
      UpdateOk(cat, inv, i, d.item);
      assert d.inventory[i] == d.item;
    }
  }

  lemma UpdateOk(cat: Catalog, inv: seq<Item>, i: nat, item: Item)
    requires SerialsOk(inv) && RentalsOk(cat, inv) && i < |inv|
    requires item.serial == inv[i].serial && (item.expiry.At? <==> IsRental(cat, item.index))
    ensures SerialsOk(inv[i := item]) && RentalsOk(cat, inv[i := item])
  {
    UpdateSerial(inv, i, item);
    forall x | x in inv[i := item] ensures x.expiry.At? <==> IsRental(cat, x.index) {
      assert x == item || x in inv;
    }
  }

  lemma BuyOk(cat: Catalog, a: Account, index: uint32, now: int)
    requires AccountOk(cat, a) && Buy(cat, a, index, now).Success?
    ensures AccountOk(cat, Buy(cat, a, index, now).value.account)
  {
    AddedOk(cat, a.inventory, index, now);
  }

  lemma CraftOk(cat: Catalog, a: Account, recipeID: uint32, now: int)
    requires AccountOk(cat, a) && Craft(cat, a, recipeID, now).Success?
    ensures AccountOk(cat, Craft(cat, a, recipeID, now).value.account)
  {
    var recipe := cat.recipes[recipeID];
    var taken := Consume(a.inventory, NeedFor(recipe.materials)).value;
    ConsumedOk(cat, a.inventory, NeedFor(recipe.materials));
    AppendSerial(taken.next, NewItem(taken.next, Lookup(cat, recipe.itemOutput), recipe.itemOutput, now));
  }

  lemma ConsumedOk(cat: Catalog, inv: seq<Item>, need: Need)
    requires SerialsOk(inv) && RentalsOk(cat, inv) && Consume(inv, need).Some?
    ensures SerialsOk(Consume(inv, need).value.next) && RentalsOk(cat, Consume(inv, need).value.next)
  {
    ConsumeDiff(inv, need);
    var c := Consume(inv, need).value;
    FilterDistinct(Serials(inv), NotIn(c.deleted));
    FilterHas(Serials(inv), NotIn(c.deleted));
  }

  lemma SpentOk(cat: Catalog, a: Account, f: int)
    requires AccountOk(cat, a) && SpendConsumable(cat, a, f).Success?
    ensures AccountOk(cat, SpendConsumable(cat, a, f).value.0)
  {
    UnitOk(cat, a.inventory, Find(a.inventory, Serves(cat, f)).value.serial);
  }

  lemma UnitOk(cat: Catalog, inv: seq<Item>, serial: uint16)
    requires SerialsOk(inv) && RentalsOk(cat, inv) && SpendUnit(inv, serial).Some?
    ensures SerialsOk(SpendUnit(inv, serial).value.0) && RentalsOk(cat, SpendUnit(inv, serial).value.0)
  {
    var i := IndexOf(inv, WithSerial(serial));
    if inv[i].value <= 1 {
      WithoutOk(cat, inv, i);
    } else {
      assert inv[i] in inv;
      UpdateOk(cat, inv, i, inv[i].(value := inv[i].value - 1));
    }
    hide SerialsOk, RentalsOk;
  }

  lemma WithoutOk(cat: Catalog, inv: seq<Item>, i: nat)
    requires SerialsOk(inv) && RentalsOk(cat, inv) && i < |inv|
    ensures SerialsOk(Without(inv, i)) && RentalsOk(cat, Without(inv, i))
  {
    WithoutSerial(inv, i);
    forall s | s in Serials(Without(inv, i)) ensures s in Serials(inv) {
      WithoutKeeps(Serials(inv), i, s);
    }
    forall x | x in Without(inv, i) ensures x in inv {
      WithoutKeeps(inv, i, x);
    }
  }

  lemma LoginOk(cat: Catalog, a: Account, now: int)
    requires AccountOk(cat, a)
    ensures AccountOk(cat, Login(a, now))
  {
    FilterSerials(a.inventory, Unexpired(now));
    FilterHas(a.inventory, Unexpired(now));
  }

  lemma StepOk(cat: Catalog, a: Account, op: Op)
    requires AccountOk(cat, a)
    ensures AccountOk(cat, Apply(cat, a, op))
  {
    hide SerialsOk, RentalsOk, Buy, Craft, SpendConsumable, Login, Armed;
    match op
    case LogIn(now) => LoginOk(cat, a, now);
    case Purchase(index, now) => if Buy(cat, a, index, now).Success? { BuyOk(cat, a, index, now); }
    case PurchasePart(_, index, now, _) => if Buy(cat, a, index, now).Success? { BuyOk(cat, a, index, now); }
    case Make(recipeID, now) => if Craft(cat, a, recipeID, now).Success? { CraftOk(cat, a, recipeID, now); }
    case UseUp(f) => if SpendConsumable(cat, a, f).Success? { SpentOk(cat, a, f); }
    case _ =>
  }

  lemma {:induction false} KitOk(cat: Catalog, n: nat, now: int)
    requires n <= |STARTER_ITEMS|
    ensures var inv := Kit(cat, n, now).0; RentalsOk(cat, inv) && forall i | 0 <= i < |inv| :: inv[i].serial == i + 1
  {
    if n > 0 {
      KitOk(cat, n - 1, now);
    }
  }

  /** From a new account on, whatever is called: serials are pairwise distinct and in 1..65534,
      and exactly the catalog's rentals carry an expiry. */
  lemma {:induction false} RunOk(cat: Catalog, point: uint64, cash: uint64, now: int, ops: seq<Op>)
    ensures AccountOk(cat, Run(cat, NewAccount(cat, point, cash, now), ops))
  {
    if ops == [] {
      KitOk(cat, |STARTER_ITEMS|, now);
      assert forall i | 0 <= i < |Kit(cat, |STARTER_ITEMS|, now).0| ::
        Serials(Kit(cat, |STARTER_ITEMS|, now).0)[i] == i + 1;
    } else {
      RunOk(cat, point, cash, now, ops[..|ops| - 1]);
      StepOk(cat, Run(cat, NewAccount(cat, point, cash, now), ops[..|ops| - 1]), ops[|ops| - 1]);
    }
  }

  // --------------------------------------------------------------- money

  /** What the catalog says a call costs the wallet, when the call goes through. */
  function Cost(cat: Catalog, a: Account, op: Op, w: Wallet): nat {
    match op
    case Purchase(index, now) => StoreCost(cat, a, index, now, w)
    case PurchasePart(weapon, index, now, _) =>
      if Owned(a, weapon).Some? && Accepts(cat, Owned(a, weapon).value.index, index)
      then StoreCost(cat, a, index, now, w)
      else 0
    case Make(recipeID, now) =>
      if w.PointWallet? && Craft(cat, a, recipeID, now).Success? then cat.recipes[recipeID].pricePoint else 0
    case _ => 0
  }

  function StoreCost(cat: Catalog, a: Account, index: uint32, now: int, w: Wallet): nat {
    if Buy(cat, a, index, now).Success? && StorePrice(cat.items[index]).0 == w
    then StorePrice(cat.items[index]).1
    else 0
  }

  function Costs(cat: Catalog, a: Account, ops: seq<Op>, w: Wallet): nat {
    if ops == [] then 0
    else Costs(cat, a, ops[..|ops| - 1], w) + Cost(cat, Run(cat, a, ops[..|ops| - 1]), ops[|ops| - 1], w)
  }

  lemma BuyMoney(cat: Catalog, a: Account, index: uint32, now: int)
    requires Buy(cat, a, index, now).Success?
    ensures var a' := Buy(cat, a, index, now).value.account;
      && a'.point + StoreCost(cat, a, index, now, PointWallet) == a.point
      && a'.cash + StoreCost(cat, a, index, now, CashWallet) == a.cash
  {
    hide AddToInventory;
  }

  lemma PurchaseMoney(cat: Catalog, a: Account, index: uint32, now: int)
    ensures match Buy(cat, a, index, now)
            case Success(b) =>
              && b.account.point + StoreCost(cat, a, index, now, PointWallet) == a.point
              && b.account.cash + StoreCost(cat, a, index, now, CashWallet) == a.cash
            case Failure(_) => forall w :: StoreCost(cat, a, index, now, w) == 0
  {
    if Buy(cat, a, index, now).Success? {
      BuyMoney(cat, a, index, now);
    }
  }

  lemma CraftMoney(cat: Catalog, a: Account, recipeID: uint32, now: int)
    requires Craft(cat, a, recipeID, now).Success?
    ensures var a' := Craft(cat, a, recipeID, now).value.account;
      a'.point + cat.recipes[recipeID].pricePoint == a.point && a'.cash == a.cash
  {
    hide Consume, NeedFor, NewItem;
  }

  lemma StepMoney(cat: Catalog, a: Account, op: Op)
    ensures Apply(cat, a, op).point + Cost(cat, a, op, PointWallet) == a.point
    ensures Apply(cat, a, op).cash + Cost(cat, a, op, CashWallet) == a.cash
  {
    hide Buy, Craft, StoreCost, Dressed, Armed, SpendUnit;
    match op
    case Purchase(index, now) => PurchaseMoney(cat, a, index, now);
    case PurchasePart(_, index, now, _) => PurchaseMoney(cat, a, index, now);
    case Make(recipeID, now) => if Craft(cat, a, recipeID, now).Success? { CraftMoney(cat, a, recipeID, now); }
    case _ =>
  }

  /** Neither currency is made or lost: over any run, what is left and what was charged add up
      to the start, so no balance ever wraps. */
  lemma {:induction false} MoneyConserved(cat: Catalog, a: Account, ops: seq<Op>)
    ensures Run(cat, a, ops).point + Costs(cat, a, ops, PointWallet) == a.point
    ensures Run(cat, a, ops).cash + Costs(cat, a, ops, CashWallet) == a.cash
  {
    if ops != [] {
      MoneyConserved(cat, a, ops[..|ops| - 1]);
      StepMoney(cat, Run(cat, a, ops[..|ops| - 1]), ops[|ops| - 1]);
    }
  }

  // ------------------------------------------------- buying a custom part

  /** When a rental bought now runs out. */
  function RunsOut(inv: seq<Item>, g: GameItem, index: uint32, now: int): int {
    var i := IndexOf(inv, OfIndex(index));
    (if i < |inv| then Start(inv[i].expiry, now) else now) + g.useTime * SECOND
  }

  /** The part was paid for and not mounted: the one way a failed call changes an account. */
  predicate Stranded(cat: Catalog, a: Account, weapon: uint16, index: uint32, now: int, later: int) {
    && Owned(a, weapon).Some? && Accepts(cat, Owned(a, weapon).value.index, index)
    && Buy(cat, a, index, now).Success?
    && IsRental(cat, index) && RunsOut(a.inventory, cat.items[index], index, now) <= later
  }

  /** An account is unchanged, or both charged and mounted, exactly when the clock has not run
      past the end of a rented part between the purchase and the mounting. */
  lemma BuyCustomAllOrNothing(cat: Catalog, a: Account, weapon: uint16, index: uint32, now: int, later: int)
    requires AccountOk(cat, a)
    ensures var (a', r) := BuyCustomPart(cat, a, weapon, index, now, later);
      && (Stranded(cat, a, weapon, index, now, later) <==> r.Failure? && a' != a)
      && (Stranded(cat, a, weapon, index, now, later) ==> r == Failure(ItemExpired))
      && (r.Success? ==>
            && r.value.account == a' && r.value.item in a'.inventory && r.value.item.index == index
            && a'.point + StoreCost(cat, a, index, now, PointWallet) == a.point
            && a'.cash + StoreCost(cat, a, index, now, CashWallet) == a.cash
            && Attached(weapon, r.value.item.serial, r.value.item.itemType) in a'.attachments)
  {
    var gun := Owned(a, weapon);
    if gun.Some? && Accepts(cat, gun.value.index, index) && Buy(cat, a, index, now).Success? {
      var bought := Buy(cat, a, index, now).value;
      AddedOk(cat, a.inventory, index, now);
      BuyOk(cat, a, index, now);
      FindItem(bought.account.inventory, bought.item);
      WeaponStays(cat, a, weapon, index, now);
      BoughtExpiry(cat, a, index, now);
      BuyMoney(cat, a, index, now);
      hide StoreCost;
    }
  }

  /** Such a call exists: a weapon, a free part rented for one second, and a second between the
      two readings of the clock. */
  lemma StrandedHappens() returns (cat: Catalog, a: Account)
    ensures AccountOk(cat, a) && Stranded(cat, a, 1, 2, 0, SECOND)
    ensures BuyCustomPart(cat, a, 1, 2, 0, SECOND).1 == Failure(ItemExpired)
    ensures BuyCustomPart(cat, a, 1, 2, 0, SECOND).0 != a
  {
    var part := NO_ITEM.(isSell := true, useTime := 1);
    var weapon := Item(1, 1, 1, 1, 0x15, Never);
    cat := Catalog(map[2 := part], map[], map[1 := {2}]);
    a := Account(1, 0, 0, [weapon], [], []);
    assert Serials(a.inventory) == [1];
    assert WithSerial(1)(weapon) && Owned(a, 1) == Some(weapon);
    assert IndexOf(a.inventory, OfIndex(2)) == 1;
    assert 2 !in Serials(a.inventory) && NextSerial(a.inventory) == 2;
    BuyCustomAllOrNothing(cat, a, 1, 2, 0, SECOND);
  }

  lemma BoughtExpiry(cat: Catalog, a: Account, index: uint32, now: int)
    requires Buy(cat, a, index, now).Success?
    ensures var item := Buy(cat, a, index, now).value.item;
      IsRental(cat, index) ==> item.expiry == At(RunsOut(a.inventory, cat.items[index], index, now))
    ensures IsRental(cat, index) ==> Buy(cat, a, index, now).value.account.inventory != a.inventory
  {
  }

  lemma WeaponStays(cat: Catalog, a: Account, weapon: uint16, index: uint32, now: int)
    requires AccountOk(cat, a) && Owned(a, weapon).Some? && Buy(cat, a, index, now).Success?
    ensures var a' := Buy(cat, a, index, now).value.account;
      Owned(a', weapon).Some? && Owned(a', weapon).value.index == Owned(a, weapon).value.index
  {
    var gun, inv' := Owned(a, weapon).value, Buy(cat, a, index, now).value.account.inventory;
    var k, i := IndexOf(a.inventory, WithSerial(weapon)), IndexOf(a.inventory, OfIndex(index));
    BuyOk(cat, a, index, now);
    assert inv'[k] in inv';
    FindItem(inv', inv'[k]);
  }
}
