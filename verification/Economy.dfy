/** What the player service does to one account: login, equipment, mounts, purchases, crafting. */
module Economy {
  import opened Bytes
  import opened Wrappers
  import opened Seqs
  import opened Catalog
  import opened Inventory
  import opened PlayerModel

  datatype Error =
    | PlayerNotFound | ItemNotOwned | ItemExpired | PartNotCompatible | ItemUnknown | ItemNotForSale | LevelTooLow
    | InsufficientFunds | InventoryFull | RecipeUnknown | MaterialMissing | ConsumableMissing

  function Owned(a: Account, serial: uint16): Option<Item> {
    Find(a.inventory, WithSerial(serial))
  }

  // ----------------------------------------------------------- equipment

  function Equip(a: Account, serial: uint16, now: int): Result<Account, Error> {
    match Owned(a, serial)
    case None => Failure(ItemNotOwned)
    case Some(item) =>
      if IsExpired(item, now) then Failure(ItemExpired)
      else Success(a.(loadout := Inventory.Equip(a.loadout, item.itemType, serial)))
  }

  /** All the weapons, or none; serial 0 is skipped. */
  function Armed(a: Account, loadout: seq<Equipped>, serials: seq<uint16>, now: int): Result<seq<Equipped>, Error>
    decreases |serials|
  {
    if serials == [] then Success(loadout)
    else if serials[0] == 0 then Armed(a, loadout, serials[1..], now)
    else match Owned(a, serials[0])
      case None => Failure(ItemNotOwned)
      case Some(item) =>
        if IsExpired(item, now) then Failure(ItemExpired)
        else Armed(a, Inventory.Equip(loadout, item.itemType, serials[0]), serials[1..], now)
  }

  function ChangeWeapons(a: Account, serials: seq<uint16>, now: int): Result<Account, Error> {
    match Armed(a, a.loadout, serials, now)
    case Failure(e) => Failure(e)
    case Success(loadout) => Success(a.(loadout := loadout))
  }

  function Attach(cat: Catalog, a: Account, parent: uint16, child: uint16, now: int): Result<(Account, Item), Error> {
    match Owned(a, child)
    case None => Failure(ItemNotOwned)
    case Some(part) =>
      match Owned(a, parent)
      case None => Failure(ItemNotOwned)
      case Some(weapon) =>
        if IsExpired(part, now) then Failure(ItemExpired)
        else if IsCustomSlot(part.itemType) && !Accepts(cat, weapon.index, part.index) then Failure(PartNotCompatible)
        else Success((a.(attachments := Mount(a.attachments, parent, child, part.itemType)), part))
  }

  function Detach(a: Account, parent: uint16, child: uint16): Result<(Account, Item), Error> {
    match Owned(a, child)
    case None => Failure(ItemNotOwned)
    case Some(part) => Success((a.(attachments := Unmount(a.attachments, parent, child)), part))
  }

  // --------------------------------------------------------------- store

  function ExpiryFor(g: GameItem, now: int): Expiry {
    if g.useTime <= 0 then Never else At(now + g.useTime * SECOND)
  }

  /** Where a rental's next stretch starts: a lapsed or unset expiry counts from now. */
  function Start(e: Expiry, now: int): int {
    if e.Never? || e.ns < now then now else e.ns
  }

  datatype Added = Added(inventory: seq<Item>, item: Item, isNew: bool)

  function NewItem(inv: seq<Item>, g: GameItem, index: uint32, now: int): Item {
    Item(NextSerial(inv), index, 1, 1, ItemType(g), ExpiryFor(g, now))
  }

  function AddToInventory(inv: seq<Item>, g: GameItem, index: uint32, now: int): Added {
    var i := IndexOf(inv, OfIndex(index));
    if g.useTime > 0 && i < |inv| then
      var item := inv[i].(expiry := At(Start(inv[i].expiry, now) + g.useTime * SECOND));
      Added(inv[i := item], item, false)
    else if g.useTime <= 0 && g.isMerge && i < |inv| then
      var item := inv[i].(value := (inv[i].value + 1) % TWO_32);
      Added(inv[i := item], item, false)
    else
      var item := NewItem(inv, g, index, now);
      Added(if item.serial != 0 then inv + [item] else inv, item, true)
  }

  /** The repository's conditional write: the price is taken and the inventory stored, or nothing. */
  function Commit(a: Account, inv: seq<Item>, w: Wallet, price: uint64): Option<Account> {
    if price > 0 && Balance(a, w) < price then None
    else Some(Charge(a, w, price).(inventory := inv))
  }

  datatype Bought = Bought(account: Account, item: Item, isNew: bool, wallet: Wallet, price: uint64)

  function Buy(cat: Catalog, a: Account, index: uint32, now: int): Result<Bought, Error> {
    if index !in cat.items then Failure(ItemUnknown)
    else
      var g := cat.items[index];
      if !g.isSell then Failure(ItemNotForSale)
      else if a.level < g.buyLevelLimit then Failure(LevelTooLow)
      else
        var (wallet, price) := StorePrice(g);
        if price > 0 && Balance(a, wallet) < price then Failure(InsufficientFunds)
        else
          var added := AddToInventory(a.inventory, g, index, now);
          if added.isNew && added.item.serial == 0 then Failure(InventoryFull)
          else match Commit(a, added.inventory, wallet, price)
            case None => Failure(InsufficientFunds)
            case Some(a') => Success(Bought(a', added.item, added.isNew, wallet, price))
  }

  /** The purchase is stored before the part is mounted, and mounting reads the clock again. */
  function BuyCustomPart(cat: Catalog, a: Account, weapon: uint16, index: uint32, now: int, later: int)
    : (Account, Result<Bought, Error>)
  {
    match Owned(a, weapon)
    case None => (a, Failure(ItemNotOwned))
    case Some(gun) =>
      if !Accepts(cat, gun.index, index) then (a, Failure(PartNotCompatible))
      else match Buy(cat, a, index, now)
        case Failure(e) => (a, Failure(e))
        case Success(bought) =>
          match Attach(cat, bought.account, weapon, bought.item.serial, later)
          case Failure(e) => (bought.account, Failure(e))
          case Success((mounted, _)) => (mounted, Success(bought.(account := mounted)))
  }

  // --------------------------------------------------------------- craft

  /** Counts of the same material add up. */
  function NeedFor(materials: seq<Material>): Need {
    if materials == [] then map[]
    else
      var need, last := NeedFor(materials[..|materials| - 1]), materials[|materials| - 1];
      need[last.itemIndex := Needed(need, last.itemIndex) + last.count]
  }

  datatype Crafted = Crafted(account: Account, output: Item, deleted: seq<uint16>, updated: seq<Item>, price: uint64)

  function Craft(cat: Catalog, a: Account, recipeID: uint32, now: int): Result<Crafted, Error> {
    if recipeID !in cat.recipes || !cat.recipes[recipeID].exist then Failure(RecipeUnknown)
    else
      var recipe := cat.recipes[recipeID];
      if a.level < recipe.requireLevel then Failure(LevelTooLow)
      else if recipe.pricePoint > 0 && a.point < recipe.pricePoint then Failure(InsufficientFunds)
      else match Consume(a.inventory, NeedFor(recipe.materials))
        case None => Failure(MaterialMissing)
        case Some(taken) =>
          var output := NewItem(taken.next, Lookup(cat, recipe.itemOutput), recipe.itemOutput, now);
          if output.serial == 0 then Failure(InventoryFull)
          else match Commit(a, taken.next + [output], PointWallet, recipe.pricePoint)
            case None => Failure(InsufficientFunds)
            case Some(a') => Success(Crafted(a', output, taken.deleted, taken.updated, recipe.pricePoint))
  }

  // --------------------------------------------------------- consumables

  function Serves(cat: Catalog, functionIndex: int): Item -> bool {
    (item: Item) => item.index in cat.items && cat.items[item.index].functionIndex == functionIndex && item.value > 0
  }

  function SpendConsumable(cat: Catalog, a: Account, functionIndex: int): Result<(Account, Spent), Error> {
    match Find(a.inventory, Serves(cat, functionIndex))
    case None => Failure(ConsumableMissing)
    case Some(item) =>
      match SpendUnit(a.inventory, item.serial)
      case None => Failure(ConsumableMissing)
      case Some((next, spent)) => Success((a.(inventory := next), spent))
  }

  // --------------------------------------------------------------- login

  /** The entry names an owned item of the slot's own type. */
  predicate Filled(inv: seq<Item>, e: Equipped) {
    match Find(inv, WithSerial(e.serial))
    case None => false
    case Some(item) => item.itemType == e.slot
  }

  function FilledSlots(inv: seq<Item>, loadout: seq<Equipped>): set<uint8> {
    set e | e in loadout && Filled(inv, e) :: e.slot
  }

  predicate IsCharacter(itemType: uint8) { itemType == CHARACTER_ATC || itemType == CHARACTER_TF }

  /** The loadout after the first `n` items, and the slots that need nothing any more. */
  function Dressed(inv: seq<Item>, loadout: seq<Equipped>, n: nat): (seq<Equipped>, set<uint8>)
    requires n <= |inv|
  {
    if n == 0 then (loadout, FilledSlots(inv, loadout))
    else
      var (worn, filled) := Dressed(inv, loadout, n - 1);
      var item := inv[n - 1];
      if IsCharacter(item.itemType) && item.itemType !in filled
      then (Inventory.Equip(worn, item.itemType, item.serial), filled + {item.itemType})
      else (worn, filled)
  }

  function Login(a: Account, now: int): Account {
    var p := Purge(a, now);
    p.(loadout := Dressed(p.inventory, p.loadout, |p.inventory|).0)
  }

  /** The kit of a new account: those starter items the catalog knows, each equipped. */
  function Kit(cat: Catalog, n: nat, now: int): (seq<Item>, seq<Equipped>)
    requires n <= |STARTER_ITEMS|
    ensures |Kit(cat, n, now).0| <= n
  {
    if n == 0 then ([], [])
    else
      var (inv, loadout) := Kit(cat, n - 1, now);
      var index := STARTER_ITEMS[n - 1];
      if index !in cat.items then (inv, loadout)
      else
        var g, serial := cat.items[index], |inv| + 1;
        (inv + [Item(serial, index, 1, 1, ItemType(g), ExpiryFor(g, now))], loadout + [Equipped(ItemType(g), serial)])
  }

  function NewAccount(cat: Catalog, point: uint64, cash: uint64, now: int): Account {
    var (inv, loadout) := Kit(cat, |STARTER_ITEMS|, now);
    Account(1, point, cash, inv, loadout, [])
  }
}
