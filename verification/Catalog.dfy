/** The game's static reference data: what the store sells, what can be crafted, which part
    fits which weapon. */
module Catalog {
  import opened Bytes

  /** The columns of `GameItem.csv` that the services read. */
  datatype GameItem = GameItem(
    highGroup: int, middleGroup: int, functionIndex: int,
    pointPrice: uint64, cashPrice: uint64, cashType: int, isSell: bool, isSale: bool, salePrice: uint64,
    useTime: int, isMerge: bool, buyLevelLimit: int)

  datatype Material = Material(itemIndex: uint32, count: int)

  datatype Recipe = Recipe(
    exist: bool, requireLevel: int, pricePoint: uint64, materials: seq<Material>, itemOutput: uint32)

  datatype Catalog = Catalog(
    items: map<uint32, GameItem>, recipes: map<uint32, Recipe>, partsFor: map<uint32, set<uint32>>)

  /** What Go reads from the items map for an index that is not there. */
  const NO_ITEM := GameItem(0, 0, 0, 0, 0, 0, false, false, 0, 0, false, 0)

  const STARTER_ITEMS: seq<uint32> := [11100101, 12100101, 21102201]

  function Lookup(cat: Catalog, index: uint32): GameItem {
    if index in cat.items then cat.items[index] else NO_ITEM
  }

  function ItemType(g: GameItem): uint8 {
    (0x0B + (g.highGroup - 1) * 0x0A + (g.middleGroup - 1)) % 0x100
  }

  /** A weapon absent from the table accepts nothing. */
  predicate Accepts(cat: Catalog, weapon: uint32, part: uint32) {
    weapon in cat.partsFor && part in cat.partsFor[weapon]
  }

  predicate IsRental(cat: Catalog, index: uint32) {
    Lookup(cat, index).useTime > 0
  }

  datatype Wallet = NoWallet | PointWallet | CashWallet

  function StorePrice(g: GameItem): (Wallet, uint64) {
    var pointPrice := if g.isSale && g.salePrice > 0 then g.salePrice else g.pointPrice;
    if g.cashType == 1 && g.cashPrice > 0 then (CashWallet, g.cashPrice)
    else if g.cashType != 1 && pointPrice > 0 then (PointWallet, pointPrice)
    else if g.cashPrice > 0 then (CashWallet, g.cashPrice)
    else (NoWallet, 0)
  }
}
