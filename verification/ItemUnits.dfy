/** Units of every item across purchases, crafting and consumables. */
module ItemUnits {
  import opened Bytes
  import opened Seqs
  import opened Catalog
  import opened Inventory
  import opened Economy
  import opened EconomyRuns

  lemma {:induction false} UnitsUpdate(inv: seq<Item>, i: nat, item: Item, index: uint32)
    requires i < |inv| && item.index == inv[i].index
    ensures Units(inv[i := item], index) == Units(inv, index) + if item.index == index then item.value - inv[i].value
        else 0
  {
    var n := |inv| - 1;
    if i == n {
      assert inv[i := item][..n] == inv[..n];
    } else {
      UnitsUpdate(inv[..n], i, item, index);
      assert inv[i := item][..n] == inv[..n][i := item];
    }
  }

  lemma {:induction false} UnitsWithout(inv: seq<Item>, i: nat, index: uint32)
    requires i < |inv|
    ensures Units(Without(inv, i), index) == Units(inv, index) - if inv[i].index == index then inv[i].value else 0
  {
    var n := |inv| - 1;
    if i == n {
      assert Without(inv, i) == inv[..n];
    } else {
      UnitsWithout(inv[..n], i, index);
      assert Without(inv, i) == Without(inv[..n], i) + [inv[n]];
      UnitsSnoc(Without(inv[..n], i), inv[n], index);
    }
  }

  /** The stack a purchase would grow is at the top of its 32 bits. */
  predicate StackFull(inv: seq<Item>, g: GameItem, index: uint32) {
    g.useTime <= 0 && g.isMerge && Find(inv, OfIndex(index)).Some? && Find(inv, OfIndex(index)).value.value == TWO_32
        - 1
  }

  /** Whether the purchase extends a rental the account already holds. */
  predicate Extends(inv: seq<Item>, g: GameItem, index: uint32) {
    g.useTime > 0 && Find(inv, OfIndex(index)).Some?
  }

  /** A purchase adds one unit of what was bought, or only time to a rental already held; the
      one stack it cannot grow is a full one. */
  lemma BuyUnits(cat: Catalog, a: Account, index: uint32, now: int, other: uint32)
    requires Buy(cat, a, index, now).Success?
    ensures var before, after := Units(a.inventory, other), Units(Buy(cat, a, index, now).value.account.inventory,
        other);
      && (other != index ==> after == before)
      && (Extends(a.inventory, cat.items[index], index) ==> after == before)
      && (other == index && !Extends(a.inventory, cat.items[index], index) ==>
            (after == before + 1 <==> !StackFull(a.inventory, cat.items[index], index)))
  {
    var inv, b := a.inventory, Buy(cat, a, index, now).value;
    var i := IndexOf(inv, OfIndex(index));
    if b.isNew {
      UnitsSnoc(inv, b.item, other);
    } else {
      UnitsUpdate(inv, i, b.item, other);
    }
    hide Units;
  }

  /** Crafting uses up exactly what the recipe names and makes one unit of its output. */
  lemma CraftUnits(cat: Catalog, a: Account, recipeID: uint32, now: int, index: uint32)
    requires Craft(cat, a, recipeID, now).Success?
    ensures var recipe := cat.recipes[recipeID];
      Units(Craft(cat, a, recipeID, now).value.account.inventory, index)
      == Units(a.inventory, index) - Positive(Required(recipe.materials, index)) + if recipe.itemOutput == index
          then 1 else 0
  {
    var recipe, c := cat.recipes[recipeID], Craft(cat, a, recipeID, now).value;
    var need := NeedFor(recipe.materials);
    ConsumeConserves(a.inventory, need, index);
    NeedIsSum(recipe.materials, index);
    UnitsSnoc(Consume(a.inventory, need).value.next, c.output, index);
    hide Units, Consume, NeedFor, Required;
  }

  /** What a recipe asks for of one item, over all its rows. */
  function Required(materials: seq<Material>, index: uint32): int {
    if materials == [] then 0
    else
      var last := materials[|materials| - 1];
      Required(materials[..|materials| - 1], index) + if last.itemIndex == index then last.count else 0
  }

  lemma {:induction false} NeedIsSum(materials: seq<Material>, index: uint32)
    ensures Needed(NeedFor(materials), index) == Required(materials, index)
  {
    if materials != [] {
      NeedIsSum(materials[..|materials| - 1], index);
    }
  }

  /** A consumable loses one unit, of an item that serves the purpose. */
  lemma SpendUnits(cat: Catalog, a: Account, f: int, index: uint32)
    requires AccountOk(cat, a) && SpendConsumable(cat, a, f).Success?
    ensures var used := Find(a.inventory, Serves(cat, f)).value;
      && used.index in cat.items && cat.items[used.index].functionIndex == f
      && Units(SpendConsumable(cat, a, f).value.0.inventory, index)
         == Units(a.inventory, index) - if used.index == index then 1 else 0
  {
    var inv, used := a.inventory, Find(a.inventory, Serves(cat, f)).value;
    FindItem(inv, used);
    var i := IndexOf(inv, WithSerial(used.serial));
    if inv[i].value <= 1 {
      UnitsWithout(inv, i, index);
    } else {
      UnitsUpdate(inv, i, inv[i].(value := inv[i].value - 1), index);
    }
    hide Units;
  }
}
