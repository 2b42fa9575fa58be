/** The player service over its in-memory repository: every call reads an account, changes the
    copy and stores it, and does to the account exactly what `Economy` says. */
module PlayerService {
  import opened Bytes
  import opened Wrappers
  import opened Seqs
  import opened GoSlice
  import opened Catalog
  import opened Inventory
  import opened PlayerModel
  import Economy

  // Every array has one owner, so writing one account's cannot change another.
  type Owners = map<array<Item>, string>

  /** The array is the account's own, or nobody's. */
  ghost predicate Storable(o: Owners, id: string, arr: array<Item>) {
    arr in o ==> o[arr] == id
  }

  /** The stored structs show exactly these accounts, and own their arrays. */
  ghost predicate Shows(players: map<string, PlayerRec>, contents: map<string, Account>, o: Owners)
    reads o.Keys
  {
    && players.Keys == contents.Keys
    && forall id | id in players ::
      && players[id].inventory.arr in o && o[players[id].inventory.arr] == id
      && Fits(players[id].inventory) && AccountOf(players[id]) == contents[id]
  }

  lemma ShowsPut(players: map<string, PlayerRec>, contents: map<string, Account>, o: Owners, id: string, r: PlayerRec)
    requires Shows(players, contents, o) && Fits(r.inventory) && Storable(o, id, r.inventory.arr)
    ensures Shows(players[id := r], contents[id := AccountOf(r)], o[r.inventory.arr := id])
  {
    hide AccountOf;
  }

  twostate lemma SameAccount(r: PlayerRec)
    requires Fits(r.inventory) && r.inventory.arr[..] == old(r.inventory.arr[..])
    ensures AccountOf(r) == old(AccountOf(r))
  {
    var s := r.inventory;
    assert s.arr[s.off..s.off + s.len] == s.arr[..][s.off..s.off + s.len];
  }

  /** The struct with its wallet debited. */
  method Paid(r: PlayerRec, wallet: Wallet, price: uint64) returns (r': PlayerRec)
    requires Fits(r.inventory)
    ensures r' == r.(point := r'.point, cash := r'.cash) && AccountOf(r') == Charge(AccountOf(r), wallet, price)
  {
    var player := new Player(r);
    player.Debit(wallet, price);
    r' := player.Rec();
  }

  class MemoryPlayerRepository {
    var players: map<string, PlayerRec>
    ghost var contents: map<string, Account>
    ghost var owners: Owners

    constructor ()
      ensures Valid() && contents == map[] && owners == map[]
    {
      players, contents, owners := map[], map[], map[];
    }

    ghost predicate Valid()
      reads this, owners.Keys
    {
      Shows(players, contents, owners)
    }

    /** What the caller of `Find` holds: the stored struct itself, array and all. */
    ghost predicate Found(id: string, r: PlayerRec)
      reads this, r.inventory.arr
    {
      && id in players && players[id] == r && r.inventory.arr in owners && owners[r.inventory.arr] == id
      && Fits(r.inventory) && id in contents && contents[id] == AccountOf(r)
    }

    method Find(steamID: string) returns (r: Option<PlayerRec>)
      requires Valid()
      ensures r.Some? <==> steamID in contents
      ensures r.Some? ==> Found(steamID, r.value)
    {
      r := if steamID in players then Some(players[steamID]) else None;
    }

    /** Writing the array of one account changes what is shown of that account alone. */
    twostate lemma StillShows(id: string)
      requires old(Valid()) && id in players && unchanged(this)
      requires forall a | a in owners && a != players[id].inventory.arr :: a[..] == old(a[..])
      ensures Fits(players[id].inventory) && Shows(players, contents[id := AccountOf(players[id])], owners)
    {
      hide AccountOf;
      forall other | other in players && other != id
        ensures AccountOf(players[other]) == contents[other]
      {
        SameAccount(players[other]);
      }
    }

    /** A stored struct is replaced, or a new one stored. */
    method Put(id: string, r: PlayerRec)
      requires Valid() && Fits(r.inventory) && Storable(owners, id, r.inventory.arr)
      modifies this
      ensures Valid() && contents == old(contents)[id := AccountOf(r)]
    {
      hide Shows, AccountOf, Storable;
      ShowsPut(players, contents, owners, id, r);
      ghost var o := owners[r.inventory.arr := id];
      players, contents, owners := players[id := r], contents[id := AccountOf(r)], o;
    }

    method Create(steamID: string, r: PlayerRec) returns (ok: bool)
      requires Valid() && Fits(r.inventory) && Storable(owners, steamID, r.inventory.arr)
      modifies this
      ensures Valid() && (ok <==> steamID !in old(contents))
      ensures contents == if ok then old(contents)[steamID := AccountOf(r)] else old(contents)
    {
      ok := steamID !in players;
      if ok {
        Put(steamID, r);
      }
    }

    method SaveLoadout(steamID: string, loadout: seq<Equipped>)
      requires Valid()
      modifies this
      ensures Valid() && contents ==
        if steamID in old(contents) then old(contents)[steamID := old(contents)[steamID].(loadout := loadout)]
        else old(contents)
    {
      hide Shows;
      var r := Find(steamID);
      if r.Some? {
        Put(steamID, r.value.(loadout := loadout));
      }
    }

    method SaveAttachments(steamID: string, attachments: seq<Attached>)
      requires Valid()
      modifies this
      ensures Valid() && contents ==
        if steamID in old(contents) then old(contents)[steamID := old(contents)[steamID].(attachments := attachments)]
        else old(contents)
    {
      hide Shows;
      var r := Find(steamID);
      if r.Some? {
        Put(steamID, r.value.(attachments := attachments));
      }
    }

    method CommitInventory(steamID: string, inv: Slice<Item>, wallet: Wallet, price: uint64) returns (applied: bool)
      requires Valid() && Fits(inv) && Storable(owners, steamID, inv.arr)
      modifies this
      ensures Valid()
      ensures applied <==>
        steamID in old(contents) && Economy.Commit(old(contents)[steamID], View(inv), wallet, price).Some?
      ensures if applied
        then contents
          == old(contents)[steamID := Economy.Commit(old(contents)[steamID], View(inv), wallet, price).value]
        else unchanged(this)
    {
      hide Shows;
      var r := Find(steamID);
      if r.None? {
        return false;
      }
      if price > 0 && Balance(AccountOf(r.value), wallet) < price {
        return false;
      }
      var paid := Paid(r.value, wallet, price);
      Put(steamID, paid.(inventory := inv));
      return true;
    }
  }

  /** A commit over an inventory that was written already. */
  lemma Settles(contents: map<string, Account>, id: string, now: Account, inv: seq<Item>, w: Wallet, price: uint64)
    requires id in contents && now == contents[id].(inventory := now.inventory)
    requires price > 0 ==> Balance(contents[id], w) >= price
    ensures Economy.Commit(now, inv, w, price) == Some(Charge(contents[id], w, price).(inventory := inv))
    ensures contents[id := now][id := Economy.Commit(now, inv, w, price).value]
         == contents[id := Charge(contents[id], w, price).(inventory := inv)]
    ensures Charge(contents[id].(inventory := inv), w, price) == Charge(contents[id], w, price).(inventory := inv)
  {
  }

  lemma PurgeParts(a: Account, now: int)
    ensures var p := Purge(a, now);
      p == a.(inventory := p.inventory, loadout := p.loadout, attachments := p.attachments)
  {
  }

  class PlayerService {
    const repo: MemoryPlayerRepository
    const cat: Catalog
    const startingPoint: uint64
    const startingCash: uint64

    constructor (repo: MemoryPlayerRepository, cat: Catalog, startingPoint: uint64, startingCash: uint64)
      ensures this.repo == repo && this.cat == cat
      ensures this.startingPoint == startingPoint && this.startingCash == startingCash
    {
      this.repo, this.cat, this.startingPoint, this.startingCash := repo, cat, startingPoint, startingCash;
    }

    /** One account is stored anew; nobody else's changes. */
    ghost predicate Stores(was: map<string, Account>, steamID: string, after: Account)
      reads repo, repo.owners.Keys
    {
      repo.Valid() && repo.contents == was[steamID := after]
    }

    method Equip(steamID: string, serial: uint16, now: int) returns (r: Result<Account, Economy.Error>)
      requires repo.Valid()
      modifies repo
      ensures steamID !in old(repo.contents) ==> r == Failure(Economy.PlayerNotFound)
      ensures steamID in old(repo.contents) ==> r == Economy.Equip(old(repo.contents)[steamID], serial, now)
      ensures if r.Success? then Stores(old(repo.contents), steamID, r.value) else repo.Valid() && unchanged(repo)
    {
      hide Shows;
      var found := repo.Find(steamID);
      if found.None? {
        return Failure(Economy.PlayerNotFound);
      }
      var player := new Player(found.value);
      var item := player.Item(serial);
      if item.None? {
        return Failure(Economy.ItemNotOwned);
      }
      if IsExpired(item.value, now) {
        return Failure(Economy.ItemExpired);
      }
      player.loadout := EquipSlot(player.loadout, item.value.itemType, serial);
      repo.SaveLoadout(steamID, player.loadout);
      return Success(player.Value());
    }

    method ChangeWeapons(steamID: string, serials: seq<uint16>, now: int) returns (r: Result<Account, Economy.Error>)
      requires repo.Valid()
      modifies repo
      ensures steamID !in old(repo.contents) ==> r == Failure(Economy.PlayerNotFound)
      ensures steamID in old(repo.contents) ==> r == Economy.ChangeWeapons(old(repo.contents)[steamID], serials, now)
      ensures if r.Success? then Stores(old(repo.contents), steamID, r.value) else repo.Valid() && unchanged(repo)
    {
      hide Shows;
      var found := repo.Find(steamID);
      if found.None? {
        return Failure(Economy.PlayerNotFound);
      }
      var player := new Player(found.value);
      var armed := Arm(player, serials, now);
      if armed.Failure? {
        return Failure(armed.error);
      }
      player.loadout := armed.value;
      repo.SaveLoadout(steamID, player.loadout);
      return Success(player.Value());
    }

    /** The loadout with the listed weapons, one after the other. */
    method Arm(player: Player, serials: seq<uint16>, now: int) returns (r: Result<seq<Equipped>, Economy.Error>)
      requires Fits(player.inventory)
      ensures r == Economy.Armed(player.Value(), player.loadout, serials, now)
    {
      ghost var a := player.Value();
      var loadout := player.loadout;
      assert serials[0..] == serials;
      for i := 0 to |serials|
        invariant Economy.Armed(a, loadout, serials[i..], now) == Economy.Armed(a, player.loadout, serials, now)
        modifies {}
      {
        var serial := serials[i];
        assert serials[i..][0] == serial && serials[i..][1..] == serials[i + 1..];
        if serial == 0 {
          continue;
        }
        var item := player.Item(serial);
        if item.None? {
          return Failure(Economy.ItemNotOwned);
        }
        if IsExpired(item.value, now) {
          return Failure(Economy.ItemExpired);
        }
        loadout := EquipSlot(loadout, item.value.itemType, serial);
      }
      return Success(loadout);
    }

    method Attach(steamID: string, parent: uint16, child: uint16, now: int)
      returns (r: Result<(Account, Item), Economy.Error>)
      requires repo.Valid()
      modifies repo
      ensures steamID !in old(repo.contents) ==> r == Failure(Economy.PlayerNotFound)
      ensures steamID in old(repo.contents) ==>
        r == Economy.Attach(cat, old(repo.contents)[steamID], parent, child, now)
      ensures if r.Success? then Stores(old(repo.contents), steamID, r.value.0) else repo.Valid() && unchanged(repo)
    {
      hide Shows, Find, Accepts, IsCustomSlot, IsExpired, Mount;
      var found := repo.Find(steamID);
      if found.None? {
        return Failure(Economy.PlayerNotFound);
      }
      var player := new Player(found.value);
      var part := player.Item(child);
      if part.None? {
        return Failure(Economy.ItemNotOwned);
      }
      var weapon := player.Item(parent);
      if weapon.None? {
        return Failure(Economy.ItemNotOwned);
      }
      if IsExpired(part.value, now) {
        return Failure(Economy.ItemExpired);
      }
      if IsCustomSlot(part.value.itemType) && !Accepts(cat, weapon.value.index, part.value.index) {
        return Failure(Economy.PartNotCompatible);
      }
      player.attachments := MountOn(player.attachments, parent, child, part.value.itemType);
      repo.SaveAttachments(steamID, player.attachments);
      return Success((player.Value(), part.value));
    }

    method Detach(steamID: string, parent: uint16, child: uint16) returns (r: Result<(Account, Item), Economy.Error>)
      requires repo.Valid()
      modifies repo
      ensures steamID !in old(repo.contents) ==> r == Failure(Economy.PlayerNotFound)
      ensures steamID in old(repo.contents) ==> r == Economy.Detach(old(repo.contents)[steamID], parent, child)
      ensures if r.Success? then Stores(old(repo.contents), steamID, r.value.0) else repo.Valid() && unchanged(repo)
    {
      hide Shows;
      var found := repo.Find(steamID);
      if found.None? {
        return Failure(Economy.PlayerNotFound);
      }
      var player := new Player(found.value);
      var part := player.Item(child);
      if part.None? {
        return Failure(Economy.ItemNotOwned);
      }
      player.attachments := UnmountFrom(player.attachments, parent, child);
      repo.SaveAttachments(steamID, player.attachments);
      return Success((player.Value(), part.value));
    }

    /** Extending a rental or growing a stack writes the shared array; a new row is appended. */
    method AddToInventory(player: Player, g: GameItem, index: uint32, now: int) returns (item: Item, isNew: bool)
      requires Fits(player.inventory)
      modifies player`inventory, player.inventory.arr
      ensures Fits(player.inventory)
      ensures player.inventory.arr == old(player.inventory.arr) || fresh(player.inventory.arr)
      ensures Economy.Added(View(player.inventory), item, isNew)
           == Economy.AddToInventory(old(View(player.inventory)), g, index, now)
      ensures !isNew ==> player.inventory == old(player.inventory)
      ensures isNew ==> View(old(player.inventory)) == old(View(player.inventory))
      ensures isNew && item.serial == 0 ==> unchanged(old(player.inventory.arr))
    {
      hide IndexOf, Inventory.NextSerial, ItemType, Economy.ExpiryFor, Economy.Start;
      var i := FirstOf(View(player.inventory), index);
      if i < player.inventory.len && (g.useTime > 0 || g.isMerge) {
        item := View(player.inventory)[i];
        if g.useTime > 0 {
          item := item.(expiry := At(Economy.Start(item.expiry, now) + g.useTime * SECOND));
        } else {
          item := item.(value := (item.value + 1) % TWO_32);
        }
        WriteAt(player.inventory, i, item);
        return item, false;
      }
      var serial := player.NextSerial();
      item := Item(serial, index, 1, 1, ItemType(g), Economy.ExpiryFor(g, now));
      if item.serial != 0 {
        player.inventory := Append(player.inventory, [item]);
      }
      isNew := true;
    }

    method FirstOf(items: seq<Item>, index: uint32) returns (i: nat)
      ensures i == IndexOf(items, OfIndex(index))
    {
      i := 0;
      while i < |items|
        invariant i <= |items| && forall j | 0 <= j < i :: !OfIndex(index)(items[j])
      {
        if items[i].index == index {
          assert OfIndex(index)(items[i]);
          return;
        }
        i := i + 1;
      }
    }

    /** What is stored shows the write before anything is committed. */
    method AddTo(steamID: string, player: Player, g: GameItem, index: uint32, now: int)
      returns (item: Item, isNew: bool)
      requires repo.Valid() && repo.Found(steamID, player.Rec())
      modifies repo`contents, player`inventory, player.inventory.arr
      ensures repo.Valid() && Fits(player.inventory) && Storable(repo.owners, steamID, player.inventory.arr)
      ensures Economy.Added(View(player.inventory), item, isNew)
           == Economy.AddToInventory(old(View(player.inventory)), g, index, now)
      ensures steamID in repo.contents
      ensures repo.contents == old(repo.contents)[steamID := repo.contents[steamID]]
      ensures repo.contents[steamID] == old(repo.contents[steamID]).(inventory := repo.contents[steamID].inventory)
      ensures isNew && item.serial == 0 ==> repo.contents == old(repo.contents) && unchanged(old(player.inventory.arr))
    {
      hide Shows, Economy.AddToInventory;
      item, isNew := AddToInventory(player, g, index, now);
      repo.StillShows(steamID);
      repo.contents := repo.contents[steamID := AccountOf(repo.players[steamID])];
    }

    /** The item added, the price taken and the inventory stored; or no serial left, and nothing. */
    method Complete(
      steamID: string, player: Player, g: GameItem, index: uint32, now: int, wallet: Wallet, price: uint64)
      returns (r: Result<(Item, bool), Economy.Error>)
      requires repo.Valid() && repo.Found(steamID, player.Rec())
      requires price > 0 ==> Balance(player.Value(), wallet) >= price
      modifies repo, player, player.inventory.arr
      ensures var d := Economy.AddToInventory(old(View(player.inventory)), g, index, now);
        if d.isNew && d.item.serial == 0 then r == Failure(Economy.InventoryFull) && repo.Valid() && unchanged(repo)
        else
          && r == Success((d.item, d.isNew)) && Fits(player.inventory)
          && player.Value() == Charge(old(player.Value()), wallet, price).(inventory := d.inventory)
          && Stores(old(repo.contents), steamID, player.Value())
      ensures r.Failure? ==> forall a | a in old(repo.owners) :: unchanged(a)
    {
      hide Shows, Economy.AddToInventory, Charge, Economy.Commit, Balance, Storable;
      var item, isNew := AddTo(steamID, player, g, index, now);
      if isNew && item.serial == 0 {
        return Failure(Economy.InventoryFull);
      }
      Settles(old(repo.contents), steamID, repo.contents[steamID], View(player.inventory), wallet, price);
      var applied := repo.CommitInventory(steamID, player.inventory, wallet, price);
      if !applied {
        return Failure(Economy.InsufficientFunds);
      }
      player.Debit(wallet, price);
      return Success((item, isNew));
    }

    /** A refusal comes before any write. */
    method Buy(steamID: string, index: uint32, now: int) returns (r: Result<Economy.Bought, Economy.Error>)
      requires repo.Valid()
      modifies repo, repo.owners.Keys
      ensures steamID !in old(repo.contents) ==> r == Failure(Economy.PlayerNotFound)
      ensures steamID in old(repo.contents) ==> r == Economy.Buy(cat, old(repo.contents)[steamID], index, now)
      ensures
        if r.Success? then Stores(old(repo.contents), steamID, r.value.account)
        else repo.Valid() && unchanged(repo)
      ensures r.Failure? ==> forall a | a in old(repo.owners) :: unchanged(a)
    {
      hide Shows, Economy.AddToInventory, StorePrice;
      var found := repo.Find(steamID);
      if found.None? {
        return Failure(Economy.PlayerNotFound);
      }
      var player := new Player(found.value);
      if index !in cat.items {
        return Failure(Economy.ItemUnknown);
      }
      var g := cat.items[index];
      if !g.isSell {
        return Failure(Economy.ItemNotForSale);
      }
      if player.level < g.buyLevelLimit {
        return Failure(Economy.LevelTooLow);
      }
      var (wallet, price) := StorePrice(g);
      if price > 0 && Balance(player.Value(), wallet) < price {
        return Failure(Economy.InsufficientFunds);
      }
      var added := Complete(steamID, player, g, index, now, wallet, price);
      if added.Failure? {
        return Failure(added.error);
      }
      return Success(Economy.Bought(player.Value(), added.value.0, added.value.1, wallet, price));
    }

    method BuyCustomPart(steamID: string, weapon: uint16, index: uint32, now: int, later: int)
      returns (r: Result<Economy.Bought, Economy.Error>)
      requires repo.Valid()
      modifies repo, repo.owners.Keys
      ensures steamID !in old(repo.contents) ==> r == Failure(Economy.PlayerNotFound) && repo.Valid() && unchanged(repo)
      ensures steamID in old(repo.contents) ==>
        r == Economy.BuyCustomPart(cat, old(repo.contents)[steamID], weapon, index, now, later).1
      ensures steamID in old(repo.contents) ==>
        Stores(old(repo.contents), steamID,
               Economy.BuyCustomPart(cat, old(repo.contents)[steamID], weapon, index, now, later).0)
    {
      hide Shows, Economy.Buy, Economy.Attach;
      var found := repo.Find(steamID);
      if found.None? {
        return Failure(Economy.PlayerNotFound);
      }
      var player := new Player(found.value);
      var gun := player.Item(weapon);
      if gun.None? {
        return Failure(Economy.ItemNotOwned);
      }
      if !Accepts(cat, gun.value.index, index) {
        return Failure(Economy.PartNotCompatible);
      }
      r := BuyAndMount(steamID, weapon, index, now, later);
    }

    /** Two stored steps: what was bought stays bought when it cannot be mounted. */
    method BuyAndMount(steamID: string, weapon: uint16, index: uint32, now: int, later: int)
      returns (r: Result<Economy.Bought, Economy.Error>)
      requires repo.Valid() && steamID in repo.contents
      modifies repo, repo.owners.Keys
      ensures match Economy.Buy(cat, old(repo.contents)[steamID], index, now)
              case Failure(e) => r == Failure(e) && repo.Valid() && unchanged(repo)
              case Success(b) =>
                match Economy.Attach(cat, b.account, weapon, b.item.serial, later)
                case Failure(e) => r == Failure(e) && Stores(old(repo.contents), steamID, b.account)
                case Success((mounted, _)) =>
                  r == Success(b.(account := mounted)) && Stores(old(repo.contents), steamID, mounted)
      ensures Economy.Buy(cat, old(repo.contents)[steamID], index, now).Failure? ==>
        forall a | a in old(repo.owners) :: unchanged(a)
    {
      hide Shows, Economy.Buy, Economy.Attach;
      r := Buy(steamID, index, now);
      if r.Failure? {
        return;
      }
      var mounted := Attach(steamID, weapon, r.value.item.serial, later);
      if mounted.Failure? {
        return Failure(mounted.error);
      }
      return Success(r.value.(account := mounted.value.0));
    }

    /** Builds new lists: no stored array is written. */
    method Craft(steamID: string, recipeID: uint32, now: int) returns (r: Result<Economy.Crafted, Economy.Error>)
      requires repo.Valid()
      modifies repo
      ensures steamID !in old(repo.contents) ==> r == Failure(Economy.PlayerNotFound)
      ensures steamID in old(repo.contents) ==> r == Economy.Craft(cat, old(repo.contents)[steamID], recipeID, now)
      ensures
        if r.Success? then Stores(old(repo.contents), steamID, r.value.account)
        else repo.Valid() && unchanged(repo)
    {
      hide Shows, Consume, Economy.NeedFor, Economy.NewItem, Charge;
      var found := repo.Find(steamID);
      if found.None? {
        return Failure(Economy.PlayerNotFound);
      }
      var recipe := RecipeFor(found.value, recipeID);
      if recipe.Failure? {
        return Failure(recipe.error);
      }
      var player := new Player(found.value);
      var need := AddUp(recipe.value.materials);
      r := Assemble(steamID, player, need, recipe.value, now);
    }

    /** The recipe, when the account may use it and can pay. */
    method RecipeFor(rec: PlayerRec, recipeID: uint32) returns (r: Result<Recipe, Economy.Error>)
      ensures r ==
        if recipeID !in cat.recipes || !cat.recipes[recipeID].exist then Failure(Economy.RecipeUnknown)
        else if rec.level < cat.recipes[recipeID].requireLevel then Failure(Economy.LevelTooLow)
        else if cat.recipes[recipeID].pricePoint > 0 && rec.point < cat.recipes[recipeID].pricePoint
        then Failure(Economy.InsufficientFunds)
        else Success(cat.recipes[recipeID])
    {
      if recipeID !in cat.recipes || !cat.recipes[recipeID].exist {
        return Failure(Economy.RecipeUnknown);
      }
      var recipe := cat.recipes[recipeID];
      if rec.level < recipe.requireLevel {
        return Failure(Economy.LevelTooLow);
      }
      if recipe.pricePoint > 0 && rec.point < recipe.pricePoint {
        return Failure(Economy.InsufficientFunds);
      }
      return Success(recipe);
    }

    /** The materials taken, the output added, the price taken and all of it stored. */
    method Assemble(steamID: string, player: Player, need: Need, recipe: Recipe, now: int)
      returns (r: Result<Economy.Crafted, Economy.Error>)
      requires repo.Valid() && repo.Found(steamID, player.Rec())
      requires recipe.pricePoint > 0 ==> player.point >= recipe.pricePoint
      modifies repo, player
      ensures match Consume(old(View(player.inventory)), need)
              case None => r == Failure(Economy.MaterialMissing) && repo.Valid() && unchanged(repo)
              case Some(t) =>
                var output := Economy.NewItem(t.next, Lookup(cat, recipe.itemOutput), recipe.itemOutput, now);
                if output.serial == 0 then r == Failure(Economy.InventoryFull) && repo.Valid() && unchanged(repo)
                else
                  var a := Charge(old(player.Value()), PointWallet, recipe.pricePoint).(inventory := t.next + [output]);
                  && r == Success(Economy.Crafted(a, output, t.deleted, t.updated, recipe.pricePoint))
                  && Stores(old(repo.contents), steamID, a)
    {
      hide Shows, Consume, Economy.NewItem;
      var output, deleted, updated, ok := Replace(player, need, recipe.itemOutput, now);
      if !ok {
        return Failure(Economy.MaterialMissing);
      }
      if output.serial == 0 {
        return Failure(Economy.InventoryFull);
      }
      assert repo.contents[steamID] == old(player.Value());
      Settles(repo.contents, steamID, repo.contents[steamID], View(player.inventory), PointWallet, recipe.pricePoint);
      hide Charge, Economy.Commit, Balance;
      var applied := repo.CommitInventory(steamID, player.inventory, PointWallet, recipe.pricePoint);
      if !applied {
        return Failure(Economy.InsufficientFunds);
      }
      player.Debit(PointWallet, recipe.pricePoint);
      return Success(Economy.Crafted(player.Value(), output, deleted, updated, recipe.pricePoint));
    }

    /** The new list: the materials' stacks shortened or gone, the output at the end. */
    method Replace(player: Player, need: Need, index: uint32, now: int)
      returns (output: Item, deleted: seq<uint16>, updated: seq<Item>, ok: bool)
      requires Fits(player.inventory)
      modifies player`inventory
      ensures Fits(player.inventory)
      ensures match Consume(old(View(player.inventory)), need)
              case None => !ok && player.inventory == old(player.inventory)
              case Some(t) =>
                && ok && deleted == t.deleted && updated == t.updated
                && output == Economy.NewItem(t.next, Lookup(cat, index), index, now)
                && fresh(player.inventory.arr)
                && (output.serial != 0 ==> View(player.inventory) == t.next + [output])
    {
      hide Consume, Inventory.NextSerial, ItemType, Economy.ExpiryFor;
      deleted, updated, ok := player.ConsumeMaterials(need);
      if !ok {
        output := Item(0, index, 0, 0, 0, Never);
        return;
      }
      var serial := player.NextSerial();
      var g := Lookup(cat, index);
      output := Item(serial, index, 1, 1, ItemType(g), Economy.ExpiryFor(g, now));
      if serial != 0 {
        player.inventory := Append(player.inventory, [output]);
      }
    }

    method AddUp(materials: seq<Material>) returns (need: Need)
      ensures need == Economy.NeedFor(materials)
    {
      need := map[];
      for i := 0 to |materials|
        invariant need == Economy.NeedFor(materials[..i])
      {
        assert materials[..i + 1][..i] == materials[..i];
        var material := materials[i];
        need := need[material.itemIndex := Needed(need, material.itemIndex) + material.count];
      }
      assert materials[..|materials|] == materials;
    }

    method FindConsumable(inv: seq<Item>, functionIndex: int) returns (r: Option<Item>)
      ensures r == Find(inv, Economy.Serves(cat, functionIndex))
    {
      for i := 0 to |inv|
        invariant forall j | 0 <= j < i :: !Economy.Serves(cat, functionIndex)(inv[j])
      {
        if inv[i].index in cat.items && cat.items[inv[i].index].functionIndex == functionIndex && inv[i].value > 0 {
          assert Economy.Serves(cat, functionIndex)(inv[i]);
          return Some(inv[i]);
        }
      }
      return None;
    }

    /** A stack that only shrinks is stored before the commit; a refusal comes before any write. */
    method SpendConsumable(steamID: string, functionIndex: int) returns (r: Result<(Account, Spent), Economy.Error>)
      requires repo.Valid()
      modifies repo, repo.owners.Keys
      ensures steamID !in old(repo.contents) ==> r == Failure(Economy.PlayerNotFound)
      ensures steamID in old(repo.contents) ==>
        r == Economy.SpendConsumable(cat, old(repo.contents)[steamID], functionIndex)
      ensures if r.Success? then Stores(old(repo.contents), steamID, r.value.0) else repo.Valid() && unchanged(repo)
      ensures r.Failure? ==> forall a | a in old(repo.owners) :: unchanged(a)
    {
      hide Shows, Find, Inventory.SpendUnit, Economy.Serves;
      var found := repo.Find(steamID);
      if found.None? {
        return Failure(Economy.PlayerNotFound);
      }
      var player := new Player(found.value);
      var item := FindConsumable(View(player.inventory), functionIndex);
      if item.None? {
        return Failure(Economy.ConsumableMissing);
      }
      var spent := Spend(steamID, player, item.value.serial);
      if spent.None? {
        return Failure(Economy.ConsumableMissing);
      }
      return Success((player.Value(), spent.value));
    }

    method Spend(steamID: string, player: Player, serial: uint16) returns (r: Option<Spent>)
      requires repo.Valid() && repo.Found(steamID, player.Rec())
      modifies repo, player`inventory, player.inventory.arr
      ensures Fits(player.inventory)
      ensures match Inventory.SpendUnit(old(View(player.inventory)), serial)
              case None => r == None && repo.Valid() && unchanged(repo)
              case Some((next, spent)) =>
                && r == Some(spent) && player.Value() == old(player.Value()).(inventory := next)
                && Stores(old(repo.contents), steamID, player.Value())
      ensures r.None? ==> forall a | a in old(repo.owners) :: unchanged(a)
    {
      hide Shows, Inventory.SpendUnit;
      r := player.SpendUnit(serial);
      repo.StillShows(steamID);
      repo.contents := repo.contents[steamID := AccountOf(repo.players[steamID])];
      if r.None? {
        assert repo.contents == old(repo.contents);
        return;
      }
      Settles(old(repo.contents), steamID, repo.contents[steamID], View(player.inventory), NoWallet, 0);
      hide Economy.Commit, Storable;
      var _ := repo.CommitInventory(steamID, player.inventory, NoWallet, 0);
    }

    /** Builds new lists: no stored array is written. */
    method LoginBySteam(steamID: string, now: int) returns (a: Account)
      requires repo.Valid()
      modifies repo
      ensures a == if steamID in old(repo.contents) then Economy.Login(old(repo.contents)[steamID], now)
                   else Economy.NewAccount(cat, startingPoint, startingCash, now)
      ensures Stores(old(repo.contents), steamID, a)
    {
      hide Shows, Purge, Gone, Economy.Dressed, Economy.NewAccount;
      var found := repo.Find(steamID);
      if found.None? {
        var rec := OpenAccount(now);
        var _ := repo.Create(steamID, rec);
        return AccountOf(rec);
      }
      var player := new Player(found.value);
      Repair(steamID, player, now);
      a := player.Value();
    }

    /** Purges, dresses, and stores what has changed. */
    method Repair(steamID: string, player: Player, now: int)
      requires repo.Valid() && repo.Found(steamID, player.Rec())
      modifies repo, player
      ensures Fits(player.inventory) && player.Value() == Economy.Login(old(player.Value()), now)
      ensures Stores(old(repo.contents), steamID, player.Value())
    {
      hide Shows, Purge, Gone, Economy.Dressed, Storable;
      var changed := PurgeStored(steamID, player, now);
      var dressed := Dress(player);
      if changed || dressed {
        repo.SaveLoadout(steamID, player.loadout);
      }
    }

    /** Stores the purged inventory and mounts; the loadout is still to be saved. */
    method PurgeStored(steamID: string, player: Player, now: int) returns (changed: bool)
      requires repo.Valid() && repo.Found(steamID, player.Rec())
      modifies repo, player
      ensures repo.Valid() && Fits(player.inventory) && player.Value() == Purge(old(player.Value()), now)
      ensures repo.contents == old(repo.contents)[steamID := player.Value().(loadout := old(player.loadout))]
      ensures !changed ==> player.loadout == old(player.loadout)
    {
      hide Shows, Purge, Gone;
      ghost var was, known := player.Value(), repo.contents;
      assert known == known[steamID := was];
      PurgeParts(was, now);
      var removed := player.PurgeExpired(now);
      if removed == [] {
        return false;
      }
      Settles(known, steamID, was, View(player.inventory), NoWallet, 0);
      assert Charge(was, NoWallet, 0) == was;
      hide Charge, Economy.Commit, Balance;
      var _ := repo.CommitInventory(steamID, player.inventory, NoWallet, 0);
      repo.SaveAttachments(steamID, player.attachments);
      return true;
    }

    /** Gives each faction without a character the first one owned. */
    method Dress(player: Player) returns (changed: bool)
      requires Fits(player.inventory)
      modifies player`loadout
      ensures player.loadout ==
        Economy.Dressed(View(player.inventory), old(player.loadout), |View(player.inventory)|).0
      ensures !changed ==> player.loadout == old(player.loadout)
    {
      var items, before := View(player.inventory), player.loadout;
      var filled := FilledBy(items, before);
      changed := false;
      for i := 0 to |items|
        invariant (player.loadout, filled) == Economy.Dressed(items, before, i)
        invariant !changed ==> player.loadout == before
      {
        var item := items[i];
        if Economy.IsCharacter(item.itemType) && item.itemType !in filled {
          player.loadout := EquipSlot(player.loadout, item.itemType, item.serial);
          filled := filled + {item.itemType};
          changed := true;
        }
      }
    }

    method FilledBy(items: seq<Item>, loadout: seq<Equipped>) returns (filled: set<uint8>)
      ensures filled == Economy.FilledSlots(items, loadout)
    {
      filled := {};
      for i := 0 to |loadout|
        invariant filled == Economy.FilledSlots(items, loadout[..i])
      {
        var item := SearchSerial(items, loadout[i].serial);
        assert loadout[..i + 1] == loadout[..i] + [loadout[i]];
        if item.Some? && item.value.itemType == loadout[i].slot {
          filled := filled + {loadout[i].slot};
        }
      }
      assert loadout[..|loadout|] == loadout;
    }

    method OpenAccount(now: int) returns (r: PlayerRec)
      ensures Fits(r.inventory) && fresh(r.inventory.arr)
      ensures AccountOf(r) == Economy.NewAccount(cat, startingPoint, startingCash, now)
    {
      var inv, loadout, serial: uint16 := [], [], 1;
      for i := 0 to |STARTER_ITEMS|
        invariant (inv, loadout) == Economy.Kit(cat, i, now) && serial == |inv| + 1
      {
        var index := STARTER_ITEMS[i];
        if index !in cat.items {
          continue;
        }
        var g := cat.items[index];
        inv := inv + [Item(serial, index, 1, 1, ItemType(g), Economy.ExpiryFor(g, now))];
        loadout := loadout + [Equipped(ItemType(g), serial)];
        serial := serial + 1;
      }
      var slice := FromSeq(inv);
      r := PlayerRec(1, startingPoint, startingCash, slice, loadout, []);
    }
  }
}
