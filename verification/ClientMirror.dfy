/** The client's copy of an account, kept by replaying the deltas in the order they are sent. */
module ClientMirror {
  import opened Bytes
  import opened Wrappers
  import opened Seqs
  import opened Catalog
  import opened Inventory
  import opened PlayerModel
  import opened Economy
  import opened EconomyRuns

  /** An inventory row says what the item was worth at the moment it was written. */
  datatype Row = Row(index: uint32, itemType: uint8, state: uint8, wire: uint32, stamp: int)

  datatype Client = Client(point: uint64, cash: uint64, rows: map<uint16, Row>)

  datatype Delta =
    | SendPoint(point: uint64)
    | SendCash(cash: uint64)
    | SendItem(serial: uint16, row: Row)
    | SendItemValue(serial: uint16, wire: uint32, state: uint8, stamp: int)
    | SendDeleteItem(serial: uint16)

  function RowOf(item: Item, at: int): Row {
    Row(item.index, item.itemType, item.state, WireValue(item, at), at)
  }

  function ItemDelta(item: Item, at: int): Delta { SendItem(item.serial, RowOf(item, at)) }

  function ValueDelta(item: Item, at: int): Delta { SendItemValue(item.serial, WireValue(item, at), item.state, at) }

  // ---------------------------------------------------- what is sent

  function WalletDeltas(a: Account, w: Wallet): seq<Delta> {
    match w
    case PointWallet => [SendPoint(a.point)]
    case CashWallet => [SendCash(a.cash)]
    case NoWallet => []
  }

  function BuyDeltas(b: Bought, at: int): seq<Delta> {
    WalletDeltas(b.account, b.wallet) + [if b.isNew then ItemDelta(b.item, at) else ValueDelta(b.item, at)]
  }

  function Deletes(serials: seq<uint16>): seq<Delta> {
    seq(|serials|, i requires 0 <= i < |serials| => SendDeleteItem(serials[i]))
  }

  /** Each row reads the clock as it is written. */
  function Values(items: seq<Item>, clock: nat -> int): seq<Delta> {
    seq(|items|, i requires 0 <= i < |items| => ValueDelta(items[i], clock(i)))
  }

  function CraftDeltas(c: Crafted, clock: nat -> int): seq<Delta> {
    Deletes(c.deleted) + Values(c.updated, clock)
    + (if c.price > 0 then [SendPoint(c.account.point)] else [])
    + [ItemDelta(c.output, clock(|c.updated|))]
  }

  function SpendDeltas(spent: Spent, at: int): seq<Delta> {
    match spent
    case UsedUp(serial) => [SendDeleteItem(serial)]
    case Reduced(remaining) => [ValueDelta(remaining, at)]
  }

  /** The deltas of one call; a refused call sends none, and equipment has messages of its own. */
  function Deltas(cat: Catalog, a: Account, op: Op, clock: nat -> int): seq<Delta> {
    match op
    case Purchase(index, now) =>
      (match Buy(cat, a, index, now) case Success(b) => BuyDeltas(b, clock(0)) case Failure(_) => [])
    case PurchasePart(weapon, index, now, later) =>
      (match BuyCustomPart(cat, a, weapon, index, now, later).1
       case Success(b) => BuyDeltas(b, clock(0))
       case Failure(_) => [])
    case Make(recipeID, now) =>
      (match Craft(cat, a, recipeID, now) case Success(c) => CraftDeltas(c, clock) case Failure(_) => [])
    case UseUp(f) =>
      (match SpendConsumable(cat, a, f) case Success((_, spent)) => SpendDeltas(spent, clock(0)) case Failure(_) => [])
    case _ => []
  }

  // ----------------------------------------------------- the client's side

  function Take(c: Client, d: Delta): Client {
    match d
    case SendPoint(point) => c.(point := point)
    case SendCash(cash) => c.(cash := cash)
    case SendItem(serial, row) => c.(rows := c.rows[serial := row])
    case SendDeleteItem(serial) => c.(rows := c.rows - {serial})
    case SendItemValue(serial, wire, state, stamp) =>
      if serial in c.rows then
        c.(rows := c.rows[serial := c.rows[serial].(wire := wire, state := state, stamp := stamp)])
      else c
  }

  function Replay(c: Client, ds: seq<Delta>): Client {
    if ds == [] then c else Take(Replay(c, ds[..|ds| - 1]), ds[|ds| - 1])
  }

  /** What a login sends: every item, and both currencies. */
  function Snapshot(a: Account, at: int): Client {
    Client(a.point, a.cash,
      map s | s in Serials(a.inventory) && Find(a.inventory, WithSerial(s)).Some?
            :: RowOf(Find(a.inventory, WithSerial(s)).value, at))
  }

  /** The row is what the item, as stored now, would have been written as at the row's time. */
  predicate Shows(row: Row, item: Item) {
    row == RowOf(item, row.stamp)
  }

  ghost predicate RowsMirror(rows: map<uint16, Row>, inv: seq<Item>) {
    && (forall s :: s in rows <==> s in Serials(inv))
    && (forall item | item in inv :: item.serial in rows && Shows(rows[item.serial], item))
  }

  ghost predicate Mirrors(c: Client, a: Account) {
    c.point == a.point && c.cash == a.cash && RowsMirror(c.rows, a.inventory)
  }

  /** What that comes to: both balances, a row for every owned serial and no other, and in it the
      item's columns, with its count or the whole seconds it had left when the row was written. */
  lemma MirrorMeans(c: Client, a: Account, item: Item)
    requires Mirrors(c, a) && item in a.inventory
    ensures c.point == a.point && c.cash == a.cash
    ensures forall s :: s in c.rows <==> exists x :: x in a.inventory && x.serial == s
    ensures item.serial in c.rows
    ensures var row := c.rows[item.serial];
      && row.index == item.index && row.itemType == item.itemType && row.state == item.state
      && row.wire ==
           match item.expiry
           case Never => item.value
           case At(ns) => if ns <= row.stamp then 0 else (ns - row.stamp) / 1_000_000_000 % 0x1_0000_0000
  {
    forall s ensures s in c.rows <==> exists x :: x in a.inventory && x.serial == s {
      if s in c.rows {
        var k :| 0 <= k < |a.inventory| && Serials(a.inventory)[k] == s;
        assert a.inventory[k] in a.inventory;
      }
    }
  }

  /** A rental's row pins its stored expiry down to the second. */
  lemma RowPinsExpiry(row: Row, item: Item)
    requires Shows(row, item) && item.expiry.At?
    requires 0 <= item.expiry.ns - row.stamp < TWO_32 * SECOND
    ensures row.stamp + row.wire * SECOND <= item.expiry.ns < row.stamp + (row.wire + 1) * SECOND
  {
    var left := item.expiry.ns - row.stamp;
    assert left / SECOND < TWO_32;
  }

  // --------------------------------------------------------------- rows

  lemma ReplaySplit(c: Client, ds: seq<Delta>, es: seq<Delta>)
    ensures Replay(c, ds + es) == Replay(Replay(c, ds), es)
  {
    if es == [] {
      assert ds + es == ds;
    } else {
      ReplaySplit(c, ds, es[..|es| - 1]);
      assert (ds + es)[..|ds + es| - 1] == ds + es[..|es| - 1];
    }
  }

  lemma RowsAppend(rows: map<uint16, Row>, inv: seq<Item>, item: Item, at: int)
    requires RowsMirror(rows, inv) && SerialsOk(inv) && item.serial == NextSerial(inv) != 0
    ensures RowsMirror(rows[item.serial := RowOf(item, at)], inv + [item])
  {
    SerialsSnoc(inv, item);
    forall x | x in inv ensures x.serial != item.serial {
      SerialIn(inv, x);
    }
  }

  lemma RowsUpdate(rows: map<uint16, Row>, inv: seq<Item>, i: nat, item: Item, at: int)
    requires RowsMirror(rows, inv) && SerialsOk(inv) && i < |inv|
    requires item.serial == inv[i].serial && item.index == inv[i].index && item.itemType == inv[i].itemType
    ensures item.serial in rows
    ensures RowsMirror(
      rows[item.serial := rows[item.serial].(wire := WireValue(item, at), state := item.state, stamp := at)],
          inv[i := item])
  {
    assert inv[i] in inv;
    UpdateSerial(inv, i, item);
    forall x | x in inv[i := item] ensures x == item || (x in inv && x.serial != item.serial) {
      var k :| 0 <= k < |inv| && inv[i := item][k] == x;
      if k != i {
        assert Serials(inv)[k] == x.serial && Serials(inv)[i] == item.serial;
      }
    }
  }

  lemma RowsWithout(rows: map<uint16, Row>, inv: seq<Item>, i: nat)
    requires RowsMirror(rows, inv) && SerialsOk(inv) && i < |inv|
    ensures RowsMirror(rows - {inv[i].serial}, Without(inv, i))
  {
    var serials := Serials(inv);
    WithoutSerial(inv, i);
    assert serials[i] == inv[i].serial;
    forall s ensures s in Without(serials, i) <==> s in serials && s != inv[i].serial {
      WithoutKeeps(serials, i, s);
    }
    forall x | x in Without(inv, i) ensures x in inv && x.serial != inv[i].serial {
      WithoutKeeps(inv, i, x);
      SerialIn(Without(inv, i), x);
    }
  }

  lemma {:induction false} DeletesReplay(c: Client, serials: seq<uint16>)
    ensures Replay(c, Deletes(serials)) == c.(rows := c.rows - set s | s in serials)
  {
    if serials == [] {
      assert c.rows - (set s | s in serials) == c.rows;
    } else {
      var n := |serials| - 1;
      DeletesReplay(c, serials[..n]);
      assert Deletes(serials)[..n] == Deletes(serials[..n]);
      assert c.rows - (set s | s in serials) == c.rows - (set s | s in serials[..n]) - {serials[n]} by {
        assert serials == serials[..n] + [serials[n]];
      }
    }
  }

  lemma ValuesSnoc(c: Client, items: seq<Item>, clock: nat -> int)
    requires items != []
    ensures var n := |items| - 1;
      Replay(c, Values(items, clock)) == Take(Replay(c, Values(items[..n], clock)), ValueDelta(items[n], clock(n)))
  {
    hide ValueDelta;
    var n := |items| - 1;
    assert Values(items, clock)[..n] == Values(items[..n], clock);
  }

  lemma RowWritten(c: Client, item: Item, at: int)
    requires item.serial in c.rows
    requires c.rows[item.serial].index == item.index && c.rows[item.serial].itemType == item.itemType
    ensures Take(c, ValueDelta(item, at)) == c.(rows := c.rows[item.serial := RowOf(item, at)])
  {
    hide WireValue;
  }

  /** Every updated item gets its row written anew; the other rows stay. */
  lemma {:induction false} ValuesReplay(c: Client, items: seq<Item>, clock: nat -> int)
    requires forall x, y | x in items && y in items && x.serial == y.serial :: x == y
    requires forall x | x in items ::
      x.serial in c.rows && c.rows[x.serial].index == x.index && c.rows[x.serial].itemType == x.itemType
    ensures var c' := Replay(c, Values(items, clock));
      && c' == c.(rows := c'.rows) && c'.rows.Keys == c.rows.Keys
      && (forall s | s in c.rows && s !in Serials(items) :: c'.rows[s] == c.rows[s])
      && (forall x | x in items :: Shows(c'.rows[x.serial], x))
  {
    if items != [] {
      hide Serials, Values, WireValue, ValueDelta, Replay, Distinct;
      var n := |items| - 1;
      SerialsPrefix(items, n);
      assert items[..n + 1] == items;
      ValuesReplay(c, items[..n], clock);
      ValuesSnoc(c, items, clock);
      var c', c'' := Replay(c, Values(items[..n], clock)), Replay(c, Values(items, clock));
      RowWritten(c', items[n], clock(n));
      forall x | x in items ensures Shows(c''.rows[x.serial], x) {
        assert x in items[..n] || x == items[n];
      }
    }
  }

  lemma ReplayOne(c: Client, ds: seq<Delta>, d: Delta)
    ensures Replay(c, ds + [d]) == Take(Replay(c, ds), d)
  {
    assert (ds + [d])[..|ds|] == ds;
  }

  // --------------------------------------------------------------- calls

  lemma WalletReplay(c: Client, a: Account, b: Bought)
    requires c.point == a.point && c.cash == a.cash
    requires b.account.point == Charge(a, b.wallet, b.price).point
    requires b.account.cash == Charge(a, b.wallet, b.price).cash
    ensures Replay(c, WalletDeltas(b.account, b.wallet)) == Client(b.account.point, b.account.cash, c.rows)
  {
    assert Replay(c, []) == c;
    ReplayOne(c, [], SendPoint(b.account.point));
    ReplayOne(c, [], SendCash(b.account.cash));
    assert [] + [SendPoint(b.account.point)] == [SendPoint(b.account.point)];
    assert [] + [SendCash(b.account.cash)] == [SendCash(b.account.cash)];
  }

  lemma BuyMirror(cat: Catalog, c: Client, a: Account, index: uint32, now: int, at: int)
    requires AccountOk(cat, a) && Mirrors(c, a) && Buy(cat, a, index, now).Success?
    ensures Mirrors(Replay(c, BuyDeltas(Buy(cat, a, index, now).value, at)), Buy(cat, a, index, now).value.account)
  {
    hide RowsMirror, WireValue, SerialsOk, RentalsOk, Replay, Charge;
    var b := Buy(cat, a, index, now).value;
    WalletReplay(c, a, b);
    ReplayOne(c, WalletDeltas(b.account, b.wallet), if b.isNew then ItemDelta(b.item, at) else ValueDelta(b.item, at));
    if b.isNew {
      RowsAppend(c.rows, a.inventory, b.item, at);
    } else {
      RowsUpdate(c.rows, a.inventory, IndexOf(a.inventory, OfIndex(index)), b.item, at);
    }
  }

  lemma TailReplay(c: Client, used: seq<Delta>, price: uint64, point: uint64, next: seq<Item>, output: Item, at: int)
    requires RowsMirror(Replay(c, used).rows, next) && SerialsOk(next) && output.serial == NextSerial(next) != 0
    ensures var c' := Replay(c, used + (if price > 0 then [SendPoint(point)] else []) + [ItemDelta(output, at)]);
      && RowsMirror(c'.rows, next + [output])
      && c'.cash == Replay(c, used).cash && c'.point == if price > 0 then point else Replay(c, used).point
  {
    var priced := used + if price > 0 then [SendPoint(point)] else [];
    if price > 0 {
      ReplayOne(c, used, SendPoint(point));
    } else {
      assert priced == used;
    }
    ReplayOne(c, priced, ItemDelta(output, at));
    RowsAppend(Replay(c, used).rows, next, output, at);
    hide RowsMirror, WireValue, SerialsOk, NextSerial, Replay;
  }

  /** Deletions before updates, and both before the new item: its serial may be one just freed. */
  lemma CraftMirror(cat: Catalog, c: Client, a: Account, recipeID: uint32, now: int, clock: nat -> int)
    requires AccountOk(cat, a) && Mirrors(c, a) && Craft(cat, a, recipeID, now).Success?
    ensures Mirrors(Replay(c, CraftDeltas(Craft(cat, a, recipeID, now).value, clock)),
        Craft(cat, a, recipeID, now).value.account)
  {
    var r := Craft(cat, a, recipeID, now).value;
    var need := NeedFor(cat.recipes[recipeID].materials);
    ConsumeMirror(c, a.inventory, need, clock);
    ConsumedOk(cat, a.inventory, need);
    CraftMoney(cat, a, recipeID, now);
    TailReplay(c, Deletes(r.deleted) + Values(r.updated, clock), r.price, r.account.point,
      Consume(a.inventory, need).value.next, r.output, clock(|r.updated|));
    hide RowsMirror, SerialsOk, RentalsOk, Consume, NeedFor, Deletes, Values, Replay, ItemDelta;
  }

  lemma ConsumeMirror(c: Client, inv: seq<Item>, need: Need, clock: nat -> int)
    requires SerialsOk(inv) && RowsMirror(c.rows, inv) && Consume(inv, need).Some?
    ensures var t := Consume(inv, need).value; var c' := Replay(c, Deletes(t.deleted) + Values(t.updated, clock));
      c' == c.(rows := c'.rows) && RowsMirror(c'.rows, t.next)
  {
    hide Consume, Filter, Deletes, Values, Replay, Distinct, Serials;
    var t := Consume(inv, need).value;
    var c1 := Replay(c, Deletes(t.deleted));
    DeletesReplay(c, t.deleted);
    ReplaySplit(c, Deletes(t.deleted), Values(t.updated, clock));
    ConsumeDiff(inv, need);
    FilterHas(Serials(inv), NotIn(t.deleted));
    FilterDistinct(Serials(inv), NotIn(t.deleted));
    forall x | x in t.next ensures x.serial in c1.rows {
      SerialIn(t.next, x);
    }
    forall x, y | x in t.next && y in t.next && x.serial == y.serial ensures x == y {
      FindItem(t.next, x);
      FindItem(t.next, y);
    }
    forall x | x in t.updated ensures c.rows[x.serial].index == x.index && c.rows[x.serial].itemType == x.itemType {
      var was :| was in inv && x == was.(value := x.value);
    }
    ValuesReplay(c1, t.updated, clock);
  }

  lemma SpendMirror(cat: Catalog, c: Client, a: Account, f: int, at: int)
    requires AccountOk(cat, a) && Mirrors(c, a) && SpendConsumable(cat, a, f).Success?
    ensures Mirrors(Replay(c, SpendDeltas(SpendConsumable(cat, a, f).value.1, at)), SpendConsumable(cat, a, f).value.0)
  {
    UnitMirror(c, a.inventory, Find(a.inventory, Serves(cat, f)).value.serial, at);
    hide RowsMirror, SerialsOk, RentalsOk, Replay, SpendDeltas, Serves;
  }

  lemma ReplaySingle(c: Client, d: Delta)
    ensures Replay(c, [d]) == Take(c, d)
  {
    assert [d][..0] == [];
    assert Replay(c, []) == c;
  }

  /** The place of the stack that pays, and what becomes of it. */
  lemma UnitPlace(inv: seq<Item>, serial: uint16) returns (i: nat)
    requires SpendUnit(inv, serial).Some?
    ensures i < |inv| && inv[i].serial == serial
    ensures inv[i].value <= 1 ==> SpendUnit(inv, serial).value == (Without(inv, i), UsedUp(serial))
    ensures inv[i].value > 1 ==>
      var left := inv[i].(value := inv[i].value - 1);
      SpendUnit(inv, serial).value == (inv[i := left], Reduced(left))
  {
    i := IndexOf(inv, WithSerial(serial));
  }

  lemma UnitMirror(c: Client, inv: seq<Item>, serial: uint16, at: int)
    requires SerialsOk(inv) && RowsMirror(c.rows, inv) && SpendUnit(inv, serial).Some?
    ensures var (next, spent) := SpendUnit(inv, serial).value; var c' := Replay(c, SpendDeltas(spent, at));
      c' == c.(rows := c'.rows) && RowsMirror(c'.rows, next)
  {
    hide SpendUnit, Replay, RowsMirror, WireValue, SerialsOk;
    var i := UnitPlace(inv, serial);
    if inv[i].value <= 1 {
      ReplaySingle(c, SendDeleteItem(serial));
      RowsWithout(c.rows, inv, i);
    } else {
      var left := inv[i].(value := inv[i].value - 1);
      ReplaySingle(c, ValueDelta(left, at));
      RowsUpdate(c.rows, inv, i, left, at);
    }
  }

  // ---------------------------------------------------------------- runs

  /** What the client holds after one call: a login starts it anew. */
  function Follow(cat: Catalog, c: Client, a: Account, op: Op, clock: nat -> int): Client {
    if op.LogIn? then Snapshot(Login(a, op.now), clock(0)) else Replay(c, Deltas(cat, a, op, clock))
  }

  lemma SnapshotMirrors(a: Account, at: int)
    requires SerialsOk(a.inventory)
    ensures Mirrors(Snapshot(a, at), a)
  {
    forall s | s in Serials(a.inventory) ensures Find(a.inventory, WithSerial(s)).Some? {
      FindSerial(a.inventory, s);
    }
    forall item | item in a.inventory
      ensures item.serial in Snapshot(a, at).rows && Shows(Snapshot(a, at).rows[item.serial], item)
    {
      SerialIn(a.inventory, item);
      FindItem(a.inventory, item);
    }
  }

  /** The call is not the one failure that leaves a part paid for and not mounted. */
  predicate Clean(cat: Catalog, a: Account, op: Op) {
    op.PurchasePart? ==> !Stranded(cat, a, op.weapon, op.index, op.now, op.later)
  }

  /** A mounted part is a purchase whose account has one more mount. */
  lemma PartIsPurchase(cat: Catalog, a: Account, weapon: uint16, index: uint32, now: int, later: int, at: int)
    requires BuyCustomPart(cat, a, weapon, index, now, later).1.Success?
    ensures Buy(cat, a, index, now).Success?
    ensures var b, part := Buy(cat, a, index, now).value, BuyCustomPart(cat, a, weapon, index, now, later).1.value;
      && part.account == b.account.(attachments := part.account.attachments)
      && BuyDeltas(part, at) == BuyDeltas(b, at)
  {
    hide Buy, WireValue;
  }

  lemma PartMirror(cat: Catalog, c: Client, a: Account, weapon: uint16, index: uint32, now: int, later: int, at: int)
    requires AccountOk(cat, a) && Mirrors(c, a) && !Stranded(cat, a, weapon, index, now, later)
    ensures var (a', r) := BuyCustomPart(cat, a, weapon, index, now, later);
      Mirrors(Replay(c, match r case Success(b) => BuyDeltas(b, at) case Failure(_) => []), a')
  {
    BuyCustomAllOrNothing(cat, a, weapon, index, now, later);
    if BuyCustomPart(cat, a, weapon, index, now, later).1.Success? {
      PartIsPurchase(cat, a, weapon, index, now, later, at);
      BuyMirror(cat, c, a, index, now, at);
    }
    hide RowsMirror, AccountOk, Buy, BuyCustomPart, BuyDeltas, Stranded;
  }

  lemma StepMirror(cat: Catalog, c: Client, a: Account, op: Op, clock: nat -> int)
    requires AccountOk(cat, a) && Mirrors(c, a) && Clean(cat, a, op)
    ensures Mirrors(Follow(cat, c, a, op, clock), Apply(cat, a, op))
  {
    hide RowsMirror, SerialsOk, RentalsOk, Buy, Craft, SpendConsumable, BuyCustomPart, Login, Armed;
    hide BuyDeltas, CraftDeltas, SpendDeltas;
    match op
    case LogIn(now) =>
      LoginOk(cat, a, now);
      SnapshotMirrors(Login(a, now), clock(0));
    case Purchase(index, now) => if Buy(cat, a, index, now).Success? { BuyMirror(cat, c, a, index, now, clock(0)); }
    case PurchasePart(weapon, index, now, later) => PartMirror(cat, c, a, weapon, index, now, later, clock(0));
    case Make(recipeID, now) =>
      if Craft(cat, a, recipeID, now).Success? { CraftMirror(cat, c, a, recipeID, now, clock); }
    case UseUp(f) => if SpendConsumable(cat, a, f).Success? { SpendMirror(cat, c, a, f, clock(0)); }
    case _ =>
  }

  /** The client after a run, with a clock for every call. */
  function FollowAll(cat: Catalog, c: Client, a: Account, ops: seq<Op>, clocks: nat -> nat -> int): Client {
    if ops == [] then c
    else
      var n := |ops| - 1;
      Follow(cat, FollowAll(cat, c, a, ops[..n], clocks), Run(cat, a, ops[..n]), ops[n], clocks(n))
  }

  /** Every call since the last login was clean. */
  predicate CleanSinceLogin(cat: Catalog, a: Account, ops: seq<Op>) {
    || ops == []
    || ops[|ops| - 1].LogIn?
    || (CleanSinceLogin(cat, a, ops[..|ops| - 1]) && Clean(cat, Run(cat, a, ops[..|ops| - 1]), ops[|ops| - 1]))
  }

  lemma {:induction false} RunKeeps(cat: Catalog, a: Account, ops: seq<Op>)
    requires AccountOk(cat, a)
    ensures AccountOk(cat, Run(cat, a, ops))
  {
    if ops != [] {
      RunKeeps(cat, a, ops[..|ops| - 1]);
      StepOk(cat, Run(cat, a, ops[..|ops| - 1]), ops[|ops| - 1]);
    }
  }

  /** From a login on, after any sequence of calls, the client holds exactly the stored inventory
      and balances. Whatever went wrong before the last login does not matter. */
  lemma {:induction false} ClientMirrors(cat: Catalog, a: Account, at: int, ops: seq<Op>, clocks: nat -> nat -> int)
    requires AccountOk(cat, a) && CleanSinceLogin(cat, a, ops)
    ensures Mirrors(FollowAll(cat, Snapshot(a, at), a, ops, clocks), Run(cat, a, ops))
  {
    hide Mirrors, AccountOk, Follow, Apply, Clean;
    if ops == [] {
      SnapshotOk(cat, a, at);
    } else {
      var n := |ops| - 1;
      var before, c := Run(cat, a, ops[..n]), FollowAll(cat, Snapshot(a, at), a, ops[..n], clocks);
      RunKeeps(cat, a, ops[..n]);
      if ops[n].LogIn? {
        LoginMirrors(cat, c, before, ops[n], clocks(n));
      } else {
        ClientMirrors(cat, a, at, ops[..n], clocks);
        StepMirror(cat, c, before, ops[n], clocks(n));
      }
    }
  }

  lemma SnapshotOk(cat: Catalog, a: Account, at: int)
    requires AccountOk(cat, a)
    ensures Mirrors(Snapshot(a, at), a)
  {
    SnapshotMirrors(a, at);
  }

  /** A login needs no mirror to start from. */
  lemma LoginMirrors(cat: Catalog, c: Client, a: Account, op: Op, clock: nat -> int)
    requires AccountOk(cat, a) && op.LogIn?
    ensures Mirrors(Follow(cat, c, a, op, clock), Apply(cat, a, op))
  {
    LoginOk(cat, a, op.now);
    SnapshotMirrors(Login(a, op.now), clock(0));
  }

  // ----------------------------------------------- when the mirror breaks

  /** The seconds that the row of an extended rental would have to show fit in 32 bits. */
  predicate SecondsFit(cat: Catalog, c: Client, a: Account, op: Op) {
    op.PurchasePart? ==>
      var i := IndexOf(a.inventory, OfIndex(op.index));
      i < |a.inventory| && a.inventory[i].serial in c.rows ==>
        RunsOut(a.inventory, Lookup(cat, op.index), op.index, op.now) - c.rows[a.inventory[i].serial].stamp
            < TWO_32 * SECOND
  }

  /** They do, and the row was written no later than the purchase. */
  predicate Timely(cat: Catalog, c: Client, a: Account, op: Op) {
    && SecondsFit(cat, c, a, op)
    && (op.PurchasePart? ==>
          var i := IndexOf(a.inventory, OfIndex(op.index));
          i < |a.inventory| && a.inventory[i].serial in c.rows ==> c.rows[a.inventory[i].serial].stamp <= op.now)
  }

  /** More time shows: a later expiry, by a second at least, is another number of seconds. */
  lemma ExtensionShows(row: Row, was: Item, extended: Item, now: int)
    requires Shows(row, was) && was.expiry.At? && extended.expiry.At? && row.stamp <= now
    requires extended.expiry.ns >= was.expiry.ns + SECOND && extended.expiry.ns >= now + SECOND
    requires extended.expiry.ns - row.stamp < TWO_32 * SECOND
    ensures !Shows(row, extended)
  {
    var before, after := was.expiry.ns - row.stamp, extended.expiry.ns - row.stamp;
    assert 1 <= after / SECOND < TWO_32;
    if before > 0 {
      assert before / SECOND + 1 <= after / SECOND;
    }
  }

  /** A stranded purchase leaves the client with a wrong balance, without the new row, or with
      a row that shows less time than is stored. */
  lemma StrandedBreaks(cat: Catalog, c: Client, a: Account, op: Op, clock: nat -> int)
    requires AccountOk(cat, a) && Mirrors(c, a) && !Clean(cat, a, op) && Timely(cat, c, a, op)
    ensures !Mirrors(Follow(cat, c, a, op, clock), Apply(cat, a, op))
  {
    var b := Buy(cat, a, op.index, op.now).value;
    BuyCustomAllOrNothing(cat, a, op.weapon, op.index, op.now, op.later);
    assert Follow(cat, c, a, op, clock) == c;
    StrandedIsBought(cat, a, op);
    hide Follow, Apply, Clean;
    if b.isNew {
      NewRowMissing(cat, c, a, op.index, op.now);
    } else {
      ExtendedRowStale(cat, c, a, op.index, op.now);
    }
  }

  lemma StrandedIsBought(cat: Catalog, a: Account, op: Op)
    requires !Clean(cat, a, op)
    ensures Buy(cat, a, op.index, op.now).Success? && IsRental(cat, op.index)
    ensures Apply(cat, a, op).inventory == Buy(cat, a, op.index, op.now).value.account.inventory
  {
    hide Buy;
  }

  lemma NewRowMissing(cat: Catalog, c: Client, a: Account, index: uint32, now: int)
    requires AccountOk(cat, a) && RowsMirror(c.rows, a.inventory)
    requires Buy(cat, a, index, now).Success? && Buy(cat, a, index, now).value.isNew
    ensures !RowsMirror(c.rows, Buy(cat, a, index, now).value.account.inventory)
  {
    var b := Buy(cat, a, index, now).value;
    SerialsSnoc(a.inventory, b.item);
    assert b.item.serial !in Serials(a.inventory);
    hide WireValue, RentalsOk;
  }

  lemma ExtendedRowStale(cat: Catalog, c: Client, a: Account, index: uint32, now: int)
    requires AccountOk(cat, a) && RowsMirror(c.rows, a.inventory) && IsRental(cat, index)
    requires Buy(cat, a, index, now).Success? && !Buy(cat, a, index, now).value.isNew
    requires var i := IndexOf(a.inventory, OfIndex(index));
      i < |a.inventory| && a.inventory[i].serial in c.rows ==>
        var stamp := c.rows[a.inventory[i].serial].stamp;
        stamp <= now && RunsOut(a.inventory, Lookup(cat, index), index, now) - stamp < TWO_32 * SECOND
    ensures !RowsMirror(c.rows, Buy(cat, a, index, now).value.account.inventory)
  {
    var inv, b := a.inventory, Buy(cat, a, index, now).value;
    var i := IndexOf(inv, OfIndex(index));
    assert inv[i] in inv;
    assert b.account.inventory[i] == b.item;
    BoughtExpiry(cat, a, index, now);
    ExtensionShows(c.rows[inv[i].serial], inv[i], b.item, now);
    hide Shows, RentalsOk, SerialsOk;
  }

  /** One call keeps the mirror if and only if it does not strand a part. */
  lemma StepMirrorExact(cat: Catalog, c: Client, a: Account, op: Op, clock: nat -> int)
    requires AccountOk(cat, a) && Mirrors(c, a) && Timely(cat, c, a, op)
    ensures Mirrors(Follow(cat, c, a, op, clock), Apply(cat, a, op)) <==> Clean(cat, a, op)
  {
    hide Mirrors, AccountOk, Follow, Apply, Clean, Timely;
    if Clean(cat, a, op) {
      StepMirror(cat, c, a, op, clock);
    } else {
      StrandedBreaks(cat, c, a, op, clock);
    }
  }

  // -------------------------------------------- over runs with ordered clocks

  predicate RowsPast(c: Client, t: int) {
    forall s | s in c.rows :: c.rows[s].stamp <= t
  }

  predicate DeltaPast(d: Delta, t: int) {
    match d
    case SendItem(_, row) => row.stamp <= t
    case SendItemValue(_, _, _, stamp) => stamp <= t
    case _ => true
  }

  lemma {:induction false} ReplayPast(c: Client, ds: seq<Delta>, t: int)
    requires RowsPast(c, t) && forall i | 0 <= i < |ds| :: DeltaPast(ds[i], t)
    ensures RowsPast(Replay(c, ds), t)
  {
    if ds != [] {
      ReplayPast(c, ds[..|ds| - 1], t);
    }
  }

  lemma DeltasPast(cat: Catalog, a: Account, op: Op, clock: nat -> int, t: int)
    requires forall k: nat :: clock(k) <= t
    ensures forall i | 0 <= i < |Deltas(cat, a, op, clock)| :: DeltaPast(Deltas(cat, a, op, clock)[i], t)
  {
    hide Buy, BuyCustomPart, Craft, SpendConsumable, WireValue;
  }

  /** The call reads the clock at `t` or later. */
  predicate NotBefore(op: Op, t: int) {
    match op
    case LogIn(now) => t <= now
    case Wear(_, now) => t <= now
    case WearAll(_, now) => t <= now
    case Fit(_, _, now) => t <= now
    case Unfit(_, _) => true
    case Purchase(_, now) => t <= now
    case PurchasePart(_, _, now, later) => t <= now && t <= later
    case Make(_, now) => t <= now
    case UseUp(_) => true
  }

  /** No call reads the clock before the snapshot, or before a row of an earlier call, was written. */
  ghost predicate Ordered(at: int, ops: seq<Op>, clocks: nat -> nat -> int) {
    && (forall j | 0 <= j < |ops| :: NotBefore(ops[j], at))
    && (forall i: nat, j, k: nat | i < j < |ops| :: NotBefore(ops[j], clocks(i)(k)))
  }

  /** Every row of the client was written by the present, whatever was called. */
  lemma {:induction false} StampsPast(
    cat: Catalog, a: Account, at: int, ops: seq<Op>, clocks: nat -> nat -> int, present: int)
    requires at <= present && forall i: nat, k: nat | i < |ops| :: clocks(i)(k) <= present
    ensures RowsPast(FollowAll(cat, Snapshot(a, at), a, ops, clocks), present)
  {
    if ops != [] {
      hide Run, Login, Deltas, RowOf;
      var n := |ops| - 1;
      StampsPast(cat, a, at, ops[..n], clocks, present);
      var before, c := Run(cat, a, ops[..n]), FollowAll(cat, Snapshot(a, at), a, ops[..n], clocks);
      DeltasPast(cat, before, ops[n], clocks(n), present);
      ReplayPast(c, Deltas(cat, before, ops[n], clocks(n)), present);
    }
  }

  /** How many calls it took to the last login. */
  function LastLogin(ops: seq<Op>): (n: nat)
    ensures n <= |ops|
  {
    if ops == [] then 0 else if ops[|ops| - 1].LogIn? then |ops| else LastLogin(ops[..|ops| - 1])
  }

  /** The seconds a stranded part's row would show fit in 32 bits, at every call since the last login. */
  ghost predicate SecondsFitSinceLogin(cat: Catalog, a: Account, at: int, ops: seq<Op>, clocks: nat -> nat -> int) {
    forall n | LastLogin(ops) <= n < |ops| ::
      SecondsFit(cat, FollowAll(cat, Snapshot(a, at), a, ops[..n], clocks), Run(cat, a, ops[..n]), ops[n])
  }

  /** After this run the client holds what is stored. */
  ghost predicate MirroredAt(cat: Catalog, a: Account, at: int, ops: seq<Op>, clocks: nat -> nat -> int) {
    Mirrors(FollowAll(cat, Snapshot(a, at), a, ops, clocks), Run(cat, a, ops))
  }

  /** So it was after each of its calls from the `from`-th on. */
  ghost predicate MirroredFrom(
    cat: Catalog, a: Account, at: int, ops: seq<Op>, clocks: nat -> nat -> int, from: nat)
  {
    forall m | from <= m <= |ops| :: MirroredAt(cat, a, at, ops[..m], clocks)
  }

  lemma MirroredLast(cat: Catalog, a: Account, at: int, ops: seq<Op>, clocks: nat -> nat -> int)
    ensures MirroredFrom(cat, a, at, ops, clocks, |ops|) <==> MirroredAt(cat, a, at, ops, clocks)
  {
    hide MirroredAt;
    assert ops[..|ops|] == ops;
  }

  lemma MirroredSnoc(cat: Catalog, a: Account, at: int, ops: seq<Op>, clocks: nat -> nat -> int, from: nat)
    requires from < |ops|
    ensures MirroredFrom(cat, a, at, ops, clocks, from) <==>
      MirroredFrom(cat, a, at, ops[..|ops| - 1], clocks, from) && MirroredAt(cat, a, at, ops, clocks)
  {
    hide MirroredAt;
    var n := |ops| - 1;
    assert ops[..n + 1] == ops;
    forall m | from <= m <= n ensures ops[..n][..m] == ops[..m] {
    }
    if MirroredFrom(cat, a, at, ops[..n], clocks, from) && MirroredAt(cat, a, at, ops, clocks) {
      forall m | from <= m <= n + 1 ensures MirroredAt(cat, a, at, ops[..m], clocks) {
        if m <= n {
          assert MirroredAt(cat, a, at, ops[..n][..m], clocks);
        }
      }
    }
    if MirroredFrom(cat, a, at, ops, clocks, from) {
      assert MirroredAt(cat, a, at, ops[..n + 1], clocks);
      forall m | from <= m <= n ensures MirroredAt(cat, a, at, ops[..n][..m], clocks) {
        assert MirroredAt(cat, a, at, ops[..m], clocks);
      }
    }
  }

  /** The next call finds every row written before it. */
  lemma NextIsTimely(cat: Catalog, a: Account, at: int, ops: seq<Op>, clocks: nat -> nat -> int)
    requires ops != [] && !ops[|ops| - 1].LogIn?
    requires Ordered(at, ops, clocks) && SecondsFitSinceLogin(cat, a, at, ops, clocks)
    ensures var n := |ops| - 1;
      Timely(cat, FollowAll(cat, Snapshot(a, at), a, ops[..n], clocks), Run(cat, a, ops[..n]), ops[n])
  {
    hide FollowAll, Run, Snapshot, SecondsFit;
    var n := |ops| - 1;
    if ops[n].PurchasePart? {
      assert forall i: nat, k: nat | i < n :: NotBefore(ops[n], clocks(i)(k));
      StampsPast(cat, a, at, ops[..n], clocks, ops[n].now);
    }
  }

  lemma OrderedPrefix(cat: Catalog, a: Account, at: int, ops: seq<Op>, clocks: nat -> nat -> int)
    requires ops != [] && !ops[|ops| - 1].LogIn?
    requires Ordered(at, ops, clocks) && SecondsFitSinceLogin(cat, a, at, ops, clocks)
    ensures Ordered(at, ops[..|ops| - 1], clocks) && SecondsFitSinceLogin(cat, a, at, ops[..|ops| - 1], clocks)
  {
    hide NotBefore, FollowAll, Run, Snapshot, SecondsFit;
    assert forall m | LastLogin(ops) <= m < |ops| :: ops[..|ops| - 1][..m] == ops[..m];
  }

  /** With ordered clocks: from the last login on the client has held the stored account after
      every call if and only if no call stranded a part. So the mirror first breaks at the first
      stranded part since the last login, and at nothing else. */
  lemma {:induction false} MirrorsExactly(cat: Catalog, a: Account, at: int, ops: seq<Op>, clocks: nat -> nat -> int)
    requires AccountOk(cat, a) && Ordered(at, ops, clocks) && SecondsFitSinceLogin(cat, a, at, ops, clocks)
    ensures MirroredFrom(cat, a, at, ops, clocks, LastLogin(ops)) <==> CleanSinceLogin(cat, a, ops)
  {
    hide AccountOk, Mirrors, MirroredFrom, Ordered, SecondsFitSinceLogin, Snapshot, Follow, Clean, Timely, Apply;
    if ops == [] {
      MirroredLast(cat, a, at, ops, clocks);
      SnapshotOk(cat, a, at);
    } else {
      var n := |ops| - 1;
      var before, c := Run(cat, a, ops[..n]), FollowAll(cat, Snapshot(a, at), a, ops[..n], clocks);
      RunKeeps(cat, a, ops[..n]);
      if ops[n].LogIn? {
        MirroredLast(cat, a, at, ops, clocks);
        LoginMirrors(cat, c, before, ops[n], clocks(n));
      } else {
        MirroredSnoc(cat, a, at, ops, clocks, LastLogin(ops));
        OrderedPrefix(cat, a, at, ops, clocks);
        MirrorsExactly(cat, a, at, ops[..n], clocks);
        if CleanSinceLogin(cat, a, ops[..n]) {
          ClientMirrors(cat, a, at, ops[..n], clocks);
          NextIsTimely(cat, a, at, ops, clocks);
          StepMirrorExact(cat, c, before, ops[n], clocks(n));
        }
      }
    }
  }
}
