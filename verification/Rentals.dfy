/** How long a rental runs after any number of purchases, whatever logins purge in between. */
module Rentals {
  import opened Bytes
  import opened Wrappers
  import opened Seqs
  import opened Catalog
  import opened Inventory
  import opened Economy
  import opened EconomyRuns

  // -------------------------------------------------------------- clock

  function TimeOf(op: Op): Option<int> {
    match op
    case LogIn(now) => Some(now)
    case Wear(_, now) => Some(now)
    case WearAll(_, now) => Some(now)
    case Fit(_, _, now) => Some(now)
    case Purchase(_, now) => Some(now)
    case PurchasePart(_, _, now, _) => Some(now)
    case Make(_, now) => Some(now)
    case _ => None
  }

  function Clock(start: int, ops: seq<Op>): int {
    if ops == [] then start
    else match TimeOf(ops[|ops| - 1])
      case Some(now) => now
      case None => Clock(start, ops[..|ops| - 1])
  }

  predicate InOrder(start: int, ops: seq<Op>) {
    ops == [] ||
    (InOrder(start, ops[..|ops| - 1]) && Clock(start, ops[..|ops| - 1]) <= Clock(start, ops))
  }

  // -------------------------------------------------------------- leases

  /** The purchases of one rental so far: when the first and the last were, and the end. */
  datatype Lease = Lease(first: int, last: int, count: nat, until: int)

  function Length(cat: Catalog, index: uint32): int {
    Lookup(cat, index).useTime * SECOND
  }

  /** When this call buys the item, the time of the purchase. */
  function BoughtAt(cat: Catalog, a: Account, op: Op, index: uint32): Option<int> {
    match op
    case Purchase(i, now) => if i == index && Buy(cat, a, index, now).Success? then Some(now) else None
    case PurchasePart(weapon, i, now, _) =>
      if i == index && Owned(a, weapon).Some? && Accepts(cat, Owned(a, weapon).value.index, index)
          && Buy(cat, a, index, now).Success?
      then Some(now) else None
    case _ => None
  }

  /** A purchase adds its length to what is left, or to the present when nothing is left. */
  function Renewed(lease: Option<Lease>, now: int, length: int): Lease {
    match lease
    case None => Lease(now, now, 1, now + length)
    case Some(l) => Lease(l.first, now, l.count + 1, (if l.until < now then now else l.until) + length)
  }

  function LeaseOf(cat: Catalog, a: Account, ops: seq<Op>, index: uint32): Option<Lease> {
    if ops == [] then None
    else
      var before := LeaseOf(cat, a, ops[..|ops| - 1], index);
      match BoughtAt(cat, Run(cat, a, ops[..|ops| - 1]), ops[|ops| - 1], index)
      case None => before
      case Some(now) => Some(Renewed(before, now, Length(cat, index)))
  }

  /** Crafting neither uses up nor makes the item, and no unit of it is spent. */
  predicate Spares(cat: Catalog, a: Account, op: Op, index: uint32) {
    match op
    case Make(recipeID, _) =>
      recipeID !in cat.recipes ||
      (cat.recipes[recipeID].itemOutput != index && Needed(NeedFor(cat.recipes[recipeID].materials), index) <= 0)
    case UseUp(f) => Find(a.inventory, Serves(cat, f)).Some? ==> Find(a.inventory, Serves(cat, f)).value.index != index
    case _ => true
  }

  predicate AllSpare(cat: Catalog, a: Account, ops: seq<Op>, index: uint32) {
    ops == [] ||
    (AllSpare(cat, a, ops[..|ops| - 1], index) && Spares(cat, Run(cat, a, ops[..|ops| - 1]), ops[|ops| - 1], index))
  }

  /** The one item of the rental, if it is still there, ends with the lease; it is there while
      the lease runs. */
  predicate Tracks(inv: seq<Item>, index: uint32, lease: Option<Lease>, clock: int) {
    && (forall x | x in inv && x.index == index :: lease.Some? && x.expiry == At(lease.value.until))
    && (forall x, y | x in inv && y in inv && x.index == index && y.index == index :: x == y)
    && (lease.Some? && lease.value.until > clock ==> exists x | x in inv :: x.index == index)
  }

  /** The same items of this index on both sides. */
  ghost predicate SameOf(inv: seq<Item>, inv': seq<Item>, index: uint32) {
    forall x: Item | x.index == index :: x in inv <==> x in inv'
  }

  lemma SameTracks(inv: seq<Item>, inv': seq<Item>, index: uint32, lease: Option<Lease>, clock: int, clock': int)
    requires Tracks(inv, index, lease, clock) && SameOf(inv, inv', index) && clock <= clock'
    ensures Tracks(inv', index, lease, clock')
  {
  }

  // ------------------------------------------------- what each call does

  lemma BuyOther(cat: Catalog, a: Account, other: uint32, now: int, index: uint32)
    requires other != index && Buy(cat, a, other, now).Success?
    ensures SameOf(a.inventory, Buy(cat, a, other, now).value.account.inventory, index)
  {
    var inv, inv' := a.inventory, Buy(cat, a, other, now).value.account.inventory;
    forall x: Item | x.index == index ensures x in inv <==> x in inv' {
      if x in inv {
        var k :| 0 <= k < |inv| && inv[k] == x;
        assert inv'[k] == x;
      }
    }
  }

  lemma BuyThis(cat: Catalog, a: Account, index: uint32, now: int, lease: Option<Lease>, clock: int)
    requires AccountOk(cat, a) && IsRental(cat, index) && Buy(cat, a, index, now).Success?
    requires Tracks(a.inventory, index, lease, clock) && clock <= now
    ensures Tracks(Buy(cat, a, index, now).value.account.inventory, index,
        Some(Renewed(lease, now, Length(cat, index))), now)
  {
    var inv, inv' := a.inventory, Buy(cat, a, index, now).value.account.inventory;
    var i, bought := IndexOf(inv, OfIndex(index)), Buy(cat, a, index, now).value.item;
    BuyOk(cat, a, index, now);
    assert bought in inv' by {
      assert inv'[if i < |inv| then i else |inv|] == bought;
    }
    if i < |inv| {
      assert inv[i] in inv;
    } else {
      forall x | x in inv ensures x.index != index {
        assert OfIndex(index)(x) ==> x.index == index;
        var k :| 0 <= k < |inv| && inv[k] == x;
        assert !OfIndex(index)(inv[k]);
      }
    }
    forall x | x in inv' && x.index == index ensures x == bought {
      var k :| 0 <= k < |inv'| && inv'[k] == x;
      if k < |inv| {
        assert inv[k] in inv && inv[k].index == index;
        SameStack(inv, i, k);
      }
    }
  }

  lemma SameStack(inv: seq<Item>, i: nat, k: nat)
    requires Distinct(Serials(inv)) && i < |inv| && k < |inv| && inv[i] == inv[k]
    ensures i == k
  {
    assert Serials(inv)[i] == Serials(inv)[k];
  }

  /** Items that no recipe names are in a filtered list exactly when they are in the whole. */
  lemma FilteredAlike(inv: seq<Item>, next: seq<Item>, p: Item -> bool, x: Item)
    requires Filter(next, p) == Filter(inv, p) && p(x)
    ensures x in inv <==> x in next
  {
    FilterHas(inv, p);
    FilterHas(next, p);
    hide Filter;
    assert x in inv <==> x in Filter(inv, p);
  }

  lemma CraftSpares(cat: Catalog, a: Account, recipeID: uint32, now: int, index: uint32)
    requires AccountOk(cat, a) && Craft(cat, a, recipeID, now).Success? && Spares(cat, a, Make(recipeID, now), index)
    ensures SameOf(a.inventory, Craft(cat, a, recipeID, now).value.account.inventory, index)
  {
    hide Consume, NeedFor, AccountOk, Filter;
    var need := NeedFor(cat.recipes[recipeID].materials);
    var next := Consume(a.inventory, need).value.next;
    ConsumeKeeps(a.inventory, need);
    forall x: Item | x.index == index ensures x in a.inventory <==> x in next {
      FilteredAlike(a.inventory, next, Unneeded(need), x);
    }
  }

  lemma SpendSpares(cat: Catalog, a: Account, f: int, index: uint32)
    requires AccountOk(cat, a) && SpendConsumable(cat, a, f).Success? && Spares(cat, a, UseUp(f), index)
    ensures SameOf(a.inventory, SpendConsumable(cat, a, f).value.0.inventory, index)
  {
    var inv, inv' := a.inventory, SpendConsumable(cat, a, f).value.0.inventory;
    var item := Find(inv, Serves(cat, f)).value;
    FindItem(inv, item);
    var i := IndexOf(inv, WithSerial(item.serial));
    forall x: Item | x.index == index ensures x in inv <==> x in inv' {
      if inv[i].value <= 1 {
        WithoutKeeps(inv, i, x);
      } else if x in inv {
        var k :| 0 <= k < |inv| && inv[k] == x;
        assert inv'[k] == x;
      }
    }
  }

  lemma LoginTracks(a: Account, now: int, index: uint32, lease: Option<Lease>, clock: int)
    requires Tracks(a.inventory, index, lease, clock) && clock <= now
    ensures Tracks(Login(a, now).inventory, index, lease, now)
  {
    FilterHas(a.inventory, Unexpired(now));
    if lease.Some? && lease.value.until > now {
      var x :| x in a.inventory && x.index == index;
      assert x in Login(a, now).inventory;
    }
  }

  lemma StepTracks(cat: Catalog, a: Account, op: Op, index: uint32, lease: Option<Lease>, clock: int, clock': int)
    requires AccountOk(cat, a) && IsRental(cat, index) && Spares(cat, a, op, index)
    requires Tracks(a.inventory, index, lease, clock)
    requires clock <= clock' == if TimeOf(op).Some? then TimeOf(op).value else clock
    ensures Tracks(Apply(cat, a, op).inventory, index,
      match BoughtAt(cat, a, op, index)
      case None => lease
      case Some(t) => Some(Renewed(lease, t, Length(cat, index))), clock')
  {
    hide Tracks, SameOf, Buy, Craft, SpendConsumable, Login, Armed, Renewed, AccountOk;
    var inv' := Apply(cat, a, op).inventory;
    match op
    case LogIn(now) => LoginTracks(a, now, index, lease, clock);
    case Purchase(i, now) => BuyTracks(cat, a, i, now, index, lease, clock);
    case PurchasePart(weapon, i, now, _) =>
      if Owned(a, weapon).Some? && Accepts(cat, Owned(a, weapon).value.index, i) {
        BuyTracks(cat, a, i, now, index, lease, clock);
      } else {
        SameTracks(a.inventory, a.inventory, index, lease, clock, clock');
      }
    case Make(recipeID, now) =>
      if Craft(cat, a, recipeID, now).Success? { CraftSpares(cat, a, recipeID, now, index); }
      SameTracks(a.inventory, inv', index, lease, clock, clock');
    case UseUp(f) =>
      if SpendConsumable(cat, a, f).Success? { SpendSpares(cat, a, f, index); }
      SameTracks(a.inventory, inv', index, lease, clock, clock');
    case _ => SameTracks(a.inventory, a.inventory, index, lease, clock, clock');
  }

  lemma BuyTracks(cat: Catalog, a: Account, i: uint32, now: int, index: uint32, lease: Option<Lease>, clock: int)
    requires AccountOk(cat, a) && IsRental(cat, index) && Tracks(a.inventory, index, lease, clock) && clock <= now
    ensures match Buy(cat, a, i, now)
            case Failure(_) => Tracks(a.inventory, index, lease, now)
            case Success(b) => Tracks(b.account.inventory, index,
              if i == index then Some(Renewed(lease, now, Length(cat, index))) else lease, now)
  {
    if Buy(cat, a, i, now).Failure? {
      SameTracks(a.inventory, a.inventory, index, lease, clock, now);
    } else if i == index {
      BuyThis(cat, a, index, now, lease, clock);
    } else {
      BuyOther(cat, a, i, now, index);
      SameTracks(a.inventory, Buy(cat, a, i, now).value.account.inventory, index, lease, clock, now);
    }
  }

  lemma {:induction false} RunTracks(cat: Catalog, a: Account, ops: seq<Op>, index: uint32, start: int)
    requires AccountOk(cat, a) && IsRental(cat, index) && forall x | x in a.inventory :: x.index != index
    requires InOrder(start, ops) && AllSpare(cat, a, ops, index)
    ensures AccountOk(cat, Run(cat, a, ops))
    ensures Tracks(Run(cat, a, ops).inventory, index, LeaseOf(cat, a, ops, index), Clock(start, ops))
  {
    if ops != [] {
      var before := ops[..|ops| - 1];
      RunTracks(cat, a, before, index, start);
      StepOk(cat, Run(cat, a, before), ops[|ops| - 1]);
      StepTracks(cat, Run(cat, a, before), ops[|ops| - 1], index, LeaseOf(cat, a, before, index),
          Clock(start, before), Clock(start, ops));
    }
  }

  /** All the lengths after the first purchase, at least; after the last, at most. */
  predicate Bounded(l: Lease, length: int) {
    l.first <= l.last && l.first + l.count * length <= l.until <= l.last + l.count * length
  }

  lemma RenewedBounds(lease: Option<Lease>, now: int, length: int)
    requires length > 0 && (lease.Some? ==> Bounded(lease.value, length) && lease.value.last <= now)
    ensures Bounded(Renewed(lease, now, length), length) && Renewed(lease, now, length).last == now
  {
    if lease.Some? {
      assert (lease.value.count + 1) * length == lease.value.count * length + length;
      assert lease.value.count * length >= 0;
    }
  }

  lemma {:induction false} LeaseBounds(cat: Catalog, a: Account, ops: seq<Op>, index: uint32, start: int)
    requires IsRental(cat, index) && InOrder(start, ops)
    ensures LeaseOf(cat, a, ops, index).Some? ==>
      Bounded(LeaseOf(cat, a, ops, index).value, Length(cat, index))
          && LeaseOf(cat, a, ops, index).value.last <= Clock(start, ops)
  {
    if ops != [] {
      var before := ops[..|ops| - 1];
      LeaseBounds(cat, a, before, index, start);
      var bought := BoughtAt(cat, Run(cat, a, before), ops[|ops| - 1], index);
      if bought.Some? {
        assert bought == TimeOf(ops[|ops| - 1]);
        RenewedBounds(LeaseOf(cat, a, before, index), bought.value, Length(cat, index));
      }
      hide Bounded, Renewed, Length, BoughtAt, Run;
    }
  }

  /** However many times a rental was bought, and whatever a login purged meanwhile: it ends no
      earlier than all the lengths after the first purchase, and no later than all the lengths
      after the last; and it is in the inventory while it runs. */
  lemma RentalArithmetic(cat: Catalog, a: Account, ops: seq<Op>, index: uint32, start: int)
    requires AccountOk(cat, a) && IsRental(cat, index) && forall x | x in a.inventory :: x.index != index
    requires InOrder(start, ops) && AllSpare(cat, a, ops, index)
    ensures var inv := Run(cat, a, ops).inventory;
      match LeaseOf(cat, a, ops, index)
      case None => forall x | x in inv :: x.index != index
      case Some(l) =>
        && Bounded(l, Length(cat, index))
        && (forall x | x in inv && x.index == index :: x.expiry == At(l.until))
        && (Clock(start, ops) < l.until ==> exists x | x in inv :: x.index == index)
  {
    RunTracks(cat, a, ops, index, start);
    LeaseBounds(cat, a, ops, index, start);
  }
}
