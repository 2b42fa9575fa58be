/** The handlers that sell, craft and use up items: what they send, in the order they send it. */
module Items {
  import opened Bytes
  import opened Catalog
  import opened Inventory
  import opened ClientMirror
  import Economy
  import PlayerService

  /** A session's snapshot of the account, and the deltas sent on it so far. */
  class Session {
    var player: Account
    var sent: seq<Delta>

    constructor (a: Account)
      ensures player == a && sent == []
    {
      player, sent := a, [];
    }

    method SendPlain(d: Delta)
      modifies `sent
      ensures sent == old(sent) + [d]
    {
      sent := sent + [d];
    }
  }

  class Items {
    const players: PlayerService.PlayerService

    constructor (players: PlayerService.PlayerService)
      ensures this.players == players
    {
      this.players := players;
    }

    /** `clock(k)` is the clock as the k-th row of the call is written. */
    method Buy(session: Session, steamID: string, index: uint32, now: int, clock: nat -> int)
      requires players.repo.Valid()
      modifies players.repo, players.repo.owners.Keys, session
      ensures players.repo.Valid()
      ensures steamID !in old(players.repo.contents) ==> unchanged(players.repo) && unchanged(session)
      ensures steamID in old(players.repo.contents) ==>
              match Economy.Buy(players.cat, old(players.repo.contents)[steamID], index, now)
              case Success(b) =>
                && session.sent == old(session.sent) + BuyDeltas(b, clock(0)) && session.player == b.account
                && players.repo.contents == old(players.repo.contents)[steamID := b.account]
              case Failure(_) => unchanged(players.repo) && unchanged(session)
    {
      hide PlayerService.Shows, Economy.Buy, BuyDeltas;
      var r := players.Buy(steamID, index, now);
      if r.Failure? {
        return;
      }
      session.player := r.value.account;
      CompleteDeltas(session, r.value, clock(0));
    }

    method CompleteDeltas(session: Session, b: Economy.Bought, at: int)
      modifies session`sent
      ensures session.sent == old(session.sent) + BuyDeltas(b, at)
    {
      match b.wallet {
        case PointWallet => session.SendPlain(SendPoint(b.account.point));
        case CashWallet => session.SendPlain(SendCash(b.account.cash));
        case NoWallet =>
      }
      if b.isNew {
        session.SendPlain(ItemDelta(b.item, at));
      } else {
        session.SendPlain(ValueDelta(b.item, at));
      }
    }

    /** A stranded part is stored and answered as a failure: nothing is sent about it. */
    method BuyCustom(session: Session, steamID: string, weapon: uint16, index: uint32, now: int, later: int,
        clock: nat -> int)
      requires players.repo.Valid()
      modifies players.repo, players.repo.owners.Keys, session
      ensures players.repo.Valid()
      ensures steamID !in old(players.repo.contents) ==> unchanged(players.repo) && unchanged(session)
      ensures steamID in old(players.repo.contents) ==>
        var (a', r) := Economy.BuyCustomPart(players.cat, old(players.repo.contents)[steamID], weapon, index, now,
            later);
        && players.repo.contents == old(players.repo.contents)[steamID := a']
        && (match r
            case Success(b) => session.sent == old(session.sent) + BuyDeltas(b, clock(0)) && session.player == b.account
            case Failure(_) => unchanged(session))
    {
      hide PlayerService.Shows, Economy.BuyCustomPart, BuyDeltas;
      var r := players.BuyCustomPart(steamID, weapon, index, now, later);
      if r.Failure? {
        return;
      }
      session.player := r.value.account;
      CompleteDeltas(session, r.value, clock(0));
    }

    method Craft(session: Session, steamID: string, recipeID: uint32, now: int, clock: nat -> int)
      requires players.repo.Valid()
      modifies players.repo, session
      ensures players.repo.Valid()
      ensures steamID !in old(players.repo.contents) ==> unchanged(players.repo) && unchanged(session)
      ensures steamID in old(players.repo.contents) ==>
              match Economy.Craft(players.cat, old(players.repo.contents)[steamID], recipeID, now)
              case Success(c) =>
                && session.sent == old(session.sent) + CraftDeltas(c, clock) && session.player == c.account
                && players.repo.contents == old(players.repo.contents)[steamID := c.account]
              case Failure(_) => unchanged(players.repo) && unchanged(session)
    {
      hide PlayerService.Shows, Economy.Craft, CraftDeltas;
      var r := players.Craft(steamID, recipeID, now);
      if r.Failure? {
        return;
      }
      session.player := r.value.account;
      SendCraft(session, r.value, clock);
    }

    method SendCraft(session: Session, c: Economy.Crafted, clock: nat -> int)
      modifies session`sent
      ensures session.sent == old(session.sent) + CraftDeltas(c, clock)
    {
      for i := 0 to |c.deleted|
        invariant session.sent == old(session.sent) + Deletes(c.deleted)[..i]
      {
        session.SendPlain(SendDeleteItem(c.deleted[i]));
      }
      ghost var deleted := session.sent;
      for i := 0 to |c.updated|
        invariant session.sent == deleted + Values(c.updated, clock)[..i]
      {
        session.SendPlain(ValueDelta(c.updated[i], clock(i)));
      }
      if c.price > 0 {
        session.SendPlain(SendPoint(c.account.point));
      }
      session.SendPlain(ItemDelta(c.output, clock(|c.updated|)));
    }

    /** Pays for a repainted emblem. */
    method SpendMarkChange(session: Session, steamID: string, clock: nat -> int)
      requires players.repo.Valid()
      modifies players.repo, players.repo.owners.Keys, session
      ensures players.repo.Valid()
      ensures steamID !in old(players.repo.contents) ==> unchanged(players.repo) && unchanged(session)
      ensures steamID in old(players.repo.contents) ==>
              match Economy.SpendConsumable(players.cat, old(players.repo.contents)[steamID], 1901)
              case Success((a', spent)) =>
                && session.sent == old(session.sent) + SpendDeltas(spent, clock(0)) && session.player == a'
                && players.repo.contents == old(players.repo.contents)[steamID := a']
              case Failure(_) => unchanged(players.repo) && unchanged(session)
    {
      hide PlayerService.Shows, Economy.SpendConsumable, WireValue;
      var r := players.SpendConsumable(steamID, FUNCTION_CLAN_MARK_CHANGE);
      if r.Failure? {
        return;
      }
      session.player := r.value.0;
      match r.value.1
      case UsedUp(serial) => session.SendPlain(SendDeleteItem(serial));
      case Reduced(remaining) => session.SendPlain(ValueDelta(remaining, clock(0)));
    }
  }

  /** The function index shared by every item that pays for repainting a clan's emblem. */
  const FUNCTION_CLAN_MARK_CHANGE: int := 1901
}
