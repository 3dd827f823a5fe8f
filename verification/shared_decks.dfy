/** Card membership of shared decks in the in-memory store: a deck's
    creator adds and removes cards, each card at most once, and the deck's
    `cardCount` follows the length of its card list. */
module SharedDecks {
  import opened Wrappers

  datatype SharedDeck = SharedDeck(id: int, creatorId: string, cardCount: int)

  /** A card's place in a deck; `order` is its 0-based position when added. */
  datatype DeckCard = DeckCard(id: int, deckId: int, cardId: int, order: int)

  datatype DeckStore = DeckStore(decks: map<int, SharedDeck>, deckCards: map<int, seq<DeckCard>>)

  /** `this.sharedDeckCards.get(deckId) || []`. */
  function CardsOf(ds: DeckStore, deckId: int): seq<DeckCard> {
    if deckId in ds.deckCards then ds.deckCards[deckId] else []
  }

  predicate OwnedBy(ds: DeckStore, deckId: int, userId: string) {
    deckId in ds.decks && ds.decks[deckId].creatorId == userId
  }

  predicate HasCard(cards: seq<DeckCard>, cardId: int) {
    exists i :: 0 <= i < |cards| && cards[i].cardId == cardId
  }

  /** Every deck's count is the length of its list, and no card is listed
      twice in one deck. */
  predicate Consistent(ds: DeckStore) {
    && (forall d :: d in ds.decks ==> ds.decks[d].cardCount == |CardsOf(ds, d)|)
    && (forall d :: d in ds.decks ==> Distinct(CardsOf(ds, d)))
  }

  predicate Distinct(cards: seq<DeckCard>) {
    forall i, j :: 0 <= i < j < |cards| ==> cards[i].cardId != cards[j].cardId
  }

  /** `addCardToSharedDeck`: only the creator may add; a card already in
      the deck is refused; otherwise the card goes at the end with `order`
      equal to the old length, its id taken from the clock reading `now`,
      and the count becomes the new length. */
  function AddCardToSharedDeck(ds: DeckStore, deckId: int, cardId: int, userId: string, now: int): (r: Result<(DeckStore, DeckCard)>)
    ensures !OwnedBy(ds, deckId, userId) ==> r == Failure(NotFound)
    ensures OwnedBy(ds, deckId, userId) && HasCard(CardsOf(ds, deckId), cardId) ==> r == Failure(AlreadyExists)
    ensures r.Success? ==> var (ds', dc) := r.value; var before := CardsOf(ds, deckId);
      && OwnedBy(ds, deckId, userId) && !HasCard(before, cardId)
      && CardsOf(ds', deckId) == before + [dc]
      && dc.cardId == cardId && dc.deckId == deckId && dc.order == |before|
      && ds'.decks == ds.decks[deckId := ds.decks[deckId].(cardCount := |before| + 1)]
      && (forall d :: d != deckId ==> CardsOf(ds', d) == CardsOf(ds, d))
  {
    if !OwnedBy(ds, deckId, userId) then Failure(NotFound)
    else
      var cards := CardsOf(ds, deckId);
      if HasCard(cards, cardId) then Failure(AlreadyExists)
      else
        var dc := DeckCard(now, deckId, cardId, |cards|);
        var cards' := cards + [dc];
        var deck := ds.decks[deckId].(cardCount := |cards'|);
        Success((DeckStore(ds.decks[deckId := deck], ds.deckCards[deckId := cards']), dc))
  }

  /** The cards of a list other than `cardId`, in order. */
  function WithoutCard(cards: seq<DeckCard>, cardId: int): (r: seq<DeckCard>)
    ensures |r| <= |cards|
    ensures forall c :: c in r <==> c in cards && c.cardId != cardId
    ensures !HasCard(r, cardId)
  {
    if |cards| == 0 then []
    else WithoutCard(cards[..|cards| - 1], cardId)
         + (if cards[|cards| - 1].cardId != cardId then [cards[|cards| - 1]] else [])
  }

  /** Filtering a list made of two parts filters each part and keeps them
      in turn; a single entry stays exactly when it is for another card.
      Together these fix the order of what remains. */
  lemma {:induction false} WithoutCardAppend(a: seq<DeckCard>, b: seq<DeckCard>, cardId: int)
    ensures WithoutCard(a + b, cardId) == WithoutCard(a, cardId) + WithoutCard(b, cardId)
    ensures |b| == 1 ==> WithoutCard(b, cardId) == if b[0].cardId != cardId then b else []
    decreases |b|
  {
    if |b| > 0 {
      var b' := b[..|b| - 1];
      assert (a + b)[..|a + b| - 1] == a + b';
      WithoutCardAppend(a, b', cardId);
      if |b| == 1 {
        assert b' == [];
      }
    } else {
      assert a + b == a;
    }
  }

  /** `removeCardFromSharedDeck`: only the creator may remove; the card's
      entries leave the list, the others keep their order, and the count
      becomes the new length. Removing a card that is not listed leaves
      the deck as it was. */
  function RemoveCardFromSharedDeck(ds: DeckStore, deckId: int, cardId: int, userId: string): (r: Result<DeckStore>)
    ensures !OwnedBy(ds, deckId, userId) ==> r == Failure(NotFound)
    ensures OwnedBy(ds, deckId, userId) ==> r.Success?
    ensures r.Success? ==> var ds' := r.value;
      && CardsOf(ds', deckId) == WithoutCard(CardsOf(ds, deckId), cardId)
      && ds'.decks == ds.decks[deckId := ds.decks[deckId].(cardCount := |CardsOf(ds', deckId)|)]
      && (forall d :: d != deckId ==> CardsOf(ds', d) == CardsOf(ds, d))
  {
    if !OwnedBy(ds, deckId, userId) then Failure(NotFound)
    else
      var filtered := WithoutCard(CardsOf(ds, deckId), cardId);
      var deck := ds.decks[deckId].(cardCount := |filtered|);
      Success(DeckStore(ds.decks[deckId := deck], ds.deckCards[deckId := filtered]))
  }

  /** Filtering keeps the relative order, so a list without repeats stays
      without repeats. */
  lemma {:induction false} FilterKeepsDistinct(cards: seq<DeckCard>, cardId: int)
    requires Distinct(cards)
    ensures Distinct(WithoutCard(cards, cardId))
  {
    if |cards| > 0 {
      var prefix := cards[..|cards| - 1];
      var last := cards[|cards| - 1];
      FilterKeepsDistinct(prefix, cardId);
      forall c | c in WithoutCard(prefix, cardId) ensures c.cardId != last.cardId {
        var i :| 0 <= i < |prefix| && prefix[i] == c;
      }
    }
  }

  /** Adding and removing cards keep every deck's count equal to its
      length and keep each card listed at most once. */
  lemma OperationsKeepConsistent(ds: DeckStore, deckId: int, cardId: int, userId: string, now: int)
    requires Consistent(ds)
    ensures var r := AddCardToSharedDeck(ds, deckId, cardId, userId, now);
      r.Success? ==> Consistent(r.value.0)
    ensures var r := RemoveCardFromSharedDeck(ds, deckId, cardId, userId);
      r.Success? ==> Consistent(r.value)
  {
    if OwnedBy(ds, deckId, userId) {
      FilterKeepsDistinct(CardsOf(ds, deckId), cardId);
    }
  }

  /** Filtering out a card no entry has changes nothing. */
  lemma {:induction false} WithoutAbsentCard(cards: seq<DeckCard>, cardId: int)
    requires !HasCard(cards, cardId)
    ensures WithoutCard(cards, cardId) == cards
  {
    if |cards| > 0 {
      var prefix := cards[..|cards| - 1];
      assert !HasCard(prefix, cardId) by {
        forall i | 0 <= i < |prefix| ensures prefix[i].cardId != cardId {
          assert prefix[i] == cards[i];
        }
      }
      assert cards[|cards| - 1].cardId != cardId;
      WithoutAbsentCard(prefix, cardId);
      assert cards == prefix + [cards[|cards| - 1]];
    }
  }

  /** Adding a card and removing it again restores the deck's list and its
      count. */
  lemma AddThenRemove(ds: DeckStore, deckId: int, cardId: int, userId: string, now: int)
    requires Consistent(ds)
    requires AddCardToSharedDeck(ds, deckId, cardId, userId, now).Success?
    ensures var ds1 := AddCardToSharedDeck(ds, deckId, cardId, userId, now).value.0;
      var ds2 := RemoveCardFromSharedDeck(ds1, deckId, cardId, userId).value;
      && CardsOf(ds2, deckId) == CardsOf(ds, deckId)
      && ds2.decks == ds.decks
  {
    var (ds1, dc) := AddCardToSharedDeck(ds, deckId, cardId, userId, now).value;
    var before := CardsOf(ds, deckId);
    WithoutAbsentCard(before, cardId);
    assert (before + [dc])[..|before|] == before;
  }

  /** Removing a card the deck does not list leaves the deck as it was. */
  lemma RemoveAbsentIsNoOp(ds: DeckStore, deckId: int, cardId: int, userId: string)
    requires Consistent(ds) && OwnedBy(ds, deckId, userId)
    requires !HasCard(CardsOf(ds, deckId), cardId)
    ensures var ds' := RemoveCardFromSharedDeck(ds, deckId, cardId, userId).value;
      CardsOf(ds', deckId) == CardsOf(ds, deckId) && ds'.decks == ds.decks
  {
    WithoutAbsentCard(CardsOf(ds, deckId), cardId);
  }
}
