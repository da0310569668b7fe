/** The game object: the fields of the Python class GameModel, changed in place by the deal
    and the two kinds of move. Each method is proved to have exactly the effect that module
    Rules gives the corresponding rule on values, and the public ones to keep the invariant. */
module Game {
  import opened Cards
  import opened Piles
  import opened Rules

  class GameModel {
    var deck: seq<string>
    var pilesHidden: map<int, seq<string>>
    var pilesVisible: map<int, string>
    var isGameOver: bool
    var currentCard: Option<string>

    /** The fields the rules read, as a value. */
    ghost function View(): State
      reads this
    {
      State(pilesHidden, pilesVisible, currentCard, isGameOver)
    }

    /** The invariant: the state satisfies the rules' invariant and its cards come from the
        deck. */
    ghost predicate Valid()
      reads this
    {
      Consistent(View(), deck)
    }

    /** A new game: nothing dealt, no card in hand, and the game counts as over. */
    constructor()
      ensures Valid()
      ensures deck == [] && pilesHidden == map[] && pilesVisible == map[]
      ensures currentCard == None && isGameOver
    {
      deck := [];
      pilesHidden := map[];
      pilesVisible := map[];
      isGameOver := true;
      currentCard := None;
      new;
      forall c
        ensures Copies(View(), c) == 0
      {
        NothingDealt(View(), c);
      }
    }

    /** Build the deck, put it in the order `shuffled` (the shuffle's outcome, any permutation
        of the deck), deal it round robin onto the 13 piles, turn every slot to 'back' and take
        the first card of pile 13 into hand. */
    method ShuffleAndDeal(shuffled: seq<string>)
      requires multiset(shuffled) == multiset(FullDeck())
      modifies this
      ensures deck == shuffled && |deck| == 52
      ensures View() == DealtState(shuffled)
      ensures forall c :: Copies(View(), c) == multiset(deck)[c]
      ensures Valid()
    {
      deck := shuffled;
      PermutedDeckLength(shuffled);
      DealIntoPiles();
      pilesVisible := AllBack(pilesHidden);
      DealOf52(deck, 13);
      if pilesHidden[13] != [] {
        currentCard := Some(pilesHidden[13][0]);
        pilesHidden := pilesHidden[13 := pilesHidden[13][1..]];
      } else {
        assert false;
      }
      isGameOver := false;
      assert View() == DealtState(shuffled);
      DealtConsistent(shuffled);
      DealtCopies(shuffled);
    }

    /** The dealing loop: card i of the deck is appended to pile (i % 13) + 1, starting from 13
        empty piles. */
    method DealIntoPiles()
      modifies this
      ensures pilesHidden == Deal(deck)
      ensures deck == old(deck) && pilesVisible == old(pilesVisible)
      ensures currentCard == old(currentCard) && isGameOver == old(isGameOver)
    {
      pilesHidden := Deal([]);
      var i := 0;
      while i < |deck|
        invariant 0 <= i <= |deck|
        invariant pilesHidden == Deal(deck[..i])
        invariant deck == old(deck) && pilesVisible == old(pilesVisible)
        invariant currentCard == old(currentCard) && isGameOver == old(isGameOver)
      {
        var pileIdx := i % 13 + 1;
        DealAppend(deck[..i], deck[i]);
        assert deck[..i + 1] == deck[..i] + [deck[i]];
        pilesHidden := pilesHidden[pileIdx := pilesHidden[pileIdx] + [deck[i]]];
        i := i + 1;
      }
      assert deck[..i] == deck;
    }

    /** One automatic move: put the card in hand on its pile's visible slot and take that
        pile's next face-down card, or end the game when there is none. */
    method AutoPlayStep() returns (ok: bool)
      requires Valid()
      modifies this
      ensures Valid() && deck == old(deck)
      ensures (View(), ok) == Step(old(View()))
      ensures NoCardInHand(old(currentCard)) ==> !ok && View() == old(View())
      ensures ok ==> TotalHidden(pilesHidden, 13) + 1 == old(TotalHidden(pilesHidden, 13))
      ensures !ok && old(currentCard).Some? ==>
                old(GetCardDestination(currentCard) == Pile(13) && HiddenOfRank(13, pilesHidden, 13) == 0)
                && currentCard == None && isGameOver
    {
      ghost var before := View();
      assert Consistent(before, deck);
      StepKeepsConsistent(before, deck);
      StepShrinksHidden(before);
      if NotHeld(currentCard) || currentCard == Some(Back) {
        return false;
      }
      GameEndsOnLastKing(before);
      ok := PlaceAndReveal();
    }

    /** The two steps of a move with a card in hand: show the card on its pile's visible slot,
        then take that pile's next face-down card into hand, or end the game when there is
        none. */
    method PlaceAndReveal() returns (ok: bool)
      requires CanStep(View()) && !NoCardInHand(currentCard)
      modifies this
      ensures (View(), ok) == Step(old(View()))
      ensures deck == old(deck)
    {
      var cardToMove := currentCard.value;
      var destination := GetCardDestination(currentCard).n;
      pilesVisible := pilesVisible[destination := cardToMove];
      if pilesHidden[destination] != [] {
        currentCard := Some(pilesHidden[destination][0]);
        pilesHidden := pilesHidden[destination := pilesHidden[destination][1..]];
        ok := true;
      } else {
        currentCard := None;
        isGameOver := true;
        ok := false;
      }
    }

    /** A move to the pile the player clicked: it is made, as the automatic move, only when that
        pile is the destination of the card in hand; otherwise nothing changes. */
    method ManualPlayStep(clickedPile: int) returns (ok: bool)
      requires Valid()
      modifies this
      ensures Valid() && deck == old(deck)
      ensures !NotHeld(old(currentCard)) && GetCardDestination(old(currentCard)) == Pile(clickedPile)
              ==> (View(), ok) == Step(old(View()))
      ensures NotHeld(old(currentCard)) || GetCardDestination(old(currentCard)) != Pile(clickedPile)
              ==> !ok && View() == old(View())
    {
      if NotHeld(currentCard) {
        return false;
      }
      var expectedDestination := GetCardDestination(currentCard);
      if expectedDestination == Pile(clickedPile) {
        ok := AutoPlayStep();
      } else {
        ok := false;
      }
    }

    /** The status check: 'loss' on four visible Kings; with no card in hand 'win' when every
        pile i shows a card of rank i and 'loss' otherwise; 'loss' when the game is over;
        'ongoing' else. It reads pile i's slot for i = 1..13 and raises KeyError at a missing
        one. */
    method CheckGameStatus() returns (status: Status)
      requires pilesVisible == map[] || OnEveryHour(pilesVisible)
      ensures status == Evaluate(View())
      ensures ValidState(View()) ==> status == (if currentCard.Some? then Ongoing
                                     else if pilesVisible == map[] then KeyError
                                     else if forall p :: 1 <= p <= 13 ==> pilesVisible[p] != Back then Win
                                     else Loss)
    {
      if ValidState(View()) {
        EvaluateValid(View());
      }
      var kingsVisible := KingsVisible(pilesVisible, 13);
      if kingsVisible >= 4 {
        return Loss;
      }
      if NotHeld(currentCard) {
        var allCorrect := true;
        var i := 1;
        while i < 14
          invariant 1 <= i <= 14
          invariant allCorrect
          invariant forall j :: 1 <= j < i ==> PileCorrect(pilesVisible, j)
        {
          if i !in pilesVisible {
            return KeyError;
          }
          var expectedValue := Ranks[i - 1];
          var actualCard := pilesVisible[i];
          if actualCard == Back || !StartsWith(actualCard, expectedValue) {
            allCorrect := false;
            break;
          }
          i := i + 1;
        }
        if allCorrect {
          assert PileCorrect(pilesVisible, 1);
          return Win;
        } else {
          assert !PileCorrect(pilesVisible, i);
          return Loss;
        }
      }
      if isGameOver {
        return Loss;
      }
      return Ongoing;
    }

    /** The board handed to the view; None where a missing pile raises KeyError. Its meaning is
        the contract of Rules.BoardOf, which this reads off the current fields. */
    function GetBoardState(): (r: Option<Board>)
      reads this
      ensures r == BoardOf(View())
    {
      BoardOf(State(pilesHidden, pilesVisible, currentCard, isGameOver))
    }
  }
}
