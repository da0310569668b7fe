/** The rules of the game on values: the state the game object keeps, one move of the card in
    hand, the status check, and the invariant every reachable state satisfies. The class in
    module Game performs these same changes in place. */
module Rules {
  import opened Cards
  import opened Piles

  /** What the game keeps between calls: the face-down piles (front = next card to turn), the
      single visible slot of each pile, the card in hand and the game-over flag. */
  datatype State = State(
    hidden: map<int, seq<string>>,
    visible: map<int, string>,
    current: Option<string>,
    over: bool)

  /** The answers of the status check; KeyError is the exception it raises when it reads a
      visible slot that does not exist (before the first deal). */
  datatype Status = Win | Loss | Ongoing | KeyError

  /** The automatic step's test for "no card to move": falsy, or the 'back' placeholder. */
  predicate NoCardInHand(card: Option<string>)
  {
    NotHeld(card) || card == Some(Back)
  }

  /** A step does not raise: a card in hand has a rank, and that rank's pile exists. */
  predicate CanStep(s: State)
  {
    !NoCardInHand(s.current) ==>
      GetCardDestination(s.current).Pile? && GetCardDestination(s.current).n in s.hidden
  }

  /** One move: put the card in hand on its destination's visible slot (overwriting it), then
      take the front face-down card of that pile into hand, or end the game if there is none.
      The boolean is the step's success flag. */
  function Step(s: State): (State, bool)
    requires CanStep(s)
  {
    if NoCardInHand(s.current) then (s, false)
    else
      var card := s.current.value;
      var d := GetCardDestination(s.current).n;
      var visible := s.visible[d := card];
      if s.hidden[d] != [] then
        (State(s.hidden[d := s.hidden[d][1..]], visible, Some(s.hidden[d][0]), s.over), true)
      else
        (State(s.hidden, visible, None, true), false)
  }

  /** Every slot of the given piles showing 'back'. */
  function AllBack(piles: map<int, seq<string>>): (visible: map<int, string>)
    ensures visible.Keys == piles.Keys
    ensures forall p :: p in visible ==> visible[p] == Back
  {
    map p | p in piles :: Back
  }

  /** The state right after the deal of `deck`: every slot shows 'back', and the first card
      dealt to pile 13 has been taken into hand. */
  function DealtState(deck: seq<string>): (s: State)
    requires |deck| == 52
  {
    DealOf52(deck, 13);
    var piles := Deal(deck);
    State(piles[13 := piles[13][1..]], AllBack(piles), Some(piles[13][0]), false)
  }

  /** Before the first deal both pile maps are empty and no card is in hand; after it both are
      keyed by the 13 pile numbers. The game is over exactly when no card is in hand. */
  ghost predicate Shaped(s: State)
  {
    && ((s.hidden == map[] && s.visible == map[] && s.current == None)
        || (OnEveryHour(s.hidden) && OnEveryHour(s.visible)))
    && (s.over <==> s.current == None)
  }

  /** A card shown on pile p is a card of rank p. */
  ghost predicate ShownOnOwnPile(visible: map<int, string>)
  {
    forall p :: p in visible ==> visible[p] == Back || GetCardDestination(Some(visible[p])) == Pile(p)
  }

  /** Face-down piles hold real cards, at most the four they were dealt. */
  ghost predicate HiddenCards(hidden: map<int, seq<string>>)
  {
    forall p :: p in hidden ==> |hidden[p]| <= 4 && forall k :: 0 <= k < |hidden[p]| ==> IsCard(hidden[p][k])
  }

  /** While a card is in hand, every pile p has exactly as many face-down cards as there are
      rank-p cards not yet played (one fewer for pile 13, whose first card started in hand). */
  ghost predicate Balanced(hidden: map<int, seq<string>>, card: string)
  {
    forall p :: p in hidden ==>
      HiddenOfRank(p, hidden, 13) + (if GetCardDestination(Some(card)) == Pile(p) then 1 else 0)
        == |hidden[p]| + (if p == 13 then 1 else 0)
  }

  ghost predicate InHand(s: State)
  {
    s.current.Some? ==> IsCard(s.current.value) && Balanced(s.hidden, s.current.value)
  }

  /** The invariant of every state the game object reaches. */
  ghost predicate ValidState(s: State)
  {
    Shaped(s) && ShownOnOwnPile(s.visible) && HiddenCards(s.hidden) && InHand(s)
  }

  /** The number of visible slots among piles 1..n showing card c ('back' is no card). */
  function ShownCopies(c: string, visible: map<int, string>, n: int): nat
  {
    if n <= 0 then 0
    else ShownCopies(c, visible, n - 1) + (if n in visible && visible[n] != Back && visible[n] == c then 1 else 0)
  }

  /** Whether card c is the card in hand (a card there is to move). */
  function HeldCopies(c: string, card: Option<string>): nat
  {
    if !NoCardInHand(card) && card.value == c then 1 else 0
  }

  /** How often card c is on the board: face down, shown on a slot, or in hand. */
  function Copies(s: State, c: string): nat
  {
    HiddenCopies(c, s.hidden, 13) + ShownCopies(c, s.visible, 13) + HeldCopies(c, s.current)
  }

  /** Every card on the board is a card of `deck`, and appears no more often than there. */
  ghost predicate DrawnFrom(s: State, deck: seq<string>)
  {
    forall c :: Copies(s, c) <= multiset(deck)[c]
  }

  /** Showing card x on slot q takes the slot's old card off the shown cards and puts x on. */
  lemma {:induction false} ShownCopiesUpdate(c: string, visible: map<int, string>, q: int, x: string, n: int)
    requires x != Back
    ensures ShownCopies(c, visible[q := x], n) + (if 1 <= q <= n && q in visible && visible[q] != Back && visible[q] == c then 1 else 0)
         == ShownCopies(c, visible, n) + (if 1 <= q <= n && x == c then 1 else 0)
  {
    if n > 0 {
      ShownCopiesUpdate(c, visible, q, x, n - 1);
    }
  }

  /** Slots that all show 'back' show no card. */
  lemma {:induction false} BackShowsNothing(c: string, visible: map<int, string>, n: int)
    requires forall p :: p in visible ==> visible[p] == Back
    ensures ShownCopies(c, visible, n) == 0
  {
    if n > 0 {
      BackShowsNothing(c, visible, n - 1);
    }
  }

  /** Before the first deal no card is on the board. */
  lemma NothingDealt(s: State, c: string)
    requires s.hidden == map[] && s.visible == map[] && s.current == None
    ensures Copies(s, c) == 0
  {
    EmptyPilesHideNoCopies(c, s.hidden, 13);
    BackShowsNothing(c, s.visible, 13);
  }

  /** Every card of a shuffled deck is a card the destination rule accepts. */
  lemma ShuffledDeckCards(deck: seq<string>)
    requires multiset(deck) == multiset(FullDeck())
    ensures |deck| == 52
    ensures forall i :: 0 <= i < 52 ==> IsCard(deck[i])
  {
    FullDeckCards();
    assert |deck| == |multiset(deck)| == 52;
    forall i | 0 <= i < 52
      ensures IsCard(deck[i])
    {
      assert deck[i] in multiset(FullDeck());
      var j :| 0 <= j < 52 && FullDeck()[j] == deck[i];
    }
  }

  /** The face-down cards of pile p after the deal are cards of the deck. */
  lemma DealtPileCards(deck: seq<string>, p: int)
    requires |deck| == 52 && 1 <= p <= 13
    requires forall i :: 0 <= i < 52 ==> IsCard(deck[i])
    ensures |DealtState(deck).hidden[p]| <= 4
    ensures forall k :: 0 <= k < |DealtState(deck).hidden[p]| ==> IsCard(DealtState(deck).hidden[p][k])
  {
    var piles := Deal(deck);
    var pile := DealtState(deck).hidden[p];
    DealOf52(deck, 13);
    DealOf52(deck, p);
    forall k | 0 <= k < |pile|
      ensures IsCard(pile[k])
    {
      if p == 13 {
        assert pile[k] == piles[13][k + 1] == deck[12 + 13 * (k + 1)];
      } else {
        assert pile[k] == deck[p - 1 + 13 * k];
      }
    }
  }

  lemma DealtHiddenCards(deck: seq<string>)
    requires |deck| == 52
    requires forall i :: 0 <= i < 52 ==> IsCard(deck[i])
    ensures HiddenCards(DealtState(deck).hidden)
  {
    forall p | p in DealtState(deck).hidden
      ensures |DealtState(deck).hidden[p]| <= 4
      ensures forall k :: 0 <= k < |DealtState(deck).hidden[p]| ==> IsCard(DealtState(deck).hidden[p][k])
    {
      DealtPileCards(deck, p);
    }
  }

  /** After the deal pile p hides as many cards as there are rank-p cards face down anywhere,
      counting the card in hand. */
  lemma DealtBalancedAt(deck: seq<string>, p: int)
    requires |deck| == 52 && multiset(deck) == multiset(FullDeck()) && 1 <= p <= 13
    ensures HiddenOfRank(p, DealtState(deck).hidden, 13) + (if GetCardDestination(Some(deck[12])) == Pile(p) then 1 else 0)
            == |DealtState(deck).hidden[p]| + (if p == 13 then 1 else 0)
  {
    var piles := Deal(deck);
    DealOf52(deck, 13);
    DealOf52(deck, p);
    HiddenOfRankUpdate(p, piles, 13, piles[13][1..], 13);
    assert piles[13] == [deck[12]] + piles[13][1..];
    CountRankAppend(p, [deck[12]], piles[13][1..]);
    HiddenOfRankDeal(p, deck);
    CountRankPermutation(p, deck, FullDeck());
    FullDeckRankCount(p);
  }

  lemma DealtBalanced(deck: seq<string>)
    requires multiset(deck) == multiset(FullDeck())
    ensures |deck| == 52
    ensures Balanced(DealtState(deck).hidden, deck[12])
  {
    PermutedDeckLength(deck);
    forall p | p in DealtState(deck).hidden
      ensures HiddenOfRank(p, DealtState(deck).hidden, 13) + (if GetCardDestination(Some(deck[12])) == Pile(p) then 1 else 0)
              == |DealtState(deck).hidden[p]| + (if p == 13 then 1 else 0)
    {
      DealtBalancedAt(deck, p);
    }
  }

  /** The layout right after the deal: 4 face-down cards on piles 1..12, the 3 behind the
      card in hand on pile 13, 51 in all; every slot 'back'; the game not over. */
  lemma DealtLayout(deck: seq<string>)
    requires |deck| == 52
    ensures forall p :: 1 <= p <= 12 ==> DealtState(deck).hidden[p] == Deal(deck)[p] && |Deal(deck)[p]| == 4
    ensures DealtState(deck).hidden[13] == Deal(deck)[13][1..] && |DealtState(deck).hidden[13]| == 3
    ensures DealtState(deck).current == Some(deck[12]) && deck[12] == Deal(deck)[13][0]
    ensures TotalHidden(DealtState(deck).hidden, 13) == 51
    ensures forall p :: 1 <= p <= 13 ==> DealtState(deck).visible[p] == Back
    ensures !DealtState(deck).over
  {
    var piles := Deal(deck);
    DealOf52(deck, 13);
    forall p | 1 <= p <= 13
      ensures |piles[p]| == 4
    {
      DealOf52(deck, p);
    }
    TotalHiddenOfFours(piles, 13);
    TotalHiddenUpdate(piles, 13, piles[13][1..], 13);
  }

  /** A shuffled deck deals into a valid state. */
  lemma DealtStateValid(deck: seq<string>)
    requires multiset(deck) == multiset(FullDeck())
    ensures |deck| == 52
    ensures ValidState(DealtState(deck))
  {
    ShuffledDeckCards(deck);
    DealtHiddenCards(deck);
    DealtBalanced(deck);
    DealOf52(deck, 13);
    assert DealtState(deck).current == Some(deck[12]);
  }

  /** The deal puts exactly the cards of the deck on the board: 51 face down and one in hand. */
  lemma DealtOnBoard(deck: seq<string>, c: string)
    requires |deck| == 52 && IsCard(deck[12])
    ensures Copies(DealtState(deck), c) == multiset(deck)[c]
  {
    DealOf52(deck, 13);
    var piles := Deal(deck);
    var rest := piles[13][1..];
    assert piles[13] == [deck[12]] + rest;
    HiddenCopiesDeal(c, deck);
    HiddenCopiesUpdate(c, piles, 13, rest, 13);
    BackShowsNothing(c, AllBack(piles), 13);
  }

  /** A shuffled deck deals into a state holding each of its cards exactly once. */
  lemma DealtCopies(deck: seq<string>)
    requires multiset(deck) == multiset(FullDeck())
    ensures |deck| == 52
    ensures forall c :: Copies(DealtState(deck), c) == multiset(deck)[c]
  {
    ShuffledDeckCards(deck);
    forall c
      ensures Copies(DealtState(deck), c) == multiset(deck)[c]
    {
      DealtOnBoard(deck, c);
    }
  }

  /** The card a successful step takes into hand leaves every pile balanced. */
  lemma StepKeepsBalance(s: State)
    requires ValidState(s) && s.current.Some? && Step(s).1
    ensures InHand(Step(s).0)
  {
    var d := GetCardDestination(s.current).n;
    var t := Step(s).0;
    var x := s.hidden[d][0];
    assert t.current == Some(x) && t.hidden == s.hidden[d := s.hidden[d][1..]];
    assert IsCard(x);
    forall p | p in t.hidden
      ensures HiddenOfRank(p, t.hidden, 13) + (if GetCardDestination(Some(x)) == Pile(p) then 1 else 0)
              == |t.hidden[p]| + (if p == 13 then 1 else 0)
    {
      HiddenOfRankUpdate(p, s.hidden, d, s.hidden[d][1..], 13);
    }
  }

  /** A step from a valid state leads to a valid state. */
  lemma StepPreservesValid(s: State)
    requires ValidState(s)
    ensures ValidState(Step(s).0)
  {
    if !NoCardInHand(s.current) {
      var t := Step(s).0;
      assert Shaped(t);
      assert ShownOnOwnPile(t.visible);
      assert HiddenCards(t.hidden);
      if Step(s).1 {
        StepKeepsBalance(s);
      }
    }
  }

  /** What a step changes: only pile d, the destination of the card in hand. Its visible slot
      now shows that card; its face-down list loses its front card, which is the new card in
      hand; or, when the list was empty, the game is over with no card in hand. */
  lemma StepFrame(s: State)
    requires ValidState(s) && s.current.Some?
    ensures GetCardDestination(s.current).Pile?
    ensures var d := GetCardDestination(s.current).n;
            var (t, ok) := Step(s);
            && t.visible[d] == s.current.value
            && (forall p :: p in s.hidden && p != d ==> t.hidden[p] == s.hidden[p] && t.visible[p] == s.visible[p])
            && t.hidden.Keys == s.hidden.Keys && t.visible.Keys == s.visible.Keys
            && (ok ==> t.current.Some? && s.hidden[d] == [t.current.value] + t.hidden[d] && t.over == s.over)
            && (!ok ==> s.hidden[d] == [] && t.hidden == s.hidden && t.current == None && t.over)
  {
  }

  /** The count of card c after a step with card `card` in hand, going to pile d. */
  lemma StepCopies(s: State, c: string, card: string, d: int)
    requires CanStep(s) && s.current == Some(card) && !NoCardInHand(s.current)
    requires GetCardDestination(s.current) == Pile(d) && d in s.visible
    requires s.hidden[d] != [] ==> !NoCardInHand(Some(s.hidden[d][0]))
    ensures Copies(s, c) == Copies(Step(s).0, c) + (if s.visible[d] != Back && s.visible[d] == c then 1 else 0)
  {
    ShownCopiesUpdate(c, s.visible, d, card, 13);
    if s.hidden[d] != [] {
      assert s.hidden[d] == [s.hidden[d][0]] + s.hidden[d][1..];
      HiddenCopiesUpdate(c, s.hidden, d, s.hidden[d][1..], 13);
    }
  }

  /** A step takes no card onto the board: the only card that leaves it is the one the move
      overwrites on the destination's visible slot. */
  lemma StepDropsOverwritten(s: State, c: string)
    requires ValidState(s) && s.current.Some?
    ensures GetCardDestination(s.current).Pile? && GetCardDestination(s.current).n in s.visible
    ensures var shown := s.visible[GetCardDestination(s.current).n];
            Copies(s, c) == Copies(Step(s).0, c) + (if shown != Back && shown == c then 1 else 0)
  {
    var d := GetCardDestination(s.current).n;
    assert IsCard(s.current.value);
    if s.hidden[d] != [] {
      assert IsCard(s.hidden[d][0]);
    }
    StepCopies(s, c, s.current.value, d);
  }

  /** Steps from a state drawn from a deck stay drawn from it. */
  lemma StepKeepsDrawnFrom(s: State, deck: seq<string>)
    requires ValidState(s) && DrawnFrom(s, deck)
    ensures DrawnFrom(Step(s).0, deck)
  {
    if s.current.Some? {
      forall c
        ensures Copies(Step(s).0, c) <= multiset(deck)[c]
      {
        StepDropsOverwritten(s, c);
      }
    }
  }

  /** The invariant of the game object: the rules' invariant, with every card on the board
      drawn from the deck; before the first deal the deck is empty, after it a shuffle of the
      52 cards. */
  ghost predicate Consistent(s: State, deck: seq<string>)
  {
    && ValidState(s)
    && (deck == [] || multiset(deck) == multiset(FullDeck()))
    && DrawnFrom(s, deck)
  }

  /** The deal of a shuffled deck establishes the game object's invariant. */
  lemma DealtConsistent(deck: seq<string>)
    requires multiset(deck) == multiset(FullDeck())
    ensures |deck| == 52
    ensures Consistent(DealtState(deck), deck)
  {
    DealtStateValid(deck);
    DealtCopies(deck);
  }

  /** A step keeps the game object's invariant. */
  lemma StepKeepsConsistent(s: State, deck: seq<string>)
    requires Consistent(s, deck)
    ensures Consistent(Step(s).0, deck)
  {
    StepPreservesValid(s);
    StepKeepsDrawnFrom(s, deck);
  }

  /** A board drawn from a shuffled deck holds no card twice: no card is both face down and
      shown, in hand and elsewhere, or on two piles. */
  lemma BoardCardsDistinct(s: State, deck: seq<string>)
    requires multiset(deck) == multiset(FullDeck()) && DrawnFrom(s, deck)
    ensures forall c :: Copies(s, c) <= 1
  {
    FullDeckOnce();
  }

  /** Without a card in hand a step fails and changes nothing. */
  lemma StepWithoutCard(s: State)
    requires CanStep(s) && NoCardInHand(s.current)
    ensures Step(s) == (s, false)
  {
  }

  /** Every successful step turns exactly one face-down card; a failed one turns none. */
  lemma StepShrinksHidden(s: State)
    requires CanStep(s)
    ensures Step(s).1 ==> TotalHidden(Step(s).0.hidden, 13) == TotalHidden(s.hidden, 13) - 1
    ensures !Step(s).1 ==> Step(s).0.hidden == s.hidden
  {
    if !NoCardInHand(s.current) {
      var d := GetCardDestination(s.current).n;
      if s.hidden[d] != [] {
        TotalHiddenUpdate(s.hidden, d, s.hidden[d][1..], 13);
      }
    }
  }

  /** The game ends exactly when the card in hand is the last King: a card of any other rank
      always finds a face-down card on its pile. */
  lemma GameEndsOnLastKing(s: State)
    requires ValidState(s) && s.current.Some?
    ensures !Step(s).1 <==> GetCardDestination(s.current) == Pile(13) && HiddenOfRank(13, s.hidden, 13) == 0
  {
    var d := GetCardDestination(s.current).n;
    assert d in s.hidden;
    assert HiddenOfRank(d, s.hidden, 13) + 1 == |s.hidden[d]| + (if d == 13 then 1 else 0);
  }

  /** run[i + 1] is what a successful step makes of run[i], for every consecutive pair. */
  ghost predicate SuccessfulRun(run: seq<State>)
  {
    forall i :: 0 <= i < |run| - 1 ==> CanStep(run[i]) && Step(run[i]) == (run[i + 1], true)
  }

  /** A run of successful steps turns one face-down card per step, so it has no more steps
      than its first state has face-down cards. */
  lemma {:induction false} RunAtMostHidden(run: seq<State>)
    requires |run| > 0 && SuccessfulRun(run)
    ensures |run| - 1 <= TotalHidden(run[0].hidden, 13)
    decreases |run|
  {
    if |run| > 1 {
      StepShrinksHidden(run[0]);
      assert SuccessfulRun(run[1..]) by {
        forall i | 0 <= i < |run[1..]| - 1
          ensures CanStep(run[1..][i]) && Step(run[1..][i]) == (run[1..][i + 1], true)
        {
          assert run[1..][i] == run[i + 1] && run[1..][i + 1] == run[i + 2];
        }
      }
      RunAtMostHidden(run[1..]);
    }
  }

  /** From a fresh deal at most 51 steps in a row succeed. */
  lemma DealtRunAtMost51(deck: seq<string>, run: seq<State>)
    requires |deck| == 52
    requires |run| > 0 && run[0] == DealtState(deck) && SuccessfulRun(run)
    ensures |run| - 1 <= 51
  {
    DealtLayout(deck);
    RunAtMostHidden(run);
  }

  /** Number of piles among 1..n whose visible card passes the King test
      (`card != 'back' and card.startswith('K')`). */
  function KingsVisible(visible: map<int, string>, n: int): nat
  {
    if n <= 0 then 0
    else KingsVisible(visible, n - 1)
         + (if n in visible && visible[n] != Back && StartsWith(visible[n], "K") then 1 else 0)
  }

  /** The status check's test for pile i: it shows a card beginning with pile i's rank. */
  predicate PileCorrect(visible: map<int, string>, i: int)
    requires 1 <= i <= 13
  {
    i in visible && visible[i] != Back && StartsWith(visible[i], Ranks[i - 1])
  }

  /** The status check, decided in the order the game applies its rules. */
  function Evaluate(s: State): Status
    requires s.visible == map[] || OnEveryHour(s.visible)
  {
    if KingsVisible(s.visible, 13) >= 4 then Loss
    else if NotHeld(s.current) then
      if s.visible == map[] then KeyError
      else if forall i :: 1 <= i <= 13 ==> PileCorrect(s.visible, i) then Win
      else Loss
    else if s.over then Loss
    else Ongoing
  }

  lemma {:induction false} NoKingsBelow13(s: State, n: int)
    requires ValidState(s) && n <= 12
    ensures KingsVisible(s.visible, n) == 0
  {
    if n > 0 {
      NoKingsBelow13(s, n - 1);
      if n in s.visible && s.visible[n] != Back {
        KingOnlyOnPile13(s.visible[n], n);
      }
    }
  }

  /** Only pile 13 can show a King, and it shows one card at a time, so at most one King is
      ever visible: the four-Kings loss rule can never fire. */
  lemma AtMostOneKingVisible(s: State)
    requires ValidState(s)
    ensures KingsVisible(s.visible, 13) <= 1
  {
    NoKingsBelow13(s, 12);
  }

  /** What the status check answers in a valid state: 'ongoing' while a card is in hand;
      otherwise 'win' exactly when every pile's slot has received a card, 'loss' if some slot
      still shows 'back'; KeyError before the first deal. */
  lemma EvaluateValid(s: State)
    requires ValidState(s)
    ensures Evaluate(s) == (if s.current.Some? then Ongoing
                            else if s.visible == map[] then KeyError
                            else if forall p :: 1 <= p <= 13 ==> s.visible[p] != Back then Win
                            else Loss)
  {
    AtMostOneKingVisible(s);
    if s.current.Some? {
      assert s.current.value != "";
    } else if s.visible != map[] {
      forall i | 1 <= i <= 13
        ensures PileCorrect(s.visible, i) <==> s.visible[i] != Back
      {
        if s.visible[i] != Back {
          DestinationPrefix(s.visible[i], i);
        }
      }
    }
  }

  /** Once the status is decided, a step changes nothing. */
  lemma DecidedIsFinal(s: State)
    requires ValidState(s) && Evaluate(s) != Ongoing
    ensures Step(s) == (s, false)
  {
    EvaluateValid(s);
  }

  /** The move that plays the last King ends the game: the status check then decides it. */
  lemma FailedStepDecides(s: State)
    requires ValidState(s) && s.current.Some? && !Step(s).1
    ensures Evaluate(Step(s).0) == Win || Evaluate(Step(s).0) == Loss
  {
    StepPreservesValid(s);
    EvaluateValid(Step(s).0);
    assert 1 in Step(s).0.visible;
  }

  /** What the board view is given: the visible slots, the number of face-down cards of each
      pile and the card in hand. */
  datatype Board = Board(visible: map<int, string>, hiddenCounts: map<int, nat>, current: Option<string>)

  /** The board as the game reports it; None where reading a missing pile raises KeyError. */
  function BoardOf(s: State): (r: Option<Board>)
    ensures r.Some? <==> forall p :: 1 <= p <= 13 ==> p in s.hidden
    ensures r.Some? ==> r.value.visible == s.visible && r.value.current == s.current
                        && OnEveryHour(r.value.hiddenCounts)
                        && forall p :: p in r.value.hiddenCounts ==> r.value.hiddenCounts[p] == |s.hidden[p]|
  {
    if forall p :: 1 <= p <= 13 ==> p in s.hidden then
      Some(Board(s.visible, map p | 1 <= p <= 13 :: |s.hidden[p]|, s.current))
    else None
  }

  /** After a deal the board shows four face-down cards on piles 1..12, three on pile 13, every
      slot 'back', and the first card of pile 13 in hand. */
  lemma DealtBoard(deck: seq<string>)
    requires |deck| == 52
    ensures BoardOf(DealtState(deck)).Some?
    ensures var b := BoardOf(DealtState(deck)).value;
            && (forall p :: 1 <= p <= 13 ==> b.hiddenCounts[p] == (if p == 13 then 3 else 4) && b.visible[p] == Back)
            && b.current == Some(deck[12])
  {
    DealtLayout(deck);
  }

  /** In every valid state after the deal each pile shows at most four face-down cards. */
  lemma BoardCountsBounded(s: State)
    requires ValidState(s) && s.hidden != map[]
    ensures BoardOf(s).Some?
    ensures forall p :: p in BoardOf(s).value.hiddenCounts ==> BoardOf(s).value.hiddenCounts[p] <= 4
  {
  }
}
