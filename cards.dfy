/** Cards of the clock: the 52 card names, the deck in construction order, and the
    destination rule that sends a card to the pile of its rank. A card is a string, the
    rank text followed by one suit symbol ("10♥", "K♠"), exactly as the game stores it. */
module Cards {

  datatype Option<T> = None | Some(value: T)

  /** The ranks in clock order: the card of rank Ranks[i] belongs on pile i + 1. */
  const Ranks: seq<string> := ["A", "2", "3", "4", "5", "6", "7", "8", "9", "10", "J", "Q", "K"]

  const Suits: seq<string> := ["♠", "♥", "♦", "♣"]

  /** The placeholder held by a visible slot that has not received a card. */
  const Back: string := "back"

  function CardName(v: nat, s: nat): string
    requires v < |Ranks| && s < |Suits|
  {
    Ranks[v] + Suits[s]
  }

  /** The four cards of rank v, in suit order. */
  function Block(v: nat): (b: seq<string>)
    requires v < |Ranks|
    ensures |b| == |Suits|
    ensures forall s :: 0 <= s < |Suits| ==> b[s] == CardName(v, s)
  {
    seq(|Suits|, s requires 0 <= s < |Suits| => CardName(v, s))
  }

  /** The cards of ranks v, v+1, ..., K; each rank contributes its four suits in order. */
  function DeckFrom(v: nat): seq<string>
    requires v <= |Ranks|
    decreases |Ranks| - v
  {
    if v == |Ranks| then [] else Block(v) + DeckFrom(v + 1)
  }

  /** The rank index the deck starts from. It is a named constant rather than a literal 0 so
      that the verifier does not unfold the whole 52-card deck wherever the deck is mentioned. */
  const FirstRank: nat := 0

  /** The unshuffled deck: rank-major, suit-minor. */
  function FullDeck(): seq<string>
  {
    DeckFrom(FirstRank)
  }

  lemma {:induction false} DeckFromLength(v: nat)
    requires v <= |Ranks|
    ensures |DeckFrom(v)| == 4 * (|Ranks| - v)
    decreases |Ranks| - v
  {
    if v < |Ranks| {
      DeckFromLength(v + 1);
    }
  }

  /** Card s of the k-th block after rank v is the card of rank v + k and suit s. */
  lemma {:induction false} DeckFromAt(v: nat, k: nat, s: nat)
    requires v + k < |Ranks| && s < |Suits|
    ensures |DeckFrom(v)| == 4 * (|Ranks| - v)
    ensures DeckFrom(v)[4 * k + s] == CardName(v + k, s)
    decreases k
  {
    DeckFromLength(v);
    if k == 0 {
      assert DeckFrom(v)[s] == Block(v)[s];
    } else {
      DeckFromAt(v + 1, k - 1, s);
      assert DeckFrom(v)[4 * k + s] == DeckFrom(v + 1)[4 * (k - 1) + s];
    }
  }

  /** Any order of the deck still has its 52 cards. */
  lemma PermutedDeckLength(deck: seq<string>)
    requires multiset(deck) == multiset(FullDeck())
    ensures |deck| == 52
  {
    DeckFromLength(0);
    assert |deck| == |multiset(deck)| == |multiset(FullDeck())| == |FullDeck()|;
  }

  /** Ranks differ already in their first character. */
  lemma RanksDistinct()
    ensures forall i, j :: 0 <= i < |Ranks| && 0 <= j < |Ranks| && Ranks[i][0] == Ranks[j][0] ==> i == j
  {
  }

  /** Different ranks or suits give different card names. */
  lemma CardNameInjective(v: nat, s: nat, w: nat, t: nat)
    requires v < |Ranks| && s < |Suits| && w < |Ranks| && t < |Suits|
    requires v != w || s != t
    ensures CardName(v, s) != CardName(w, t)
  {
    RanksDistinct();
    if v != w {
      assert CardName(v, s)[0] == Ranks[v][0] != Ranks[w][0] == CardName(w, t)[0];
    } else {
      assert CardName(v, s)[|Ranks[v]|] == Suits[s][0] != Suits[t][0] == CardName(w, t)[|Ranks[w]|];
    }
  }

  /** Card 4 v + s of the deck is the card of rank v and suit s. */
  lemma FullDeckLayout()
    ensures |FullDeck()| == |Ranks| * |Suits| == 52
    ensures forall v, s :: 0 <= v < |Ranks| && 0 <= s < |Suits| ==> FullDeck()[4 * v + s] == CardName(v, s)
  {
    DeckFromLength(FirstRank);
    forall v, s | 0 <= v < |Ranks| && 0 <= s < |Suits|
      ensures FullDeck()[4 * v + s] == CardName(v, s)
    {
      DeckFromAt(FirstRank, v, s);
    }
  }

  /** Card i of the deck is the card of rank i / 4 and suit i % 4. */
  lemma FullDeckIndexed()
    ensures |FullDeck()| == 52
    ensures forall i :: 0 <= i < 52 ==> FullDeck()[i] == CardName(i / 4, i % 4)
  {
    DeckFromLength(FirstRank);
    forall i | 0 <= i < 52
      ensures FullDeck()[i] == CardName(i / 4, i % 4)
    {
      var v, s := i / 4, i % 4;
      assert i == 4 * v + s;
      DeckFromAt(FirstRank, v, s);
    }
  }

  /** The deck the game builds holds 52 distinct cards, one per rank and suit, and card i is
      the card of rank i / 4 and suit i % 4. */
  lemma FullDeckContents()
    ensures |FullDeck()| == |Ranks| * |Suits| == 52
    ensures forall i :: 0 <= i < 52 ==> FullDeck()[i] == CardName(i / 4, i % 4)
    ensures forall v, s :: 0 <= v < |Ranks| && 0 <= s < |Suits| ==> FullDeck()[4 * v + s] == CardName(v, s)
    ensures forall i, j :: 0 <= i < j < 52 ==> FullDeck()[i] != FullDeck()[j]
  {
    FullDeckLayout();
    FullDeckIndexed();
    forall i, j | 0 <= i < j < 52
      ensures FullDeck()[i] != FullDeck()[j]
    {
      CardNameInjective(i / 4, i % 4, j / 4, j % 4);
    }
  }

  /** A sequence without repeated elements holds each element at most once. */
  lemma {:induction false} DistinctAtMostOnce(xs: seq<string>)
    requires forall i, j :: 0 <= i < j < |xs| ==> xs[i] != xs[j]
    ensures forall c :: multiset(xs)[c] <= 1
  {
    if xs != [] {
      DistinctAtMostOnce(xs[1..]);
      assert xs == [xs[0]] + xs[1..];
      assert xs[0] !in xs[1..];
    }
  }

  /** The deck holds every card at most once. */
  lemma FullDeckOnce()
    ensures forall c :: multiset(FullDeck())[c] <= 1
  {
    FullDeckContents();
    DistinctAtMostOnce(FullDeck());
  }

  /** The first position of x in xs, as Python's list.index finds it (None where it raises). */
  function IndexOf(xs: seq<string>, x: string): (r: Option<nat>)
    ensures r.Some? ==> r.value < |xs|
  {
    if xs == [] then None
    else if xs[0] == x then Some(0)
    else match IndexOf(xs[1..], x)
      case None => None
      case Some(i) => Some(i + 1)
  }

  /** IndexOf finds the first occurrence of x, and finds none exactly when x is absent. */
  lemma {:induction false} IndexOfFirst(xs: seq<string>, x: string)
    ensures IndexOf(xs, x).Some? ==> xs[IndexOf(xs, x).value] == x && x !in xs[..IndexOf(xs, x).value]
    ensures IndexOf(xs, x).None? ==> x !in xs
  {
    if xs != [] && xs[0] != x {
      IndexOfFirst(xs[1..], x);
      if IndexOf(xs[1..], x).Some? {
        var i := IndexOf(xs[1..], x).value;
        assert xs[..i + 1] == [xs[0]] + xs[1..][..i];
      }
    }
  }

  datatype Destination =
    | NoDestination      // no card, an empty string or the 'back' placeholder
    | Pile(n: int)       // the pile numbered by the card's rank
    | RankNotFound       // the rank text is not a rank: list.index raises ValueError

  predicate StartsWith(s: string, prefix: string)
  {
    |prefix| <= |s| && s[..|prefix|] == prefix
  }

  /** Python's falsy test on the card in hand: None or the empty string. */
  predicate NotHeld(card: Option<string>)
  {
    card == None || card == Some("")
  }

  /** The destination rule: strip the last character (the suit) and look the rest up in the
      rank list; the pile is the rank's position plus one. */
  function GetCardDestination(card: Option<string>): (r: Destination)
    ensures r == NoDestination <==> NotHeld(card) || card == Some(Back)
    ensures r.Pile? ==> 1 <= r.n <= |Ranks|
  {
    if NotHeld(card) || card.value == Back then NoDestination
    else
      match IndexOf(Ranks, card.value[..|card.value| - 1])
      case Some(i) => Pile(i + 1)
      case None => RankNotFound
  }

  /** What the rule reads off a held card: the text before its last character is the rank of
      the pile it names, and a text that is no rank raises. */
  lemma DestinationParse(card: Option<string>)
    ensures GetCardDestination(card).Pile? ==>
              |card.value| >= 1 && card.value[..|card.value| - 1] == Ranks[GetCardDestination(card).n - 1]
    ensures GetCardDestination(card) == RankNotFound ==> card.value[..|card.value| - 1] !in Ranks
  {
    if !(NotHeld(card) || card.value == Back) {
      IndexOfFirst(Ranks, card.value[..|card.value| - 1]);
    }
  }

  /** A card the destination rule sends to a pile. */
  predicate IsCard(c: string)
  {
    GetCardDestination(Some(c)).Pile?
  }

  /** Every card of the deck goes to the pile of its rank: value index v goes to pile v + 1. */
  lemma DestinationOfCard(v: nat, s: nat)
    requires v < |Ranks| && s < |Suits|
    ensures GetCardDestination(Some(CardName(v, s))) == Pile(v + 1)
  {
    var c := CardName(v, s);
    assert |Suits[s]| == 1;
    assert c[..|c| - 1] == Ranks[v];
    assert c != Back by {
      if |c| == |Back| { assert |Ranks[v]| == 3; }
    }
    RanksDistinct();
    IndexOfFirst(Ranks, Ranks[v]);
    var r := IndexOf(Ranks, Ranks[v]);
    assert Ranks[v] in Ranks;
    assert Ranks[r.value][0] == Ranks[v][0];
  }

  /** Every card of the deck is one the destination rule sends to a pile. */
  lemma FullDeckCards()
    ensures |FullDeck()| == 52
    ensures forall i :: 0 <= i < 52 ==> IsCard(FullDeck()[i])
  {
    FullDeckIndexed();
    forall i | 0 <= i < 52
      ensures IsCard(FullDeck()[i])
    {
      DestinationOfCard(i / 4, i % 4);
    }
  }

  /** A card that the rule sends to pile p starts with the rank text of pile p. */
  lemma DestinationPrefix(c: string, p: int)
    requires GetCardDestination(Some(c)) == Pile(p)
    ensures StartsWith(c, Ranks[p - 1])
  {
    DestinationParse(Some(c));
    assert c[..|Ranks[p - 1]|] == c[..|c| - 1][..|Ranks[p - 1]|];
  }

  /** The King test of the status check (`startswith('K')`) picks out exactly the cards of
      pile 13, among the cards the rule sends to some pile. */
  lemma KingOnlyOnPile13(c: string, p: int)
    requires GetCardDestination(Some(c)) == Pile(p)
    ensures StartsWith(c, "K") <==> p == 13
  {
    RanksDistinct();
    DestinationPrefix(c, p);
    assert c[0] == Ranks[p - 1][0];
    assert Ranks[12][0] == 'K';
    if p == 13 {
      assert c[..1] == [c[0]];
    }
  }
}
