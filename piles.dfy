/** The thirteen piles: the round-robin deal that fills them, and the counts over them
    (cards left face down, cards of one rank left face down) that the rules reason about.
    Piles are a map from pile number to a list of face-down cards, front first. */
module Piles {
  import opened Cards

  /** A map keyed by exactly the pile numbers 1..13, the hours of the clock. */
  ghost predicate OnEveryHour<V>(m: map<int, V>)
  {
    forall p :: p in m <==> 1 <= p <= 13
  }

  /** The cards that dealing `deck` round robin puts on pile p, in the order they arrive:
      card i of the deck goes to pile (i % 13) + 1. */
  function Column(deck: seq<string>, p: int): seq<string>
  {
    if deck == [] then []
    else
      var n := |deck| - 1;
      Column(deck[..n], p) + (if n % 13 + 1 == p then [deck[n]] else [])
  }

  /** The whole deal: pile p receives Column(deck, p). */
  function Deal(deck: seq<string>): (piles: map<int, seq<string>>)
    ensures OnEveryHour(piles)
  {
    map p | 1 <= p <= 13 :: Column(deck, p)
  }

  /** If q indices of the form p - 1 + 13 k lie below n and the next one does not, then n is
      the next one exactly when n lands on pile p. */
  lemma NextIndexOnPile(n: nat, p: int, q: nat)
    requires 1 <= p <= 13
    requires p - 1 + 13 * q >= n
    requires q > 0 ==> p - 1 + 13 * (q - 1) < n
    ensures n % 13 + 1 == p ==> p - 1 + 13 * q == n
    ensures n % 13 + 1 != p ==> p - 1 + 13 * q > n
  {
    assert n == 13 * (n / 13) + n % 13;
    if n % 13 + 1 == p {
      assert n / 13 == q;
    } else {
      assert (p - 1 + 13 * q) % 13 == p - 1;
    }
  }

  /** Pile p gets every 13th card starting with card p - 1, and all of them: the next index of
      that kind is past the end of the deck. */
  lemma {:induction false} ColumnAt(deck: seq<string>, p: int)
    requires 1 <= p <= 13
    ensures p - 1 + 13 * |Column(deck, p)| >= |deck|
    ensures forall k :: 0 <= k < |Column(deck, p)| ==>
              p - 1 + 13 * k < |deck| && Column(deck, p)[k] == deck[p - 1 + 13 * k]
  {
    if deck != [] {
      var n := |deck| - 1;
      var init := deck[..n];
      ColumnAt(init, p);
      var q := |Column(init, p)|;
      if q > 0 {
        assert Column(init, p)[q - 1] == init[p - 1 + 13 * (q - 1)];
      }
      NextIndexOnPile(n, p, q);
      var added := if n % 13 + 1 == p then [deck[n]] else [];
      assert Column(deck, p) == Column(init, p) + added;
      forall k | 0 <= k < |Column(deck, p)|
        ensures p - 1 + 13 * k < |deck| && Column(deck, p)[k] == deck[p - 1 + 13 * k]
      {
        if k < q {
          assert Column(deck, p)[k] == Column(init, p)[k] == init[p - 1 + 13 * k];
        } else {
          assert Column(deck, p)[k] == added[0] == deck[n];
        }
      }
    }
  }

  /** A full deck of 52 cards gives every pile four cards: card p - 1 + 13 k is its k-th. */
  lemma DealOf52(deck: seq<string>, p: int)
    requires |deck| == 52 && 1 <= p <= 13
    ensures |Deal(deck)[p]| == 4
    ensures forall k :: 0 <= k < 4 ==> Deal(deck)[p][k] == deck[p - 1 + 13 * k]
  {
    ColumnAt(deck, p);
    var c := |Deal(deck)[p]|;
    assert c >= 4;
    assert p - 1 + 13 * (c - 1) < 52;
  }

  /** Card i of a 52-card deck is card i / 13 of pile (i % 13) + 1. */
  lemma DealPlacesCard(deck: seq<string>, i: int)
    requires |deck| == 52 && 0 <= i < 52
    ensures i / 13 < 4 == |Deal(deck)[i % 13 + 1]|
    ensures Deal(deck)[i % 13 + 1][i / 13] == deck[i]
  {
    DealOf52(deck, i % 13 + 1);
    assert i == i % 13 + 13 * (i / 13);
  }

  /** The number of cards in `cards` that the destination rule sends to pile p. */
  function CountRank(p: int, cards: seq<string>): nat
  {
    if cards == [] then 0
    else (if GetCardDestination(Some(cards[0])) == Pile(p) then 1 else 0) + CountRank(p, cards[1..])
  }

  lemma {:induction false} CountRankAppend(p: int, a: seq<string>, b: seq<string>)
    ensures CountRank(p, a + b) == CountRank(p, a) + CountRank(p, b)
  {
    if a != [] {
      assert (a + b)[0] == a[0] && (a + b)[1..] == a[1..] + b;
      CountRankAppend(p, a[1..], b);
    } else {
      assert a + b == b;
    }
  }

  /** A sequence with the same elements as a non-empty a holds a[0] at some position i, and
      without it holds the same elements as a[1..]. */
  lemma RemoveFirst(a: seq<string>, b: seq<string>) returns (i: nat)
    requires multiset(a) == multiset(b) && a != []
    ensures i < |b| && b[i] == a[0]
    ensures multiset(a[1..]) == multiset(b[..i] + b[i + 1..])
  {
    var x := a[0];
    assert x in multiset(b);
    i :| 0 <= i < |b| && b[i] == x;
    assert b == b[..i] + [x] + b[i + 1..];
    assert a == [x] + a[1..];
    assert multiset(b) == multiset(b[..i]) + multiset{x} + multiset(b[i + 1..]);
    assert multiset(a[1..]) == multiset(a) - multiset{x};
  }

  /** Taking card i out of b lowers its count by that card's share. */
  lemma CountRankRemove(p: int, b: seq<string>, i: nat)
    requires i < |b|
    ensures CountRank(p, b) == CountRank(p, [b[i]]) + CountRank(p, b[..i] + b[i + 1..])
  {
    assert b == b[..i] + [b[i]] + b[i + 1..];
    CountRankAppend(p, b[..i] + [b[i]], b[i + 1..]);
    CountRankAppend(p, b[..i], [b[i]]);
    CountRankAppend(p, b[..i], b[i + 1..]);
  }

  /** The count of a rank depends only on which cards there are, not on their order: a
      shuffled deck holds as many cards of each rank as the deck it came from. */
  lemma {:induction false} CountRankPermutation(p: int, a: seq<string>, b: seq<string>)
    requires multiset(a) == multiset(b)
    ensures CountRank(p, a) == CountRank(p, b)
    decreases |a|
  {
    if a == [] {
      assert |b| == |multiset(b)| == 0;
    } else {
      var i := RemoveFirst(a, b);
      CountRankPermutation(p, a[1..], b[..i] + b[i + 1..]);
      CountRankRemove(p, b, i);
      assert a == [a[0]] + a[1..];
      CountRankAppend(p, [a[0]], a[1..]);
    }
  }

  /** Cards that all go to pile q: the count of rank p is all of them or none. */
  lemma {:induction false} CountRankUniform(p: int, q: int, cards: seq<string>)
    requires forall i :: 0 <= i < |cards| ==> GetCardDestination(Some(cards[i])) == Pile(q)
    ensures CountRank(p, cards) == if p == q then |cards| else 0
  {
    if cards != [] {
      CountRankUniform(p, q, cards[1..]);
    }
  }

  lemma {:induction false} DeckFromRankCount(p: int, v: nat)
    requires 1 <= p <= 13 && v <= |Ranks|
    ensures CountRank(p, DeckFrom(v)) == if v < p then 4 else 0
    decreases |Ranks| - v
  {
    if v < |Ranks| {
      var block := Block(v);
      forall i | 0 <= i < |block|
        ensures GetCardDestination(Some(block[i])) == Pile(v + 1)
      {
        DestinationOfCard(v, i);
      }
      CountRankUniform(p, v + 1, block);
      DeckFromRankCount(p, v + 1);
      CountRankAppend(p, block, DeckFrom(v + 1));
    }
  }

  /** The deck holds four cards of every rank, so four cards for every pile. */
  lemma FullDeckRankCount(p: int)
    requires 1 <= p <= 13
    ensures CountRank(p, FullDeck()) == 4
  {
    DeckFromRankCount(p, 0);
  }

  /** The number of face-down cards on piles 1..n. */
  function TotalHidden(piles: map<int, seq<string>>, n: int): nat
  {
    if n <= 0 then 0
    else TotalHidden(piles, n - 1) + (if n in piles then |piles[n]| else 0)
  }

  /** The number of face-down cards of rank p on piles 1..n. */
  function HiddenOfRank(p: int, piles: map<int, seq<string>>, n: int): nat
  {
    if n <= 0 then 0
    else HiddenOfRank(p, piles, n - 1) + (if n in piles then CountRank(p, piles[n]) else 0)
  }

  /** Replacing pile q changes the face-down total by the difference of the two piles. */
  lemma {:induction false} TotalHiddenUpdate(piles: map<int, seq<string>>, q: int, cards: seq<string>, n: int)
    requires q in piles
    ensures TotalHidden(piles[q := cards], n)
         == TotalHidden(piles, n) + (if 1 <= q <= n then |cards| - |piles[q]| else 0)
  {
    if n > 0 {
      TotalHiddenUpdate(piles, q, cards, n - 1);
    }
  }

  lemma {:induction false} HiddenOfRankUpdate(p: int, piles: map<int, seq<string>>, q: int, cards: seq<string>, n: int)
    requires q in piles
    ensures HiddenOfRank(p, piles[q := cards], n)
         == HiddenOfRank(p, piles, n) + (if 1 <= q <= n then CountRank(p, cards) - CountRank(p, piles[q]) else 0)
  {
    if n > 0 {
      HiddenOfRankUpdate(p, piles, q, cards, n - 1);
    }
  }

  /** Dealing one more card appends it to pile (n % 13) + 1, n the number of cards dealt
      before it, and leaves the other piles alone. */
  lemma DealAppend(dealt: seq<string>, card: string)
    ensures var q := |dealt| % 13 + 1;
            Deal(dealt + [card]) == Deal(dealt)[q := Deal(dealt)[q] + [card]]
  {
    var q := |dealt| % 13 + 1;
    var after := Deal(dealt)[q := Deal(dealt)[q] + [card]];
    assert (dealt + [card])[..|dealt|] == dealt;
    forall r | 1 <= r <= 13
      ensures Deal(dealt + [card])[r] == after[r]
    {
    }
    assert Deal(dealt + [card]).Keys == after.Keys;
  }

  /** Dealing loses no card and adds none: the piles together hold as many cards of each rank
      as the deck. */
  lemma {:induction false} HiddenOfRankDeal(p: int, deck: seq<string>)
    ensures HiddenOfRank(p, Deal(deck), 13) == CountRank(p, deck)
  {
    if deck == [] {
      EmptyPilesHideNothing(p, Deal(deck), 13);
    } else {
      var n := |deck| - 1;
      var init := deck[..n];
      var q := n % 13 + 1;
      assert deck == init + [deck[n]];
      DealAppend(init, deck[n]);
      HiddenOfRankDeal(p, init);
      HiddenOfRankUpdate(p, Deal(init), q, Deal(init)[q] + [deck[n]], 13);
      CountRankAppend(p, Deal(init)[q], [deck[n]]);
      CountRankAppend(p, init, [deck[n]]);
    }
  }

  lemma {:induction false} EmptyPilesHideNothing(p: int, piles: map<int, seq<string>>, n: int)
    requires forall q :: q in piles ==> piles[q] == []
    ensures HiddenOfRank(p, piles, n) == 0
  {
    if n > 0 {
      EmptyPilesHideNothing(p, piles, n - 1);
    }
  }

  /** The number of face-down copies of card c on piles 1..n. */
  function HiddenCopies(c: string, piles: map<int, seq<string>>, n: int): nat
  {
    if n <= 0 then 0
    else HiddenCopies(c, piles, n - 1) + (if n in piles then multiset(piles[n])[c] else 0)
  }

  /** Replacing pile q changes the face-down copies of each card by that pile's difference. */
  lemma {:induction false} HiddenCopiesUpdate(c: string, piles: map<int, seq<string>>, q: int, cards: seq<string>, n: int)
    requires q in piles
    ensures HiddenCopies(c, piles[q := cards], n) + (if 1 <= q <= n then multiset(piles[q])[c] else 0)
         == HiddenCopies(c, piles, n) + (if 1 <= q <= n then multiset(cards)[c] else 0)
  {
    if n > 0 {
      HiddenCopiesUpdate(c, piles, q, cards, n - 1);
    }
  }

  /** The dealt piles together hold exactly the cards of the deck, each as often as the deck. */
  lemma {:induction false} HiddenCopiesDeal(c: string, deck: seq<string>)
    ensures HiddenCopies(c, Deal(deck), 13) == multiset(deck)[c]
  {
    if deck == [] {
      EmptyPilesHideNoCopies(c, Deal(deck), 13);
    } else {
      var n := |deck| - 1;
      var init := deck[..n];
      var q := n % 13 + 1;
      var pile := Deal(init)[q];
      assert deck == init + [deck[n]];
      assert multiset(pile + [deck[n]]) == multiset(pile) + multiset{deck[n]};
      DealAppend(init, deck[n]);
      HiddenCopiesDeal(c, init);
      HiddenCopiesUpdate(c, Deal(init), q, pile + [deck[n]], 13);
    }
  }

  lemma {:induction false} EmptyPilesHideNoCopies(c: string, piles: map<int, seq<string>>, n: int)
    requires forall q :: q in piles ==> piles[q] == []
    ensures HiddenCopies(c, piles, n) == 0
  {
    if n > 0 {
      EmptyPilesHideNoCopies(c, piles, n - 1);
    }
  }

  /** Piles 1..n of four cards each hold 4 n cards. */
  lemma {:induction false} TotalHiddenOfFours(piles: map<int, seq<string>>, n: int)
    requires 0 <= n <= 13
    requires forall q :: 1 <= q <= n ==> q in piles && |piles[q]| == 4
    ensures TotalHidden(piles, n) == 4 * n
  {
    if n > 0 {
      TotalHiddenOfFours(piles, n - 1);
    }
  }
}
