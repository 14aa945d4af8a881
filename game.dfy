/** The round engine (internal/game/game.go): per-player decks, one round of
    selection, comparison, transfer and end check per call. */
module Game {
  import opened Seqs
  import opened Sorting
  import opened Cards

  const NumPlayers: nat := 2

  datatype Option<T> = None | Some(value: T)

  // ----- Winner determination -----

  function Max(s: seq<int>): (m: int)
    requires |s| > 0
    ensures m in s
    ensures forall k :: 0 <= k < |s| ==> s[k] <= m
    decreases |s|
  {
    if |s| == 1 then s[0]
    else
      var t := Max(s[1..]);
      if s[0] >= t then s[0] else t
  }

  /** Two different players share the largest value. */
  predicate IsDraw(values: seq<int>)
  {
    |values| > 0 &&
    exists i, j :: 0 <= i < j < |values| && values[i] == Max(values) && values[j] == Max(values)
  }

  /** Player `w`'s value is strictly larger than every other player's. */
  predicate StrictWinner(values: seq<int>, w: int)
  {
    0 <= w < |values| && forall j :: 0 <= j < |values| && j != w ==> values[j] < values[w]
  }

  /** A round is a draw exactly when no player holds a strict maximum. */
  lemma DrawIffNoStrictWinner(values: seq<int>)
    requires |values| > 0
    ensures IsDraw(values) <==> forall w :: !StrictWinner(values, w)
  {
    var m := Max(values);
    if !IsDraw(values) {
      var w :| 0 <= w < |values| && values[w] == m;
      UniqueMaxIsStrict(values, w);
    }
  }

  /** Outside a draw, the player holding the maximum holds it strictly. */
  lemma UniqueMaxIsStrict(values: seq<int>, w: int)
    requires 0 <= w < |values| && values[w] == Max(values) && !IsDraw(values)
    ensures StrictWinner(values, w)
  {
  }

  /** The last element of the sorted copy is the maximum. */
  lemma SortedLastIsMax(values: seq<int>)
    requires |values| > 0
    ensures Sort(values)[|values| - 1] == Max(values)
  {
    SortedPermutationLastIsMax(Sort(values), values);
  }

  lemma SortedPermutationLastIsMax(r: seq<int>, values: seq<int>)
    requires |values| > 0 && |r| == |values|
    requires IsSorted(r) && multiset(r) == multiset(values)
    ensures r[|r| - 1] == Max(values)
  {
    var m := Max(values);
    var last := |r| - 1;
    assert r[last] in multiset(r);
    assert r[last] in values;
    var i :| 0 <= i < |values| && values[i] == r[last];
    assert m in multiset(values);
    assert m in r;
    var k :| 0 <= k < |r| && r[k] == m;
    assert k == last || r[k] <= r[last];
  }

  /** Sorting a copy and comparing its two last elements decides the round:
      the last is the maximum, and it equals the one before exactly on a
      draw. */
  lemma SortedTopTwo(values: seq<int>)
    requires |values| >= 2
    ensures var r := Sort(values);
            && r[|r| - 1] == Max(values)
            && (r[|r| - 1] == r[|r| - 2] <==> IsDraw(values))
  {
    var r := Sort(values);
    SortedPermutationLastIsMax(r, values);
    SortedPermutationTopTwo(r, values);
  }

  lemma SortedPermutationTopTwo(r: seq<int>, values: seq<int>)
    requires |values| >= 2 && |r| == |values| && multiset(r) == multiset(values)
    requires IsSorted(r) && r[|r| - 1] == Max(values)
    ensures r[|r| - 1] == r[|r| - 2] <==> IsDraw(values)
  {
    if r[|r| - 1] == r[|r| - 2] {
      TopTwoEqualIsDraw(r, values);
    }
    if IsDraw(values) {
      DrawMakesTopTwoEqual(r, values);
    }
  }

  lemma TopTwoEqualIsDraw(r: seq<int>, values: seq<int>)
    requires |values| >= 2 && |r| == |values| && multiset(r) == multiset(values)
    requires r[|r| - 1] == Max(values) && r[|r| - 1] == r[|r| - 2]
    ensures IsDraw(values)
  {
    var m := Max(values);
    TwoOccurrences(r, m);
    assert multiset(values)[m] >= 2;
    TwoOccurrences(values, m);
    var i, j :| 0 <= i < j < |values| && values[i] == m && values[j] == m;
  }

  lemma DrawMakesTopTwoEqual(r: seq<int>, values: seq<int>)
    requires |values| >= 2 && |r| == |values| && multiset(r) == multiset(values)
    requires IsSorted(r) && r[|r| - 1] == Max(values) && IsDraw(values)
    ensures r[|r| - 1] == r[|r| - 2]
  {
    var m := Max(values);
    var i, j :| 0 <= i < j < |values| && values[i] == m && values[j] == m;
    TwoOccurrences(values, m);
    assert multiset(r)[m] >= 2;
    SortedRepeatAtTop(r, m);
  }

  /** In a sorted sequence whose last element occurs twice, the element
      before the last equals it. */
  lemma SortedRepeatAtTop(r: seq<int>, m: int)
    requires IsSorted(r) && |r| >= 2 && r[|r| - 1] == m && multiset(r)[m] >= 2
    ensures r[|r| - 2] == m
  {
    TwoOccurrences(r, m);
    var i, j :| 0 <= i < j < |r| && r[i] == m && r[j] == m;
    assert r[i] <= r[|r| - 2];
  }

  // ----- Card transfer -----

  /** Every recorded index lies in its player's deck. */
  predicate ValidSelection(d: seq<seq<Card>>, idx: seq<int>)
  {
    |idx| == |d| && forall p :: 0 <= p < |d| ==> 0 <= idx[p] < |d[p]|
  }

  /** The cards selected by the players before `k` other than `w`, in player
      order. */
  function LosersCards(d: seq<seq<Card>>, idx: seq<int>, w: int, k: nat): (r: seq<Card>)
    requires ValidSelection(d, idx) && k <= |d|
    ensures |r| == if 0 <= w < k then k - 1 else k
    decreases k
  {
    if k == 0 then []
    else LosersCards(d, idx, w, k - 1) + (if k - 1 == w then [] else [d[k - 1][idx[k - 1]]])
  }

  /** The `j`-th card the winner receives is the selection of the `j`-th
      player other than the winner. */
  lemma {:induction false} LosersCardsAt(d: seq<seq<Card>>, idx: seq<int>, w: int, k: nat, j: int)
    requires ValidSelection(d, idx) && k <= |d| && 0 <= w < |d|
    requires 0 <= j < |LosersCards(d, idx, w, k)|
    ensures var q := if j < w then j else j + 1;
            q < k && q != w && LosersCards(d, idx, w, k)[j] == d[q][idx[q]]
    decreases k
  {
    var prev := LosersCards(d, idx, w, k - 1);
    if j < |prev| {
      LosersCardsAt(d, idx, w, k - 1, j);
    }
  }

  /** The decks after winner `w` takes every other player's selected card:
      each loser's deck loses its selected card, the winner's deck gains
      them at its end in player order. */
  function AfterTransfer(d: seq<seq<Card>>, idx: seq<int>, w: int): (r: seq<seq<Card>>)
    requires ValidSelection(d, idx) && 0 <= w < |d|
    ensures |r| == |d|
  {
    seq(|d|, p requires 0 <= p < |d| =>
      if p == w then d[w] + LosersCards(d, idx, w, |d|) else RemoveAt(d[p], idx[p]))
  }

  /** The decks part way through the transfer loop: players before `k` other
      than the winner have given up their card, the winner holds theirs. */
  function PartialTransfer(d: seq<seq<Card>>, idx: seq<int>, w: int, k: nat): (r: seq<seq<Card>>)
    requires ValidSelection(d, idx) && 0 <= w < |d| && k <= |d|
    ensures |r| == |d|
  {
    seq(|d|, p requires 0 <= p < |d| =>
      if p == w then d[w] + LosersCards(d, idx, w, k)
      else if p < k then RemoveAt(d[p], idx[p]) else d[p])
  }

  /** One step of the transfer loop for a loser `k`. */
  lemma PartialTransferStep(d: seq<seq<Card>>, idx: seq<int>, w: int, k: nat)
    requires ValidSelection(d, idx) && 0 <= w < |d| && k < |d| && k != w
    ensures var s := PartialTransfer(d, idx, w, k);
            PartialTransfer(d, idx, w, k + 1) ==
            s[w := s[w] + [d[k][idx[k]]]][k := s[k][..idx[k]] + s[k][idx[k] + 1..]]
  {
    var s, a := PartialTransfer(d, idx, w, k), PartialTransfer(d, idx, w, k + 1);
    var b := s[w := s[w] + [d[k][idx[k]]]][k := s[k][..idx[k]] + s[k][idx[k] + 1..]];
    assert a[w] == s[w] + [d[k][idx[k]]];
    assert forall p :: 0 <= p < |d| ==> a[p] == b[p];
  }

  /** The winner's own turn in the transfer loop changes nothing. */
  lemma PartialTransferSkip(d: seq<seq<Card>>, idx: seq<int>, w: int)
    requires ValidSelection(d, idx) && 0 <= w < |d|
    ensures PartialTransfer(d, idx, w, w + 1) == PartialTransfer(d, idx, w, w)
  {
    assert LosersCards(d, idx, w, w + 1) == LosersCards(d, idx, w, w) + [];
    var a, b := PartialTransfer(d, idx, w, w + 1), PartialTransfer(d, idx, w, w);
    assert forall p :: 0 <= p < |d| ==> a[p] == b[p];
  }

  lemma PartialTransferDone(d: seq<seq<Card>>, idx: seq<int>, w: int)
    requires ValidSelection(d, idx) && 0 <= w < |d|
    ensures PartialTransfer(d, idx, w, |d|) == AfterTransfer(d, idx, w)
  {
    var a, b := PartialTransfer(d, idx, w, |d|), AfterTransfer(d, idx, w);
    assert forall p :: 0 <= p < |d| ==> a[p] == b[p];
  }

  lemma PartialTransferStart(d: seq<seq<Card>>, idx: seq<int>, w: int)
    requires ValidSelection(d, idx) && 0 <= w < |d|
    ensures PartialTransfer(d, idx, w, 0) == d
  {
    var a := PartialTransfer(d, idx, w, 0);
    assert a[w] == d[w] + [];
    assert forall p :: 0 <= p < |d| ==> a[p] == d[p];
  }

  /** Size deltas of a won round: the winner gains one card per loser, each
      loser loses exactly its selected card, and the winner's own cards,
      selected one included, stay where they were. */
  lemma TransferShape(d: seq<seq<Card>>, idx: seq<int>, w: int)
    requires ValidSelection(d, idx) && 0 <= w < |d|
    ensures var r := AfterTransfer(d, idx, w);
            && |r[w]| == |d[w]| + |d| - 1
            && r[w][..|d[w]|] == d[w]
            && r[w][idx[w]] == d[w][idx[w]]
            && (forall p :: 0 <= p < |d| && p != w ==> |r[p]| == |d[p]| - 1)
            && (forall p :: 0 <= p < |d| && p != w ==> r[p] == d[p][..idx[p]] + d[p][idx[p] + 1..])
  {
  }

  /** The multiset of all cards held after a transfer, counted over the
      first `k` players, against the same count before it. */
  predicate PrefixBalanced(d: seq<seq<Card>>, idx: seq<int>, w: int, k: nat)
    requires ValidSelection(d, idx) && 0 <= w < |d| && k <= |d|
  {
    var r := AfterTransfer(d, idx, w);
    multiset(Concat(r[..k])) + multiset(LosersCards(d, idx, w, k)) ==
    multiset(Concat(d[..k])) + (if w < k then multiset(LosersCards(d, idx, w, |d|)) else multiset{})
  }

  lemma {:induction false} TransferPrefix(d: seq<seq<Card>>, idx: seq<int>, w: int, k: nat)
    requires ValidSelection(d, idx) && 0 <= w < |d| && k <= |d|
    ensures PrefixBalanced(d, idx, w, k)
    decreases k
  {
    if k == 0 {
      var r := AfterTransfer(d, idx, w);
      assert r[..0] == [] && d[..0] == [];
    } else {
      TransferPrefix(d, idx, w, k - 1);
      TransferPrefixStep(d, idx, w, k);
    }
  }

  lemma TransferPrefixStep(d: seq<seq<Card>>, idx: seq<int>, w: int, k: nat)
    requires ValidSelection(d, idx) && 0 <= w < |d| && 0 < k <= |d|
    requires PrefixBalanced(d, idx, w, k - 1)
    ensures PrefixBalanced(d, idx, w, k)
  {
    var r := AfterTransfer(d, idx, w);
    var p := k - 1;
    ConcatSnoc(r, k);
    ConcatSnoc(d, k);
    var all := multiset(LosersCards(d, idx, w, |d|));
    var gained := if p == w then multiset{} else multiset{d[p][idx[p]]};
    TransferOnePlayer(d, idx, w, p);
    MultisetStep(multiset(Concat(r[..p])), multiset(LosersCards(d, idx, w, p)), multiset(Concat(d[..p])),
                 if w < p then all else multiset{}, multiset(r[p]), gained, multiset(d[p]),
                 if w < k then all else multiset{});
  }

  /** What player `p`'s deck gains or loses in a transfer, as multisets. */
  lemma TransferOnePlayer(d: seq<seq<Card>>, idx: seq<int>, w: int, p: nat)
    requires ValidSelection(d, idx) && 0 <= w < |d| && p < |d|
    ensures var all := multiset(LosersCards(d, idx, w, |d|));
            var gained := if p == w then multiset{} else multiset{d[p][idx[p]]};
            && multiset(LosersCards(d, idx, w, p + 1)) == multiset(LosersCards(d, idx, w, p)) + gained
            && multiset(AfterTransfer(d, idx, w)[p]) + gained + (if w < p then all else multiset{}) ==
               multiset(d[p]) + (if w < p + 1 then all else multiset{})
  {
  }

  /** The bookkeeping of one player in `TransferPrefix`. */
  lemma MultisetStep<T>(a: multiset<T>, l: multiset<T>, b: multiset<T>, before: multiset<T>,
                        x: multiset<T>, gained: multiset<T>, y: multiset<T>, after: multiset<T>)
    requires a + l == b + before
    requires x + gained + before == y + after
    ensures (a + x) + (l + gained) == (b + y) + after
  {
    assert forall e :: ((a + x) + (l + gained))[e] == ((b + y) + after)[e] by {
      forall e ensures ((a + x) + (l + gained))[e] == ((b + y) + after)[e] {
        assert (a + l)[e] == (b + before)[e];
        assert (x + gained + before)[e] == (y + after)[e];
      }
    }
  }

  /** A transfer moves cards between decks and creates or loses none. */
  lemma TransferConserves(d: seq<seq<Card>>, idx: seq<int>, w: int)
    requires ValidSelection(d, idx) && 0 <= w < |d|
    ensures multiset(Concat(AfterTransfer(d, idx, w))) == multiset(Concat(d))
    ensures |Concat(AfterTransfer(d, idx, w))| == |Concat(d)|
  {
    var r := AfterTransfer(d, idx, w);
    TransferPrefix(d, idx, w, |d|);
    assert r[..|d|] == r && d[..|d|] == d;
    MultisetCancel(multiset(Concat(r)), multiset(Concat(d)), multiset(LosersCards(d, idx, w, |d|)));
    assert |multiset(Concat(r))| == |multiset(Concat(d))|;
  }

  lemma MultisetCancel<T>(a: multiset<T>, b: multiset<T>, c: multiset<T>)
    requires a + c == b + c
    ensures a == b
  {
    forall e ensures a[e] == b[e] {
      assert (a + c)[e] == (b + c)[e];
    }
  }

  // ----- End of game -----

  /** Player `x` holds a largest deck, and no earlier player does. */
  predicate MostCards(d: seq<seq<Card>>, x: int)
  {
    0 <= x < |d| &&
    (forall p :: 0 <= p < |d| ==> |d[p]| <= |d[x]|) &&
    (forall p :: 0 <= p < x ==> |d[p]| < |d[x]|)
  }

  datatype EndCheck = Continue | GameOver(emptied: nat, winner: nat)

  // ----- Priority rotation -----

  /** The priority player of the next round. */
  function NextPriority(p: int): (q: int)
    requires 0 <= p < NumPlayers
    ensures 0 <= q < NumPlayers
    ensures q == (p + 1) % NumPlayers
  {
    if p + 1 == NumPlayers then 0 else p + 1
  }

  /** The priority player after `k` rounds that did not end the game. */
  function PriorityAfter(k: nat): (p: int)
    ensures 0 <= p < NumPlayers
  {
    if k == 0 then 0 else NextPriority(PriorityAfter(k - 1))
  }

  /** Priority passes round-robin: after `k` rounds it is player
      `k % NumPlayers`. */
  lemma {:induction false} PriorityRoundRobin(k: nat)
    ensures PriorityAfter(k) == k % NumPlayers
  {
    if k > 0 {
      PriorityRoundRobin(k - 1);
    }
  }

  // ----- One round -----

  /** The attribute values of the selected cards. */
  function RoundValues(d: seq<seq<Card>>, idx: seq<int>, attribute: string): (v: seq<int>)
    requires ValidSelection(d, idx)
    ensures |v| == |d|
  {
    seq(|d|, p requires 0 <= p < |d| => ValueByReadable(d[p][idx[p]], attribute))
  }

  /** The example's cards: X and Y in player 0's deck, Z in player 1's. */
  function ExampleDecks(): (d: seq<seq<Card>>)
    ensures |d| == 2 && |d[0]| == 2 && |d[1]| == 1
  {
    [[Card("X", 0, 0, 500, 0), Card("Y", 0, 0, 100, 0)], [Card("Z", 0, 0, 300, 0)]]
  }

  /** Reading "Range" off X and Z gives 500 and 300. */
  lemma ExampleValues()
    ensures RoundValues(ExampleDecks(), [0, 0], "Range") == [500, 300]
  {
    var d := ExampleDecks();
    var values := RoundValues(d, [0, 0], "Range");
    assert ReadableNames()[2] == "Range";
    ValueOfEachName(d[0][0], 2);
    ValueOfEachName(d[1][0], 2);
    assert values[0] == 500 && values[1] == 300;
  }

  /** Two players, one round on "Range": player 0 plays X (500) from [X, Y],
      player 1 plays Z (300) from [Z]. Player 0 strictly wins, keeps X in
      place and receives Z at the end; player 1 is left with no cards. */
  lemma ExampleRound()
    ensures var d := ExampleDecks();
            var values := RoundValues(d, [0, 0], "Range");
            && values == [500, 300]
            && !IsDraw(values) && StrictWinner(values, 0)
            && AfterTransfer(d, [0, 0], 0) == [[d[0][0], d[0][1], d[1][0]], []]
  {
    ExampleValues();
    var d := ExampleDecks();
    var values := RoundValues(d, [0, 0], "Range");
    assert Max(values) == 500;
    assert LosersCards(d, [0, 0], 0, 2) == [d[1][0]];
    var after := AfterTransfer(d, [0, 0], 0);
    assert after[0] == [d[0][0], d[0][1], d[1][0]];
    assert after[1] == [];
  }

  datatype Round =
    | Draw
    | Won(winner: nat)
    | Over(winner: nat, emptied: nat, champion: nat)

  class Game {
    /** The players' decks. */
    const decks: array<seq<Card>>
    /** Per round: the index each player picked in their deck. */
    const selectedCardIndexes: array<int>
    /** Per round: the card each player picked (a pointer into the deck). */
    const selectedCards: array<Option<Card>>
    /** Per round: the chosen attribute's value on each selected card. */
    const selectedProperties: array<int>
    /** The player who picks the attribute this round. */
    var priority: int

    ghost predicate Valid()
      reads this
    {
      decks.Length == NumPlayers &&
      selectedCardIndexes.Length == NumPlayers &&
      selectedCards.Length == NumPlayers &&
      selectedProperties.Length == NumPlayers &&
      selectedCardIndexes != selectedProperties &&
      0 <= priority < NumPlayers
    }

    /** Every player's recorded index lies in their deck and the recorded card
        is the one at that index. */
    ghost predicate SelectionsValid()
      reads this, decks, selectedCardIndexes, selectedCards
    {
      Valid() &&
      forall p :: 0 <= p < NumPlayers ==>
        0 <= selectedCardIndexes[p] < |decks[p]| &&
        selectedCards[p] == Some(decks[p][selectedCardIndexes[p]])
    }

    /** `New`: the game over the first `NumPlayers` of the given decks. */
    constructor (initial: seq<seq<Card>>)
      requires |initial| >= NumPlayers
      ensures Valid() && fresh(decks) && fresh(selectedCardIndexes)
      ensures fresh(selectedCards) && fresh(selectedProperties)
      ensures decks[..] == initial[..NumPlayers]
      ensures priority == 0
    {
      decks := new seq<Card>[NumPlayers];
      selectedCardIndexes := new int[NumPlayers];
      selectedCards := new Option<Card>[NumPlayers](_ => None);
      selectedProperties := new int[NumPlayers];
      priority := 0;
      new;
      for i := 0 to NumPlayers
        invariant priority == 0
        invariant forall p :: 0 <= p < i ==> decks[p] == initial[p]
      {
        decks[i] := initial[i];
      }
    }

    /** Record each player's pick; `choices[p]` is what the menu returned to
        player `p`, always an index into their deck. */
    method SelectCards(choices: seq<int>)
      requires Valid()
      requires |choices| == NumPlayers && ValidSelection(decks[..], choices)
      modifies selectedCardIndexes, selectedCards
      ensures SelectionsValid()
      ensures selectedCardIndexes[..] == choices
    {
      forall p | 0 <= p < NumPlayers {
        selectedCards[p] := None;
      }
      for playerIndex := 0 to NumPlayers
        invariant forall p :: 0 <= p < playerIndex ==>
          selectedCardIndexes[p] == choices[p] && selectedCards[p] == Some(decks[p][choices[p]])
      {
        selectedCardIndexes[playerIndex] := choices[playerIndex];
        selectedCards[playerIndex] := Some(decks[playerIndex][choices[playerIndex]]);
      }
    }

    /** Read the chosen attribute off every selected card. The untagged
        `Name` field matches the empty name and is not an integer, so the
        empty name is excluded. */
    method GatherValues(attribute: string)
      requires SelectionsValid() && attribute != ""
      modifies selectedProperties
      ensures SelectionsValid()
      ensures selectedProperties[..] == RoundValues(decks[..], selectedCardIndexes[..], attribute)
    {
      ghost var values := RoundValues(decks[..], selectedCardIndexes[..], attribute);
      for playerIndex := 0 to NumPlayers
        invariant forall p :: 0 <= p < playerIndex ==> selectedProperties[p] == values[p]
      {
        var card := selectedCards[playerIndex].value;
        assert card == decks[playerIndex][selectedCardIndexes[playerIndex]];
        selectedProperties[playerIndex] := ValueByReadable(card, attribute);
      }
      assert selectedProperties[..] == values;
    }

    /** The round's winner, or -1 on a draw. */
    method ResolveWinner() returns (w: int)
      requires Valid()
      ensures w == -1 <==> IsDraw(selectedProperties[..])
      ensures w != -1 ==> StrictWinner(selectedProperties[..], w)
    {
      var values := selectedProperties[..];
      var sorted := Sort(values);
      var lastIndex := |sorted| - 1;
      SortedTopTwo(values);
      if sorted[lastIndex] == sorted[lastIndex - 1] {
        w := -1;
      } else {
        var i := 0;
        while sorted[lastIndex] != selectedProperties[i]
          invariant 0 <= i < NumPlayers
          invariant exists j :: i <= j < NumPlayers && values[j] == Max(values)
          decreases NumPlayers - i
        {
          i := i + 1;
        }
        w := i;
        UniqueMaxIsStrict(values, w);
      }
    }

    /** Give the winner every other player's selected card. */
    method Transfer(w: int)
      requires SelectionsValid() && 0 <= w < NumPlayers
      modifies decks
      ensures decks[..] == AfterTransfer(old(decks[..]), selectedCardIndexes[..], w)
    {
      ghost var d := decks[..];
      ghost var idx := selectedCardIndexes[..];
      assert ValidSelection(d, idx);
      PartialTransferStart(d, idx, w);
      for i := 0 to NumPlayers
        invariant decks[..] == PartialTransfer(d, idx, w, i)
      {
        if i != w {
          PartialTransferStep(d, idx, w, i);
          var card := selectedCards[i].value;
          var at := selectedCardIndexes[i];
          assert card == d[i][idx[i]] && at == idx[i];
          ghost var before := decks[..];
          decks[w] := decks[w] + [card];
          decks[i] := decks[i][..at] + decks[i][at + 1..];
          assert decks[..] == before[w := before[w] + [card]][i := before[i][..at] + before[i][at + 1..]];
        } else {
          PartialTransferSkip(d, idx, w);
        }
      }
      PartialTransferDone(d, idx, w);
    }

    /** The player with the most cards: the first to hold the largest deck,
        player 0 when every deck is empty. */
    method PlayerWithMostCards() returns (x: int)
      requires Valid()
      ensures MostCards(decks[..], x)
    {
      x := 0;
      var highestCardCount := 0;
      for p := 0 to NumPlayers
        invariant 0 <= x < NumPlayers && x <= p
        invariant p == 0 ==> x == 0 && highestCardCount == 0
        invariant p > 0 ==> highestCardCount == |decks[x]|
        invariant forall q :: 0 <= q < p ==> |decks[q]| <= highestCardCount
        invariant forall q :: 0 <= q < x ==> |decks[q]| < highestCardCount
      {
        if |decks[p]| > highestCardCount {
          highestCardCount := |decks[p]|;
          x := p;
        }
      }
    }

    /** After a transfer: the game is over exactly when some deck is empty. */
    method CheckEnd() returns (e: EndCheck)
      requires Valid()
      ensures e.GameOver? <==> exists p :: 0 <= p < NumPlayers && |decks[p]| == 0
      ensures e.GameOver? ==>
        && e.emptied < NumPlayers && |decks[e.emptied]| == 0
        && (forall p :: 0 <= p < e.emptied ==> |decks[p]| > 0)
        && MostCards(decks[..], e.winner)
    {
      for i := 0 to NumPlayers
        invariant forall p :: 0 <= p < i ==> |decks[p]| > 0
      {
        if |decks[i]| == 0 {
          var x := PlayerWithMostCards();
          return GameOver(i, x);
        }
      }
      return Continue;
    }

    /** Pass priority to the next player, wrapping at `NumPlayers`. */
    method RotatePriority()
      requires Valid()
      modifies this`priority
      ensures Valid()
      ensures priority == NextPriority(old(priority))
    {
      priority := priority + 1;
      if priority == NumPlayers {
        priority := 0;
      }
    }

    /** One iteration of `Run`'s loop: `choices` are the players' card picks
        and `attribute` the priority player's pick from `ReadableNames()`. */
    method PlayRound(choices: seq<int>, attribute: string) returns (r: Round)
      requires Valid()
      requires |choices| == NumPlayers && ValidSelection(decks[..], choices)
      requires attribute in ReadableNames()
      modifies decks, selectedCardIndexes, selectedCards, selectedProperties, this`priority
      ensures Valid()
      ensures selectedCardIndexes[..] == choices
      ensures selectedProperties[..] == RoundValues(old(decks[..]), choices, attribute)
      ensures r.Draw? <==> IsDraw(selectedProperties[..])
      ensures r.Draw? ==> decks[..] == old(decks[..])
      ensures !r.Draw? ==>
        && StrictWinner(selectedProperties[..], r.winner)
        && decks[..] == AfterTransfer(old(decks[..]), choices, r.winner)
      ensures r.Over? <==> !r.Draw? && exists p :: 0 <= p < NumPlayers && |decks[p]| == 0
      ensures r.Over? ==>
        && r.emptied < NumPlayers && |decks[r.emptied]| == 0
        && (forall p :: 0 <= p < r.emptied ==> |decks[p]| > 0)
        && MostCards(decks[..], r.champion)
      ensures r.Over? ==> priority == old(priority)
      ensures !r.Over? ==> priority == NextPriority(old(priority))
    {
      SelectCards(choices);
      GatherValues(attribute);
      var winningPlayerNumber := ResolveWinner();
      if winningPlayerNumber == -1 {
        RotatePriority();
        return Draw;
      }
      Transfer(winningPlayerNumber);
      var e := CheckEnd();
      if e.GameOver? {
        return Over(winningPlayerNumber, e.emptied, e.winner);
      }
      RotatePriority();
      return Won(winningPlayerNumber);
    }
  }
}
