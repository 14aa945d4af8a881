# cs-toptrumps: deck partitioner and round engine

A Dafny model of the two pieces of logic in the cs-toptrumps console game:

- **The deck partitioner** (`internal/cards/cards.go`). `SplitCards(n)` lowers the pool size to a multiple of `n` and deals `n` equal decks. Each deck comes from `Deal(k)`, which draws `k` cards at random and splices each one out of the shared pool of available cards.
- **The attribute table** behind `GetReadableNames` and `GetValueByReadable`. In the source this is reflection over struct tags; here it is four (name, field) pairs in field order.
- **The round engine** (`internal/game/game.go`). A `Game` holds one deck per player (`NumPlayers == 2`). Each iteration of `Run`'s loop does five things:
  - records each player's card pick;
  - reads the chosen attribute off the picked cards;
  - settles the round by sorting a copy of the values and comparing the top two;
  - hands every loser's picked card to the winner;
  - ends the game when a deck is empty, or else passes priority to the next player.

Files:

- `seqs.dfy` (module `Seqs`): splicing one element out of a sequence, concatenation of decks, and the sub-sequence order.
- `sorting.dfy` (module `Sorting`): `sort.Ints` as a sorted permutation.
- `cards.dfy` (module `Cards`): cards, the attribute table, and the pool as a class `Pool` with `Deal` and `SplitCards`.
  - These methods are proved against the functions `Dealt`, `Split` and `Partitioned`.
- `game.dfy` (module `Game`): the class `Game`, with the round split into methods.
  - `PlayRound` composes them as one iteration of `Run`'s loop.
  - The methods are proved against `AfterTransfer`, `IsDraw`, `StrictWinner`, `MostCards` and `NextPriority`.

Behaviours of the code worth noting:

- The winner's own selected card stays in its deck. After the example round of `Game.ExampleRound`, player 0 holds [X, Y, Z] and player 1 holds nothing.
- `Deal` splices each drawn card out of the pool, so the cards left in the pool keep their order (`Cards.DealtKeepsOrder`).
- Priority does not rotate on the round that ends the game (`Game.Game.PlayRound`).

## Model

| member | source | states |
|---|---|---|
| Seqs.RemoveAt | internal/cards/cards.go:95 | Splicing index `i` out keeps every element before `i`, shifts every later one down by one, and removes exactly one copy of `s[i]` |
| Seqs.RemoveAtIsSubseq | internal/game/game.go:141 | What is left after a splice is a sub-sequence of the original: the other cards keep their relative order |
| Cards.ReadableNames | internal/cards/cards.go:28-46 | The readable names are exactly "Number of engines", "Maximum passenger count", "Range", "Cost when new", in field order, without `Name` |
| Cards.NamesOf | internal/cards/cards.go:38-44 | The scan yields one name per tagged field, the `i`-th being the tag of the `i`-th field |
| Cards.LookupInFindsFirst | internal/cards/cards.go:53-60 | `LookupIn`, the field scan of `GetValueByReadable`, returns the value of the first field whose tag is the name |
| Cards.LookupInMissing | internal/cards/cards.go:53-63 | `LookupIn` returns 0 when no field's tag is the name |
| Cards.ValueOfEachName | internal/cards/cards.go:51-60 | `ValueByReadable`, the model of `GetValueByReadable`, returns for the `i`-th readable name the integer field that name tags |
| Cards.UnknownNameIsZero | internal/cards/cards.go:51-64 | `ValueByReadable` returns 0 for a name that is not a readable name |
| Cards.Dealt | internal/cards/cards.go:91-97 | `k` valid draws give a deck of `k` cards and leave the pool `k` cards smaller |
| Cards.DealtConserves | internal/cards/cards.go:93-95 | The old pool is, as a multiset, the dealt deck plus the new pool: no card is dealt twice, lost or created |
| Cards.DealtKeepsOrder | internal/cards/cards.go:95 | The cards left in the pool keep their original relative order |
| Cards.Pool.Deal | internal/cards/cards.go:91-100 | The loop returns the cards the draws pick, in draw order, and leaves the rest of the pool as `Dealt` says; a negative `k` deals nothing |
| Cards.Split | internal/cards/cards.go:123-125 | `count` consecutive deals from one stream give exactly `count` decks |
| Cards.SplitShape | internal/cards/cards.go:123-125 | `count` deals of `per` cards give `count` decks of `per` cards each and leave `per * count` fewer cards in the pool |
| Cards.SplitConserves | internal/cards/cards.go:123-125 | The decks laid end to end, plus what is left, are the old pool as a multiset |
| Cards.Pool.DealDecks | internal/cards/cards.go:123-125 | The dealing loop produces the decks and the remaining pool that `Split` describes |
| Cards.UsableCount | internal/cards/cards.go:117-119 | The loop stops at a multiple of `n` not above the pool size, with no multiple of `n` between it and the pool size; that is `size - size % n` |
| Cards.UsableIsMultiple | internal/cards/cards.go:117-121 | `size - size % n` lies in `[0, size]`, is divisible by `n`, and is `n` times its quotient by `n` |
| Cards.NoMultipleAbove | internal/cards/cards.go:117-119 | No multiple of `n` lies strictly between `size - size % n` and `size` |
| Cards.PerDeckPositive | internal/cards/cards.go:111-121 | When the pool holds at least `n > 0` cards, every deck gets at least one card |
| Cards.Partitioned | internal/cards/cards.go:104-128 | `SplitCards` as a function: a failure reports the pool size and `n`; a success holds `n` decks, or none when `n` is negative |
| Cards.PartitionedFails | internal/cards/cards.go:111-113 | Partitioning fails exactly when the pool holds fewer than `n` cards; a negative `n` deals no decks and leaves the pool alone |
| Cards.PartitionedSpec | internal/cards/cards.go:104-128 | For `0 < n <= size`, it returns exactly `n` decks of `(size - size % n) / n >= 1` cards each. Exactly `size % n` cards stay in the pool, and decks plus pool are the old pool as a multiset |
| Cards.Pool.SplitCards | internal/cards/cards.go:104-128 | On too small a pool it reports the failure and leaves the pool as it was; otherwise it returns the decks of `Partitioned` and leaves its remainder in the pool |
| Sorting.Insert | internal/game/game.go:110 | Inserting into a sorted sequence keeps it sorted and adds exactly one copy of the value |
| Sorting.Sort | internal/game/game.go:109-110 | The sorted copy is sorted and is a permutation of the values |
| Game.Max | internal/game/game.go:112-118 | The maximum is one of the values and no value exceeds it |
| Game.DrawIffNoStrictWinner | internal/game/game.go:114-122 | Two players sharing the top value is the same as no player holding a strict maximum |
| Game.UniqueMaxIsStrict | internal/game/game.go:117-122 | Outside a draw, the player holding the maximum beats every other player strictly |
| Game.SortedLastIsMax | internal/game/game.go:110-112 | The last element of the sorted copy is the largest value |
| Game.SortedPermutationLastIsMax | internal/game/game.go:110-112 | The same holds for any sorted permutation of the values |
| Game.SortedTopTwo | internal/game/game.go:110-115 | The top two of the sorted copy are equal exactly when two players share the largest value |
| Game.SortedPermutationTopTwo | internal/game/game.go:114-115 | For any sorted permutation whose last element is the maximum, the top two are equal exactly on a draw |
| Game.TopTwoEqualIsDraw | internal/game/game.go:114-115 | Equal top two in a sorted permutation imply a draw |
| Game.DrawMakesTopTwoEqual | internal/game/game.go:114-115 | A draw makes the top two of a sorted permutation equal |
| Game.SortedRepeatAtTop | internal/game/game.go:114 | In a sorted sequence whose last value occurs twice, the element before the last equals it |
| Game.LosersCards | internal/game/game.go:135-140 | The winner receives one card per player other than the winner, among those considered |
| Game.LosersCardsAt | internal/game/game.go:135-140 | The `j`-th card the winner receives is the selected card of the `j`-th loser in player order |
| Game.AfterTransfer | internal/game/game.go:135-143 | A transfer keeps the number of decks |
| Game.TransferShape | internal/game/game.go:140-141 | The winner's deck grows by `NumPlayers - 1` and begins with its old deck, so its own selected card stays in place. Each loser's deck shrinks by exactly one: its selected card spliced out, the rest in order |
| Game.TransferConserves | internal/game/game.go:135-143 | All decks together hold the same multiset of cards, and the same number of cards, before and after a transfer |
| Game.PartialTransferStep | internal/game/game.go:136-141 | A loser's turn appends its card to the winner's deck and splices it out of its own deck |
| Game.PartialTransferSkip | internal/game/game.go:136 | The winner's own turn in the loop changes nothing |
| Game.NextPriority | internal/game/game.go:175-178 | The next priority player is in `[0, NumPlayers)` and is `(p + 1) % NumPlayers` |
| Game.PriorityAfter | internal/game/game.go:47 | After any number of non-final rounds the priority player is a valid player |
| Game.PriorityRoundRobin | internal/game/game.go:47-178 | After `k` non-final rounds, counted from 0, the priority player is `k % NumPlayers` |
| Game.RoundValues | internal/game/game.go:85-96 | One attribute value per player |
| Game.ExampleValues | internal/game/game.go:85-96 | Reading "Range" off X (500) and Z (300) gives the values 500 and 300 |
| Game.ExampleRound | internal/game/game.go:85-143 | Player 0 plays X (Range 500) from [X, Y] and player 1 plays Z (Range 300) from [Z]. Player 0 strictly wins, ends with [X, Y, Z], and player 1 ends with no cards |
| Game.Game.constructor | internal/game/game.go:25-39 | It needs at least `NumPlayers` decks, copies exactly the first `NumPlayers` of them, and starts with player 0 holding priority |
| Game.Game.SelectCards | internal/game/game.go:52-72 | Every player's recorded index is the pick, lies in their deck, and the recorded card is the card at that index |
| Game.Game.GatherValues | internal/game/game.go:85-96 | The recorded values are the chosen attribute of each player's selected card |
| Game.Game.ResolveWinner | internal/game/game.go:100-123 | The result is -1 exactly on a draw; otherwise it is the player whose value strictly exceeds every other, hence the lowest index holding the maximum |
| Game.Game.Transfer | internal/game/game.go:135-143 | The decks become `AfterTransfer` of the old decks |
| Game.Game.PlayerWithMostCards | internal/game/game.go:150-159 | It returns a player with a largest deck and no earlier player has one; that is player 0 when every deck is empty |
| Game.Game.CheckEnd | internal/game/game.go:147-164 | The game is over exactly when some deck is empty. It then reports the first empty deck and the player with the most cards |
| Game.Game.RotatePriority | internal/game/game.go:175-178 | Priority moves to `NextPriority` of the old priority |
| Game.Game.PlayRound | internal/game/game.go:49-180 | One round composes the steps above.<br>- It is a draw exactly when two players share the top value, and on a draw no deck changes.<br>- Otherwise the strict winner takes the losers' cards as `AfterTransfer` says.<br>- The game ends exactly after a won round that leaves a deck empty, naming the player with the most cards.<br>- Priority rotates on every round that does not end the game |

## Left out

- Console input (`internal/input/input.go`) is not modelled. Card and attribute picks are parameters, and the menu's promise that a pick indexes its list (`internal/input/input.go:40-43`) becomes the requirements on `SelectCards` and `PlayRound`.
- Printing, colouring, the "press ENTER" prompt, clearing the console (`internal/helpers/helpers.go`) and `cmd/toptrumps/main.go` are left out as I/O.
  - `cmd/toptrumps/main.go` calls `SplitCards` with no argument and expects two results, which does not match the definition. The model takes `SplitCards(n)` as defined.
- The infinite loop of `Run` is not modelled: `PlayRound` is one iteration, and the `return` at game over is its `Over` result.
- Randomness in `Deal` (a clock-seeded generator) is replaced by a stream of draws passed in.
  - Each draw is an index into the pool as it stands at that moment, as `rand.Intn(len(AvailCards))` returns.
  - `SplitCards` takes one stream with one draw per pool card.
- Loading the card catalogue from embedded JSON in `init`, and `AvailCards` starting as an alias of `AllCards`, are not part of this model. The pool is a `Pool` object passed in.
- Reflection over struct tags is replaced by the four-entry attribute table.
- Cards.ValueByReadable: returns 0 for the empty name, which in the source matches the untagged `Name` field and panics on the type assertion. `Game.Game.GatherValues` therefore requires a non-empty name.
- Cards.UnknownNameIsZero: covers the empty name too, for which the source panics on the untagged `Name` field rather than returning 0 (see the line above).
- Cards.Pool.SplitCards: a pool smaller than `n` is reported as a `Failure` result rather than a panic.
  - `n == 0`, which panics in the source on the modulo by zero, is excluded by a requirement.
- Cards.Pool.Deal: drawing from an empty pool panics in `rand.Intn`. It is excluded, because the stream of draws must be valid for the pool.
- Game.Game.constructor: fewer than `NumPlayers` decks panics in the source; it is excluded by a requirement.
- The selected-card pointers of the source are modelled as `Option<Card>` values. Each deck has its own backing array and no deck is changed between taking a pointer and reading through it, so the value read is the same.
- The `priorityPlayer` local of `Run` is modelled as a field of `Game`.
