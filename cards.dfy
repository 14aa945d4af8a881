/** Cards, their attribute table, and the deck partitioner
    (internal/cards/cards.go). */
module Cards {
  import opened Seqs

  /** One card: a name and four integer attributes. */
  datatype Card = Card(name: string, numEngines: int, maxPax: int, range: int, cost: int)

  /** The integer fields of a card that carry a `readable` tag, by field. */
  datatype Attribute = NumEngines | MaxPax | Range | Cost

  /** The `readable` tag of each attributed field. */
  function Readable(a: Attribute): string
  {
    match a
    case NumEngines => "Number of engines"
    case MaxPax => "Maximum passenger count"
    case Range => "Range"
    case Cost => "Cost when new"
  }

  /** The value a card holds in an attributed field. */
  function Value(c: Card, a: Attribute): int
  {
    match a
    case NumEngines => c.numEngines
    case MaxPax => c.maxPax
    case Range => c.range
    case Cost => c.cost
  }

  /** The tagged fields in declaration order; `Name` carries no tag. */
  const TaggedFields: seq<Attribute> := [NumEngines, MaxPax, Range, Cost]

  function NamesOf(fields: seq<Attribute>): (names: seq<string>)
    ensures |names| == |fields|
    ensures forall i :: 0 <= i < |fields| ==> names[i] == Readable(fields[i])
    decreases |fields|
  {
    if |fields| == 0 then [] else [Readable(fields[0])] + NamesOf(fields[1..])
  }

  /** `GetReadableNames`: the tags of the tagged fields, in field order. The
      names are the same for every card. */
  function ReadableNames(): (names: seq<string>)
    ensures names == ["Number of engines", "Maximum passenger count", "Range", "Cost when new"]
  {
    NamesOf(TaggedFields)
  }

  /** The scan of `GetValueByReadable`: the value of the first field in
      `fields` whose tag is `readable`, or 0 when none is. */
  function LookupIn(c: Card, fields: seq<Attribute>, readable: string): int
    decreases |fields|
  {
    if |fields| == 0 then 0
    else if Readable(fields[0]) == readable then Value(c, fields[0])
    else LookupIn(c, fields[1..], readable)
  }

  /** The scan returns the value of the first field carrying the name. */
  lemma {:induction false} LookupInFindsFirst(c: Card, fields: seq<Attribute>, readable: string, i: int)
    requires 0 <= i < |fields| && Readable(fields[i]) == readable
    requires forall j :: 0 <= j < i ==> Readable(fields[j]) != readable
    ensures LookupIn(c, fields, readable) == Value(c, fields[i])
    decreases i
  {
    if i > 0 {
      LookupInFindsFirst(c, fields[1..], readable, i - 1);
    }
  }

  /** The scan returns 0 when no field carries the name. */
  lemma {:induction false} LookupInMissing(c: Card, fields: seq<Attribute>, readable: string)
    requires forall j :: 0 <= j < |fields| ==> Readable(fields[j]) != readable
    ensures LookupIn(c, fields, readable) == 0
    decreases |fields|
  {
    if |fields| > 0 {
      LookupInMissing(c, fields[1..], readable);
    }
  }

  /** `GetValueByReadable`. */
  function ValueByReadable(c: Card, readable: string): int
  {
    LookupIn(c, TaggedFields, readable)
  }

  /** Each name that `ReadableNames` offers reads back the field it tags. */
  lemma ValueOfEachName(c: Card, i: int)
    requires 0 <= i < |ReadableNames()|
    ensures ValueByReadable(c, ReadableNames()[i]) == Value(c, TaggedFields[i])
  {
    LookupInFindsFirst(c, TaggedFields, ReadableNames()[i], i);
  }

  /** A name that `ReadableNames` does not offer reads as 0. */
  lemma UnknownNameIsZero(c: Card, readable: string)
    requires readable !in ReadableNames()
    ensures ValueByReadable(c, readable) == 0
  {
    LookupInMissing(c, TaggedFields, readable);
  }

  // ----- Deck partitioner -----

  /** A stream of random draws for a pool of `size` cards: the `i`-th draw is
      an index into the pool as it stands after `i` earlier removals, as Go's
      `rand.Intn(len(AvailCards))` returns. */
  predicate ValidPicks(size: int, picks: seq<int>)
  {
    forall i :: 0 <= i < |picks| ==> 0 <= picks[i] < size - i
  }

  datatype Drawn = Drawn(deck: seq<Card>, rest: seq<Card>)

  /** The cards `picks` draw from `pool`, in draw order, and what is left. */
  function Dealt(pool: seq<Card>, picks: seq<int>): (r: Drawn)
    requires ValidPicks(|pool|, picks)
    ensures |r.deck| == |picks| && |r.rest| == |pool| - |picks|
    decreases |picks|
  {
    if |picks| == 0 then Drawn([], pool)
    else
      var next := Dealt(RemoveAt(pool, picks[0]), picks[1..]);
      Drawn([pool[picks[0]]] + next.deck, next.rest)
  }

  /** No card is created, lost or dealt twice. */
  lemma {:induction false} DealtConserves(pool: seq<Card>, picks: seq<int>)
    requires ValidPicks(|pool|, picks)
    ensures multiset(pool) == multiset(Dealt(pool, picks).deck) + multiset(Dealt(pool, picks).rest)
    decreases |picks|
  {
    if |picks| > 0 {
      DealtConserves(RemoveAt(pool, picks[0]), picks[1..]);
    }
  }

  /** The cards left behind keep their relative order. */
  lemma {:induction false} DealtKeepsOrder(pool: seq<Card>, picks: seq<int>)
    requires ValidPicks(|pool|, picks)
    ensures Subseq(Dealt(pool, picks).rest, pool)
    decreases |picks|
  {
    if |picks| == 0 {
      SubseqRefl(pool);
    } else {
      var smaller := RemoveAt(pool, picks[0]);
      DealtKeepsOrder(smaller, picks[1..]);
      RemoveAtIsSubseq(pool, picks[0]);
      SubseqTrans(Dealt(pool, picks).rest, smaller, pool);
    }
  }

  /** `count` consecutive deals of `per` cards each from one stream. */
  datatype Partition = Partition(decks: seq<seq<Card>>, rest: seq<Card>)

  function Split(pool: seq<Card>, per: nat, count: nat, stream: seq<int>): (r: Partition)
    requires per * count <= |stream| && ValidPicks(|pool|, stream)
    ensures |r.decks| == count
    decreases count
  {
    if count == 0 then Partition([], pool)
    else
      assert per * count == per * (count - 1) + per;
      var first := Dealt(pool, stream[..per]);
      var others := Split(first.rest, per, count - 1, stream[per..]);
      Partition([first.deck] + others.decks, others.rest)
  }

  /** One step of `Split`: the first deck is one `Deal` of `per` cards. */
  lemma SplitUnfold(pool: seq<Card>, per: nat, count: nat, stream: seq<int>)
    requires count > 0 && per * count <= |stream| && ValidPicks(|pool|, stream)
    ensures per <= |stream| && per * (count - 1) <= |stream| - per
    ensures var first := Dealt(pool, stream[..per]);
            var whole := Split(pool, per, count, stream);
            && ValidPicks(|first.rest|, stream[per..])
            && whole.decks == [first.deck] + Split(first.rest, per, count - 1, stream[per..]).decks
            && whole.rest == Split(first.rest, per, count - 1, stream[per..]).rest
  {
    assert per * count == per * (count - 1) + per;
  }

  lemma {:induction false} SplitShape(pool: seq<Card>, per: nat, count: nat, stream: seq<int>)
    requires per * count <= |stream| && ValidPicks(|pool|, stream)
    ensures forall j :: 0 <= j < count ==> |Split(pool, per, count, stream).decks[j]| == per
    ensures |Split(pool, per, count, stream).rest| == |pool| - per * count
    decreases count
  {
    if count > 0 {
      assert per * count == per * (count - 1) + per;
      var first := Dealt(pool, stream[..per]);
      SplitShape(first.rest, per, count - 1, stream[per..]);
    }
  }

  lemma {:induction false} SplitConserves(pool: seq<Card>, per: nat, count: nat, stream: seq<int>)
    requires per * count <= |stream| && ValidPicks(|pool|, stream)
    ensures var p := Split(pool, per, count, stream);
            multiset(pool) == multiset(Concat(p.decks)) + multiset(p.rest)
    decreases count
  {
    if count > 0 {
      SplitUnfold(pool, per, count, stream);
      var first := Dealt(pool, stream[..per]);
      var others := Split(first.rest, per, count - 1, stream[per..]);
      var whole := Split(pool, per, count, stream);
      DealtConserves(pool, stream[..per]);
      SplitConserves(first.rest, per, count - 1, stream[per..]);
      ConcatCons(first.deck, others.decks);
      assert Concat(whole.decks) == first.deck + Concat(others.decks);
    }
  }

  // ----- Sizing -----

  predicate Divides(n: int, m: int)
    requires n != 0
  {
    m % n == 0
  }

  /** The number of cards `SplitCards` keeps: `size` lowered to a multiple
      of `n`. */
  function Usable(size: nat, n: int): int
    requires n != 0
  {
    size - size % n
  }

  lemma MulAtLeast(n: int, k: int)
    requires n > 0 && k >= 1
    ensures n * k >= n
  {
  }

  /** Euclidean division has one quotient and one remainder. */
  lemma DivUnique(a: int, n: int, q: int, r: int)
    requires n != 0 && a == n * q + r && 0 <= r < (if n > 0 then n else -n)
    ensures a / n == q && a % n == r
  {
    var k := q - a / n;
    assert n * k == a % n - r;
    if k != 0 {
      if n > 0 {
        if k > 0 { MulAtLeast(n, k); } else { MulAtLeast(n, -k); }
      } else {
        if k > 0 { MulAtLeast(-n, k); } else { MulAtLeast(-n, -k); }
      }
    }
  }

  lemma UsableIsMultiple(size: nat, n: int)
    requires n != 0
    ensures 0 <= Usable(size, n) <= size
    ensures Divides(n, Usable(size, n))
    ensures Usable(size, n) == n * (Usable(size, n) / n)
  {
    var q := size / n;
    assert size == n * q + size % n;
    if size < (if n > 0 then n else -n) {
      DivUnique(size, n, 0, size);
    }
    DivUnique(n * q, n, q, 0);
  }

  /** No multiple of `n` lies strictly between `Usable(size, n)` and `size`. */
  lemma NoMultipleAbove(size: nat, n: int, m: int)
    requires n != 0
    requires Usable(size, n) < m <= size
    ensures !Divides(n, m)
  {
    if m % n == 0 {
      assert m == n * (m / n);
      DivUnique(size, n, m / n, size - m);
    }
  }

  /** The `for numCards%n != 0` loop: lower `size` one at a time until it is
      a multiple of `n`. The result is the largest multiple of `n` not above
      `size`. */
  method UsableCount(size: nat, n: int) returns (numCards: nat)
    requires n != 0
    ensures numCards <= size && Divides(n, numCards)
    ensures forall m :: numCards < m <= size ==> !Divides(n, m)
    ensures numCards == Usable(size, n)
  {
    UsableIsMultiple(size, n);
    numCards := size;
    while numCards % n != 0
      invariant Usable(size, n) <= numCards <= size
      decreases numCards
    {
      numCards := numCards - 1;
    }
    if numCards != Usable(size, n) {
      NoMultipleAbove(size, n, numCards);
    }
    forall m | numCards < m <= size
      ensures !Divides(n, m)
    {
      NoMultipleAbove(size, n, m);
    }
  }

  datatype SplitError = NotEnoughCards(have: nat, want: int)

  datatype Result<T> = Success(value: T) | Failure(error: SplitError)

  /** What `SplitCards(n)` does to `pool` when the random source yields
      `stream`: fail on too small a pool, otherwise deal `n` decks of
      `Usable(|pool|, n) / n` cards (none when `n` is negative). */
  function Partitioned(pool: seq<Card>, n: int, stream: seq<int>): (r: Result<Partition>)
    requires n != 0 && |stream| == |pool| && ValidPicks(|pool|, stream)
    ensures r.Failure? ==> r.error == NotEnoughCards(|pool|, n)
    ensures r.Success? ==> |r.value.decks| == if n > 0 then n else 0
  {
    if |pool| < n then Failure(NotEnoughCards(|pool|, n))
    else if n < 0 then Success(Partition([], pool))
    else
      UsableIsMultiple(|pool|, n);
      Success(Split(pool, Usable(|pool|, n) / n, n, stream))
  }

  /** When the pool holds at least `n > 0` cards, every deck gets at least
      one card. */
  lemma PerDeckPositive(size: nat, n: int)
    requires 0 < n <= size
    ensures Usable(size, n) / n >= 1
  {
    UsableIsMultiple(size, n);
    if Usable(size, n) < n {
      NoMultipleAbove(size, n, n);
      DivUnique(n, n, 1, 0);
    }
    var q := Usable(size, n) / n;
    if q <= 0 {
      MulAtLeast(n, 1 - q);
    }
  }

  /** `SplitCards(n)` fails exactly when the pool has fewer than `n` cards,
      and a negative `n` deals nothing. */
  lemma PartitionedFails(pool: seq<Card>, n: int, stream: seq<int>)
    requires n != 0 && |stream| == |pool| && ValidPicks(|pool|, stream)
    ensures Partitioned(pool, n, stream).Failure? <==> |pool| < n
    ensures n < 0 ==> Partitioned(pool, n, stream) == Success(Partition([], pool))
  {
  }

  /** Otherwise it returns `n` decks of equal size that, with the
      `|pool| % n` cards left over, make up the whole pool. */
  lemma PartitionedSpec(pool: seq<Card>, n: int, stream: seq<int>)
    requires 0 < n <= |pool| && |stream| == |pool| && ValidPicks(|pool|, stream)
    ensures Partitioned(pool, n, stream).Success?
    ensures var p := Partitioned(pool, n, stream).value;
      && |p.decks| == n
      && (forall j :: 0 <= j < n ==> |p.decks[j]| == (|pool| - |pool| % n) / n >= 1)
      && |p.rest| == |pool| % n
      && multiset(pool) == multiset(Concat(p.decks)) + multiset(p.rest)
  {
    UsableIsMultiple(|pool|, n);
    PerDeckPositive(|pool|, n);
    var per := Usable(|pool|, n) / n;
    assert per == (|pool| - |pool| % n) / n;
    assert per * n == |pool| - |pool| % n;
    var p := Split(pool, per, n, stream);
    assert Partitioned(pool, n, stream) == Success(p);
    SplitShape(pool, per, n, stream);
    SplitConserves(pool, per, n, stream);
  }

  /** The pool of cards not yet dealt (`AvailCards`), passed explicitly. */
  class Pool {
    var avail: seq<Card>

    constructor (cards: seq<Card>)
      ensures avail == cards
    {
      avail := cards;
    }

    /** `Deal(k)`: draw `k` cards one at a time, the `i`-th at index
        `picks[i]`, splicing each out of the pool. */
    method Deal(k: int, picks: seq<int>) returns (deck: seq<Card>)
      requires k <= |picks| && ValidPicks(|avail|, picks)
      modifies this
      ensures var used := if k < 0 then 0 else k;
              var d := Dealt(old(avail), picks[..used]);
              deck == d.deck && avail == d.rest
    {
      ghost var used := if k < 0 then 0 else k;
      ghost var whole := Dealt(avail, picks[..used]);
      deck := [];
      var i := 0;
      while i < k
        invariant 0 <= i <= used
        invariant |avail| == |old(avail)| - i
        invariant ValidPicks(|avail|, picks[i..used])
        invariant deck + Dealt(avail, picks[i..used]).deck == whole.deck
        invariant Dealt(avail, picks[i..used]).rest == whole.rest
      {
        var chosenIndex := picks[i];
        ghost var before := avail;
        assert picks[i..used][1..] == picks[i + 1..used];
        deck := deck + [avail[chosenIndex]];
        avail := avail[..chosenIndex] + avail[chosenIndex + 1..];
        assert avail == RemoveAt(before, chosenIndex);
        i := i + 1;
      }
      assert picks[used..used] == [];
    }

    /** The dealing loop of `SplitCards`: `count` decks of `per` cards. */
    method DealDecks(per: nat, count: nat, stream: seq<int>) returns (decks: seq<seq<Card>>)
      requires |stream| == |avail| && per * count <= |stream| && ValidPicks(|avail|, stream)
      modifies this
      ensures decks == Split(old(avail), per, count, stream).decks
      ensures avail == Split(old(avail), per, count, stream).rest
    {
      ghost var whole := Split(avail, per, count, stream);
      decks := [];
      var rest := stream;
      var i := 0;
      while i < count
        invariant 0 <= i <= count
        invariant |avail| == |rest| && per * (count - i) <= |rest|
        invariant ValidPicks(|avail|, rest)
        invariant decks + Split(avail, per, count - i, rest).decks == whole.decks
        invariant Split(avail, per, count - i, rest).rest == whole.rest
      {
        SplitUnfold(avail, per, count - i, rest);
        ghost var first := Dealt(avail, rest[..per]);
        ghost var others := Split(first.rest, per, count - i - 1, rest[per..]);
        var deck := Deal(per, rest);
        assert deck == first.deck && avail == first.rest;
        assert decks + [deck] + others.decks == whole.decks;
        decks := decks + [deck];
        rest := rest[per..];
        i := i + 1;
      }
    }

    /** `SplitCards(n)`: `n` decks of equal size dealt from the pool, `stream`
        holding one random draw for every card the pool could yield. */
    method SplitCards(n: int, stream: seq<int>) returns (r: Result<seq<seq<Card>>>)
      requires n != 0
      requires |stream| == |avail| && ValidPicks(|avail|, stream)
      modifies this
      ensures match Partitioned(old(avail), n, stream)
              case Failure(e) => r == Failure(e) && avail == old(avail)
              case Success(p) => r == Success(p.decks) && avail == p.rest
    {
      var numCards := |avail|;
      if numCards < n {
        return Failure(NotEnoughCards(numCards, n));
      }
      ghost var pool := avail;
      numCards := UsableCount(numCards, n);
      var cardsPerDeck := numCards / n;
      var decks: seq<seq<Card>> := [];
      if n < 0 {
        return Success(decks);
      }
      UsableIsMultiple(|pool|, n);
      decks := DealDecks(cardsPerDeck, n, stream);
      return Success(decks);
    }
  }
}
