/** Tiles and the fixed letter tables of Game.tsx: how many of each letter
    the bag holds and what each letter is worth, and the unshuffled bag built
    from them with sequential ids. */
module Tiles {

  /** A tile as the bag creates it; immutable, tracked by `id`. */
  datatype Tile = Tile(id: int, letter: char, value: int)

  const GridWidth: nat := 12
  const GridHeight: nat := 12
  const HandSlots: nat := 24

  predicate IsBagLetter(c: char) {
    'A' <= c <= 'Z'
  }

  /** Entry `k` of the distribution table is for the `k`-th letter of the
      alphabet: the table's keys are A to Z, which is also the order in which
      `Object.entries` lists them. */
  function LetterAt(k: nat): (c: char)
    requires k < 26
    ensures IsBagLetter(c) && c as int - 'A' as int == k
  {
    ('A' as int + k) as char
  }

  /** How many tiles of each letter go into the bag, for A to Z in order. */
  const Distribution: seq<nat> := [13, 3, 3, 6, 18, 3, 4, 3, 12, 2, 2, 5, 3, 8, 11, 3, 2, 9, 6, 9, 6, 3, 3, 2, 3, 2]

  /** A letter's entry in the distribution table; none for other characters. */
  function Count(c: char): nat {
    if IsBagLetter(c) then Distribution[c as int - 'A' as int] else 0
  }

  /** The point value of each letter. */
  function Value(c: char): int
    requires IsBagLetter(c)
  {
    match c
    case 'A' => 1 case 'E' => 1 case 'I' => 1 case 'O' => 1 case 'U' => 1
    case 'L' => 1 case 'N' => 1 case 'S' => 1 case 'T' => 1 case 'R' => 1
    case 'D' => 2 case 'G' => 2
    case 'B' => 3 case 'C' => 3 case 'M' => 3 case 'P' => 3
    case 'F' => 4 case 'H' => 4 case 'V' => 4 case 'W' => 4 case 'Y' => 4
    case 'K' => 5
    case 'J' => 8 case 'X' => 8
    case 'Q' => 10 case 'Z' => 10
  }

  /** A count table for the letters A, B, C, ... in order. */
  ghost predicate IsTable(dist: seq<nat>) {
    |dist| <= 26
  }

  /** The number of tiles the table entries from `k` on put into the bag. */
  function SumFrom(dist: seq<nat>, k: nat): nat
    decreases |dist| - k
  {
    if k >= |dist| then 0 else dist[k] + SumFrom(dist, k + 1)
  }

  /** `count` tiles of letter `c` worth `v`, with ids `nextId`,
      `nextId + 1`, ... */
  function Copies(c: char, v: int, count: nat, nextId: int): (r: seq<Tile>)
    ensures |r| == count
    ensures forall i :: 0 <= i < count ==> r[i] == Tile(nextId + i, c, v)
  {
    seq(count, i requires 0 <= i < count => Tile(nextId + i, c, v))
  }

  /** The two nested loops that fill the bag: the table entries from `k` on,
      each letter repeated its count, ids taken from a running counter. */
  function BuildFrom(dist: seq<nat>, k: nat, nextId: int): seq<Tile>
    requires IsTable(dist)
    decreases |dist| - k
  {
    if k >= |dist| then []
    else Copies(LetterAt(k), Value(LetterAt(k)), dist[k], nextId) + BuildFrom(dist, k + 1, nextId + dist[k])
  }

  function InitialBag(): seq<Tile> {
    BuildFrom(Distribution, 0, 0)
  }

  function LettersOf(ts: seq<Tile>): (r: seq<char>)
    ensures |r| == |ts|
    ensures forall i :: 0 <= i < |ts| ==> r[i] == ts[i].letter
  {
    seq(|ts|, i requires 0 <= i < |ts| => ts[i].letter)
  }

  function IdsOf(ts: seq<Tile>): (r: seq<int>)
    ensures |r| == |ts|
    ensures forall i :: 0 <= i < |ts| ==> r[i] == ts[i].id
  {
    seq(|ts|, i requires 0 <= i < |ts| => ts[i].id)
  }

  /** The built bag has one tile per counted letter. */
  lemma {:induction false} BuildFromLength(dist: seq<nat>, k: nat, nextId: int)
    requires IsTable(dist)
    ensures |BuildFrom(dist, k, nextId)| == SumFrom(dist, k)
    decreases |dist| - k
  {
    if k < |dist| {
      BuildFromLength(dist, k + 1, nextId + dist[k]);
    }
  }

  /** Ids run up from the counter's start with no gap. */
  lemma {:induction false} BuildFromIds(dist: seq<nat>, k: nat, nextId: int)
    requires IsTable(dist)
    ensures forall i :: 0 <= i < |BuildFrom(dist, k, nextId)| ==>
      BuildFrom(dist, k, nextId)[i].id == nextId + i
    decreases |dist| - k
  {
    if k < |dist| {
      var n := dist[k];
      BuildFromIds(dist, k + 1, nextId + n);
      var head: seq<Tile> := Copies(LetterAt(k), Value(LetterAt(k)), n, nextId);
      var tail: seq<Tile> := BuildFrom(dist, k + 1, nextId + n);
      var all := head + tail;
      assert BuildFrom(dist, k, nextId) == all;
      forall i | n <= i < |all|
        ensures all[i].id == nextId + i
      {
        assert all[i] == tail[i - n];
      }
    }
  }

  /** Every tile of the built bag is a letter tile worth its letter's value. */
  lemma {:induction false} BuildFromValues(dist: seq<nat>, k: nat, nextId: int)
    requires IsTable(dist)
    ensures forall t :: t in BuildFrom(dist, k, nextId) ==>
      IsBagLetter(t.letter) && t.value == Value(t.letter)
    decreases |dist| - k
  {
    if k < |dist| {
      BuildFromValues(dist, k + 1, nextId + dist[k]);
    }
  }

  /** Each letter occurs in the bag built from entry `k` on exactly as often
      as its table entry says if that entry is among them, and never
      otherwise. */
  lemma {:induction false} BuildFromLetterCounts(dist: seq<nat>, k: nat, nextId: int, c: char)
    requires IsTable(dist)
    ensures multiset(LettersOf(BuildFrom(dist, k, nextId)))[c]
            == if IsBagLetter(c) && k <= c as int - 'A' as int < |dist|
               then dist[c as int - 'A' as int] else 0
    decreases |dist| - k
  {
    if k < |dist| {
      var n := dist[k];
      BuildFromLetterCounts(dist, k + 1, nextId + n, c);
      var head := Copies(LetterAt(k), Value(LetterAt(k)), n, nextId);
      var tail := BuildFrom(dist, k + 1, nextId + n);
      assert LettersOf(head + tail) == LettersOf(head) + LettersOf(tail);
      CopiesLetters(LetterAt(k), Value(LetterAt(k)), n, nextId);
    }
  }

  lemma {:induction false} CopiesLetters(c: char, v: int, count: nat, nextId: int)
    ensures multiset(LettersOf(Copies(c, v, count, nextId))) == multiset{}[c := count]
  {
    if count > 0 {
      var r := Copies(c, v, count, nextId);
      CopiesLetters(c, v, count - 1, nextId);
      assert LettersOf(r) == LettersOf(Copies(c, v, count - 1, nextId)) + [c];
    }
  }

  /** The distribution table totals 144 tiles, summed from the last entry
      back. */
  lemma TableTotal()
    ensures SumFrom(Distribution, 0) == 144
  {
    assert SumFrom(Distribution, 25) == 2;
    assert SumFrom(Distribution, 24) == 5;
    assert SumFrom(Distribution, 23) == 7;
    assert SumFrom(Distribution, 22) == 10;
    assert SumFrom(Distribution, 21) == 13;
    assert SumFrom(Distribution, 20) == 19;
    assert SumFrom(Distribution, 19) == 28;
    assert SumFrom(Distribution, 18) == 34;
    assert SumFrom(Distribution, 17) == 43;
    assert SumFrom(Distribution, 16) == 45;
    assert SumFrom(Distribution, 15) == 48;
    assert SumFrom(Distribution, 14) == 59;
    assert SumFrom(Distribution, 13) == 67;
    assert SumFrom(Distribution, 12) == 70;
    assert SumFrom(Distribution, 11) == 75;
    assert SumFrom(Distribution, 10) == 77;
    assert SumFrom(Distribution, 9) == 79;
    assert SumFrom(Distribution, 8) == 91;
    assert SumFrom(Distribution, 7) == 94;
    assert SumFrom(Distribution, 6) == 98;
    assert SumFrom(Distribution, 5) == 101;
    assert SumFrom(Distribution, 4) == 119;
    assert SumFrom(Distribution, 3) == 125;
    assert SumFrom(Distribution, 2) == 128;
    assert SumFrom(Distribution, 1) == 131;
    assert SumFrom(Distribution, 0) == 144;
  }

  /** The fresh bag holds 144 tiles, tile `i` with id `i`... */
  lemma InitialBagShape()
    ensures |InitialBag()| == 144
    ensures forall i :: 0 <= i < 144 ==> InitialBag()[i].id == i
  {
    TableTotal();
    BuildFromLength(Distribution, 0, 0);
    BuildFromIds(Distribution, 0, 0);
  }

  /** ...each letter appears as often as the distribution table says, and
      every tile carries its letter's value. */
  lemma InitialBagFacts()
    ensures |InitialBag()| == 144
    ensures forall i :: 0 <= i < 144 ==> InitialBag()[i].id == i
    ensures forall t :: t in InitialBag() ==> IsBagLetter(t.letter) && t.value == Value(t.letter)
    ensures forall c :: multiset(LettersOf(InitialBag()))[c] == Count(c)
  {
    InitialBagShape();
    BuildFromValues(Distribution, 0, 0);
    forall c ensures multiset(LettersOf(InitialBag()))[c] == Count(c) {
      BuildFromLetterCounts(Distribution, 0, 0, c);
    }
  }
}
