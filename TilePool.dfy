// The bag of letter tiles: the frequency table is expanded into a list,
// shuffled in place (Fisher-Yates), truncated to the game's size, and each
// tile gets a freshly minted id; the first tiles form the starting rack.

module TilePool {
  import opened Tiles

  /** Letter frequencies of the bag, in the table's order. */
  const Distribution: seq<(char, nat)> := [
    ('A', 13), ('B', 3), ('C', 3), ('D', 6), ('E', 18), ('F', 3), ('G', 4), ('H', 3), ('I', 12),
    ('J', 2), ('K', 2), ('L', 5), ('M', 3), ('N', 8), ('O', 11), ('P', 3), ('Q', 2), ('R', 9),
    ('S', 6), ('T', 9), ('U', 6), ('V', 3), ('W', 3), ('X', 2), ('Y', 3), ('Z', 2)
  ]

  /** Number of tiles a game uses. */
  const TotalTiles: nat := 76

  /** Number of tiles the rack starts with. */
  const RackSize: nat := 21

  function Min(a: nat, b: nat): nat { if a < b then a else b }

  function Repeat(c: char, n: nat): (r: seq<char>)
    ensures |r| == n && forall i :: 0 <= i < n ==> r[i] == c
  {
    seq(n, _ => c)
  }

  /** The frequency table written out: each letter as many times as its count, in table order. */
  function Expansion(d: seq<(char, nat)>): (r: seq<char>)
    ensures |r| == Total(d)
  {
    if d == [] then [] else Expansion(d[..|d| - 1]) + Repeat(d[|d| - 1].0, d[|d| - 1].1)
  }

  /** The sum of all counts. */
  function Total(d: seq<(char, nat)>): nat
  {
    if d == [] then 0 else Total(d[..|d| - 1]) + d[|d| - 1].1
  }

  /** The table holds 144 tiles, so a game's 76 are always available. */
  lemma DistributionTotal()
    ensures Total(Distribution) == 144
  {
    var d := Distribution;
    assert Total(d[..0]) == 0;
    assert d[..1][..0] == d[..0];
    assert Total(d[..1]) == 13;
    assert d[..2][..1] == d[..1];
    assert Total(d[..2]) == 16;
    assert d[..3][..2] == d[..2];
    assert Total(d[..3]) == 19;
    assert d[..4][..3] == d[..3];
    assert Total(d[..4]) == 25;
    assert d[..5][..4] == d[..4];
    assert Total(d[..5]) == 43;
    assert d[..6][..5] == d[..5];
    assert Total(d[..6]) == 46;
    assert d[..7][..6] == d[..6];
    assert Total(d[..7]) == 50;
    assert d[..8][..7] == d[..7];
    assert Total(d[..8]) == 53;
    assert d[..9][..8] == d[..8];
    assert Total(d[..9]) == 65;
    assert d[..10][..9] == d[..9];
    assert Total(d[..10]) == 67;
    assert d[..11][..10] == d[..10];
    assert Total(d[..11]) == 69;
    assert d[..12][..11] == d[..11];
    assert Total(d[..12]) == 74;
    assert d[..13][..12] == d[..12];
    assert Total(d[..13]) == 77;
    assert d[..14][..13] == d[..13];
    assert Total(d[..14]) == 85;
    assert d[..15][..14] == d[..14];
    assert Total(d[..15]) == 96;
    assert d[..16][..15] == d[..15];
    assert Total(d[..16]) == 99;
    assert d[..17][..16] == d[..16];
    assert Total(d[..17]) == 101;
    assert d[..18][..17] == d[..17];
    assert Total(d[..18]) == 110;
    assert d[..19][..18] == d[..18];
    assert Total(d[..19]) == 116;
    assert d[..20][..19] == d[..19];
    assert Total(d[..20]) == 125;
    assert d[..21][..20] == d[..20];
    assert Total(d[..21]) == 131;
    assert d[..22][..21] == d[..21];
    assert Total(d[..22]) == 134;
    assert d[..23][..22] == d[..22];
    assert Total(d[..23]) == 137;
    assert d[..24][..23] == d[..23];
    assert Total(d[..24]) == 139;
    assert d[..25][..24] == d[..24];
    assert Total(d[..25]) == 142;
    assert d[..26][..25] == d[..25];
    assert Total(d[..26]) == 144;
    assert d[..26] == d;
  }

  /** The sum of the counts given for letter c. */
  function CountOf(d: seq<(char, nat)>, c: char): nat
  {
    if d == [] then 0 else CountOf(d[..|d| - 1], c) + (if d[|d| - 1].0 == c then d[|d| - 1].1 else 0)
  }

  lemma {:induction false} RepeatCount(x: char, n: nat, c: char)
    ensures multiset(Repeat(x, n))[c] == if x == c then n else 0
  {
    if n > 0 {
      RepeatCount(x, n - 1, c);
      assert Repeat(x, n) == Repeat(x, n - 1) + [x];
    }
  }

  /**
   * The expanded list has one entry per unit of count: its length is the
   * total and each letter occurs as often as the table says.
   */
  lemma {:induction false} ExpansionCounts(d: seq<(char, nat)>, c: char)
    ensures multiset(Expansion(d))[c] == CountOf(d, c)
  {
    if d != [] {
      ExpansionCounts(d[..|d| - 1], c);
      RepeatCount(d[|d| - 1].0, d[|d| - 1].1, c);
    }
  }

  /** Pushes each letter of the table as many times as its count. */
  method ExpandDistribution(d: seq<(char, nat)>) returns (allTiles: seq<char>)
    ensures allTiles == Expansion(d)
    ensures |allTiles| == Total(d)
    ensures forall c :: multiset(allTiles)[c] == CountOf(d, c)
  {
    allTiles := [];
    var e := 0;
    while e < |d|
      invariant 0 <= e <= |d|
      invariant allTiles == Expansion(d[..e])
    {
      var (letter, count) := d[e];
      var i := 0;
      while i < count
        invariant 0 <= i <= count
        invariant allTiles == Expansion(d[..e]) + Repeat(letter, i)
      {
        allTiles := allTiles + [letter];
        i := i + 1;
      }
      assert d[..e + 1][..e] == d[..e];
      e := e + 1;
    }
    assert d[..e] == d;
    forall c ensures multiset(allTiles)[c] == CountOf(d, c) {
      ExpansionCounts(d, c);
    }
    ExpansionCounts(d, 'A');
  }

  /**
   * The random choices of a shuffle of n items: swaps[i] is the index
   * drawn, between 0 and i inclusive, when position i is filled.
   */
  predicate ValidSwaps(swaps: seq<nat>, n: nat)
  {
    |swaps| == n && forall i :: 0 <= i < n ==> swaps[i] <= i
  }

  function Swap(s: seq<char>, i: nat, j: nat): seq<char>
    requires i < |s| && j < |s|
  {
    s[i := s[j]][j := s[i]]
  }

  /** Fisher-Yates from position i down to position 1. */
  function ShuffleDown(s: seq<char>, swaps: seq<nat>, i: int): (r: seq<char>)
    requires ValidSwaps(swaps, |s|) && i < |s|
    ensures |r| == |s|
    decreases i
  {
    if i <= 0 then s else ShuffleDown(Swap(s, i, swaps[i]), swaps, i - 1)
  }

  /** The full Fisher-Yates shuffle of s under the given choices. */
  function Shuffled(s: seq<char>, swaps: seq<nat>): (r: seq<char>)
    requires ValidSwaps(swaps, |s|)
    ensures |r| == |s|
  {
    ShuffleDown(s, swaps, |s| - 1)
  }

  /** The shuffle only swaps, so it is a permutation. */
  lemma {:induction false} ShuffleDownPermutes(s: seq<char>, swaps: seq<nat>, i: int)
    requires ValidSwaps(swaps, |s|) && i < |s|
    ensures multiset(ShuffleDown(s, swaps, i)) == multiset(s)
    decreases i
  {
    if i > 0 {
      var t := Swap(s, i, swaps[i]);
      assert multiset(t) == multiset(s);
      ShuffleDownPermutes(t, swaps, i - 1);
    }
  }

  /** Shuffles the array in place with the given choices. */
  method ShuffleInPlace(a: array<char>, swaps: seq<nat>)
    requires ValidSwaps(swaps, a.Length)
    modifies a
    ensures a[..] == Shuffled(old(a[..]), swaps)
    ensures multiset(a[..]) == multiset(old(a[..]))
  {
    var i := a.Length - 1;
    while i > 0
      invariant -1 <= i < a.Length
      invariant ShuffleDown(a[..], swaps, i) == Shuffled(old(a[..]), swaps)
    {
      var j := swaps[i];
      a[i], a[j] := a[j], a[i];
      i := i - 1;
    }
    ShuffleDownPermutes(old(a[..]), swaps, a.Length - 1);
  }

  /**
   * Builds the game's pool: min(targetTotal, total count) tiles whose
   * letters are the first tiles of the shuffled expansion (so a
   * sub-multiset of the table), with ids minted by a counter that starts
   * after firstId and goes up by one per tile.
   */
  method GenerateScaledTilePool(d: seq<(char, nat)>, targetTotal: nat, swaps: seq<nat>, firstId: TileId)
    returns (pool: seq<Tile>, lastId: TileId)
    requires ValidSwaps(swaps, Total(d))
    ensures |pool| == Min(targetTotal, Total(d))
    ensures lastId == firstId + |pool|
    ensures forall k :: 0 <= k < |pool| ==> pool[k].id == Some(firstId + k + 1) && !pool[k].isNew
    ensures forall i, j :: 0 <= i < j < |pool| ==> pool[i].id != pool[j].id
    ensures LettersOf(pool) == Shuffled(Expansion(d), swaps)[..|pool|]
    ensures multiset(LettersOf(pool)) <= multiset(Expansion(d))
  {
    var allTiles := ExpandDistribution(d);
    var a := new char[|allTiles|](i requires 0 <= i < |allTiles| => allTiles[i]);
    assert a[..] == allTiles;
    ShuffleInPlace(a, swaps);
    var n := Min(targetTotal, a.Length);
    pool, lastId := NumberTiles(a[..n], firstId);
    PrefixSubMultiset(a[..], n);
  }

  /**
   * Turns letters into tiles, minting one id per tile from a counter that
   * starts after firstId.
   */
  method NumberTiles(letters: seq<char>, firstId: TileId) returns (pool: seq<Tile>, lastId: TileId)
    ensures |pool| == |letters| && lastId == firstId + |pool|
    ensures forall k :: 0 <= k < |pool| ==> pool[k] == Tile(Some(firstId + k + 1), letters[k], false)
    ensures LettersOf(pool) == letters
  {
    pool := [];
    lastId := firstId;
    var k := 0;
    while k < |letters|
      invariant 0 <= k <= |letters|
      invariant |pool| == k && lastId == firstId + k
      invariant forall m :: 0 <= m < k ==> pool[m] == Tile(Some(firstId + m + 1), letters[m], false)
    {
      lastId := lastId + 1;
      pool := pool + [Tile(Some(lastId), letters[k], false)];
      k := k + 1;
    }
  }

  /** A prefix holds no letter more often than the whole sequence. */
  lemma PrefixSubMultiset(s: seq<char>, n: nat)
    requires n <= |s|
    ensures multiset(s[..n]) <= multiset(s)
  {
    assert s == s[..n] + s[n..];
  }

  /** The starting rack: the first RackSize tiles of the pool (all of it when shorter). */
  function InitialRack(pool: seq<Tile>): (r: seq<Tile>)
    ensures r <= pool
    ensures |r| <= RackSize
    ensures |pool| >= RackSize ==> |r| == RackSize
    ensures |pool| < RackSize ==> r == pool
  {
    pool[..Min(RackSize, |pool|)]
  }

  /** The starting reserve: the pool after the rack's tiles, so rack and reserve split the pool. */
  function InitialReserve(pool: seq<Tile>): (r: seq<Tile>)
    ensures InitialRack(pool) + r == pool
  {
    pool[Min(RackSize, |pool|)..]
  }
}
