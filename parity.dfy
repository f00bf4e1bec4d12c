/**
 * Inversion counting over the row-major reading of a board.
 *
 * An inversion is a pair of cells, the first before the second in row-major
 * order, both holding tiles (not the blank 0), where the first tile is the
 * larger. The central fact is SwapParity: moving the blank past k tiles
 * changes the number of inversions by an amount of the same parity as k.
 */
module Parity {

  /** The number of tiles (non-zero values) in s that are smaller than v. */
  function Below(v: nat, s: seq<nat>): nat
  {
    if |s| == 0 then 0
    else Below(v, s[..|s| - 1]) + (if s[|s| - 1] != 0 && v > s[|s| - 1] then 1 else 0)
  }

  /**
   * The number of inversions of s: for each position, the tiles from that
   * position on that are smaller than the value there. The value is compared
   * with itself too, which never counts, as in the scan of the board.
   */
  function Inversions(s: seq<nat>): nat
  {
    if |s| == 0 then 0 else Below(s[0], s) + Inversions(s[1..])
  }

  /** Pairs made of a value of a and a smaller tile of b. */
  function Cross(a: seq<nat>, b: seq<nat>): nat
  {
    if |a| == 0 then 0 else Below(a[0], b) + Cross(a[1..], b)
  }

  lemma {:induction false} BelowConcat(v: nat, a: seq<nat>, b: seq<nat>)
    ensures Below(v, a + b) == Below(v, a) + Below(v, b)
  {
    if |b| > 0 {
      assert (a + b)[..|a + b| - 1] == a + b[..|b| - 1];
      BelowConcat(v, a, b[..|b| - 1]);
    } else {
      assert a + b == a;
    }
  }

  /** The blank is smaller than no tile. */
  lemma {:induction false} BelowBlank(s: seq<nat>)
    ensures Below(0, s) == 0
  {
    if |s| > 0 {
      BelowBlank(s[..|s| - 1]);
    }
  }

  lemma {:induction false} CrossConcatRight(a: seq<nat>, b: seq<nat>, c: seq<nat>)
    ensures Cross(a, b + c) == Cross(a, b) + Cross(a, c)
  {
    if |a| > 0 {
      BelowConcat(a[0], b, c);
      CrossConcatRight(a[1..], b, c);
    }
  }

  lemma {:induction false} BelowSingle(v: nat, w: nat)
    ensures Below(v, [w]) == if w != 0 && v > w then 1 else 0
  {
    assert [w][..0] == [];
  }

  /** No value exceeds the blank as a tile. */
  lemma {:induction false} CrossBlank(a: seq<nat>)
    ensures Cross(a, [0]) == 0
  {
    if |a| > 0 {
      BelowSingle(a[0], 0);
      CrossBlank(a[1..]);
    }
  }

  lemma {:induction false} InversionsConcat(a: seq<nat>, b: seq<nat>)
    ensures Inversions(a + b) == Inversions(a) + Inversions(b) + Cross(a, b)
  {
    if |a| == 0 {
      assert a + b == b;
    } else {
      assert (a + b)[0] == a[0];
      assert (a + b)[1..] == a[1..] + b;
      BelowConcat(a[0], a, b);
      InversionsConcat(a[1..], b);
    }
  }

  /**
   * Against a tile t that differs from every tile of s, each tile of s is
   * either larger or smaller than t.
   */
  lemma {:induction false} AboveAndBelow(t: nat, s: seq<nat>)
    requires t != 0
    requires forall i | 0 <= i < |s| :: s[i] != 0 && s[i] != t
    ensures Cross(s, [t]) + Below(t, s) == |s|
  {
    if |s| > 0 {
      assert s == [s[0]] + s[1..];
      BelowConcat(t, [s[0]], s[1..]);
      BelowSingle(t, s[0]);
      BelowSingle(s[0], t);
      AboveAndBelow(t, s[1..]);
    }
  }

  /** A value meets the same tiles whichever way the blank and t are placed. */
  lemma {:induction false} CrossUnchanged(a: seq<nat>, mid: seq<nat>, c: seq<nat>, t: nat)
    ensures Cross(a, [0] + mid + [t] + c) == Cross(a, [t] + mid + [0] + c)
  {
    assert [0] + mid + [t] + c == ([0] + mid) + ([t] + c);
    assert [t] + mid + [0] + c == ([t] + mid) + ([0] + c);
    CrossConcatRight(a, [0] + mid, [t] + c);
    CrossConcatRight(a, [0], mid);
    CrossConcatRight(a, [t], c);
    CrossConcatRight(a, [t] + mid, [0] + c);
    CrossConcatRight(a, [t], mid);
    CrossConcatRight(a, [0], c);
  }

  /** With the blank first, t is counted against the tiles of c only. */
  lemma {:induction false} BlankFirst(mid: seq<nat>, c: seq<nat>, t: nat)
    ensures Inversions([0] + mid + [t] + c)
      == Inversions(mid) + Inversions(c) + Cross(mid, c) + Below(t, c) + Cross(mid, [t])
  {
    var m := [0] + mid + [t] + c;
    assert m[0] == 0;
    assert m[1..] == mid + ([t] + c);
    BelowBlank(m);
    InversionsConcat(mid, [t] + c);
    assert ([t] + c)[0] == t;
    assert ([t] + c)[1..] == c;
    BelowConcat(t, [t], c);
    BelowSingle(t, t);
    CrossConcatRight(mid, [t], c);
  }

  /** With t first, t is counted against the tiles of mid and of c. */
  lemma {:induction false} TileFirst(mid: seq<nat>, c: seq<nat>, t: nat)
    ensures Inversions([t] + mid + [0] + c)
      == Inversions(mid) + Inversions(c) + Cross(mid, c) + Below(t, c) + Below(t, mid)
  {
    var m := [t] + mid + [0] + c;
    assert m[0] == t;
    assert m[1..] == mid + ([0] + c);
    assert m == [t] + mid + ([0] + c);
    BelowConcat(t, [t] + mid, [0] + c);
    BelowConcat(t, [t], mid);
    BelowConcat(t, [0], c);
    BelowSingle(t, t);
    BelowSingle(t, 0);
    InversionsConcat(mid, [0] + c);
    assert ([0] + c)[1..] == c;
    BelowBlank([0] + c);
    CrossConcatRight(mid, [0], c);
    CrossBlank(mid);
  }

  /**
   * Exchanging the blank with a tile t that lies |mid| tiles away changes the
   * inversion count by an amount of the parity of |mid|: the two counts add
   * up to |mid| modulo 2.
   */
  lemma {:induction false} SwapParityParts(a: seq<nat>, mid: seq<nat>, c: seq<nat>, t: nat)
    requires t != 0
    requires forall i | 0 <= i < |mid| :: mid[i] != 0 && mid[i] != t
    ensures (Inversions(a + [0] + mid + [t] + c) + Inversions(a + [t] + mid + [0] + c) + |mid|) % 2 == 0
  {
    var m0 := [0] + mid + [t] + c;
    var m1 := [t] + mid + [0] + c;
    assert a + [0] + mid + [t] + c == a + m0;
    assert a + [t] + mid + [0] + c == a + m1;
    var common := SwapCounts(a, mid, c, t);
    Twice(Inversions(a + m0) + Inversions(a + m1) + |mid|, common + |mid|);
  }

  /** The two counts share every pair except those of t with mid, which one of them counts each way. */
  lemma {:induction false} SwapCounts(a: seq<nat>, mid: seq<nat>, c: seq<nat>, t: nat) returns (common: nat)
    requires t != 0
    requires forall i | 0 <= i < |mid| :: mid[i] != 0 && mid[i] != t
    ensures Inversions(a + ([0] + mid + [t] + c)) + Inversions(a + ([t] + mid + [0] + c)) + |mid| == 2 * common + 2 * |mid|
  {
    var m0 := [0] + mid + [t] + c;
    var m1 := [t] + mid + [0] + c;
    InversionsConcat(a, m0);
    InversionsConcat(a, m1);
    CrossUnchanged(a, mid, c, t);
    BlankFirst(mid, c, t);
    TileFirst(mid, c, t);
    AboveAndBelow(t, mid);
    common := Inversions(a) + Cross(a, m0) + Inversions(mid) + Inversions(c) + Cross(mid, c) + Below(t, c);
  }

  lemma Twice(x: nat, k: nat)
    requires x == 2 * k
    ensures x % 2 == 0
  {
  }

  lemma {:induction false} SwapParity(blankFirst: seq<nat>, tileFirst: seq<nat>, a: seq<nat>, mid: seq<nat>, c: seq<nat>, t: nat)
    requires t != 0
    requires forall i | 0 <= i < |mid| :: mid[i] != 0 && mid[i] != t
    requires blankFirst == a + [0] + mid + [t] + c && tileFirst == a + [t] + mid + [0] + c
    ensures (Inversions(blankFirst) + Inversions(tileFirst) + |mid|) % 2 == 0
  {
    SwapParityParts(a, mid, c, t);
  }

  /** Two leading values x, y meet each other once, and each meets the tiles of c. */
  lemma {:induction false} PairInversions(x: nat, y: nat, c: seq<nat>)
    ensures Inversions([x, y] + c) == Below(x, [y]) + Below(x, c) + Below(y, c) + Inversions(c)
  {
    var m := [x, y] + c;
    assert m[0] == x && m[1..] == [y] + c;
    assert m == [x] + ([y] + c);
    BelowConcat(x, [x], [y] + c);
    BelowConcat(x, [y], c);
    BelowSingle(x, x);
    assert ([y] + c)[0] == y && ([y] + c)[1..] == c;
    BelowConcat(y, [y], c);
    BelowSingle(y, y);
  }

  /** The inversions of a, then x and y side by side, then c, split by where each pair lies. */
  lemma {:induction false} SideBySide(a: seq<nat>, x: nat, y: nat, c: seq<nat>)
    ensures Inversions(a + [x, y] + c)
      == Inversions(a) + Cross(a, [x]) + Cross(a, [y]) + Cross(a, c) + Below(x, [y]) + Below(x, c) + Below(y, c) + Inversions(c)
  {
    assert a + [x, y] + c == a + ([x, y] + c);
    InversionsConcat(a, [x, y] + c);
    CrossConcatRight(a, [x, y], c);
    assert [x, y] == [x] + [y];
    CrossConcatRight(a, [x], [y]);
    PairInversions(x, y, c);
  }

  /**
   * Exchanging two different neighbouring tiles changes the inversion count
   * by exactly one: the pair itself turns over and nothing else changes.
   */
  lemma {:induction false} NeighbourTiles(a: seq<nat>, c: seq<nat>, x: nat, y: nat)
    requires x != 0 && y != 0 && x != y
    ensures Inversions(a + [x, y] + c) == Inversions(a + [y, x] + c) + 1
         || Inversions(a + [y, x] + c) == Inversions(a + [x, y] + c) + 1
    ensures (Inversions(a + [x, y] + c) + Inversions(a + [y, x] + c)) % 2 == 1
  {
    SideBySide(a, x, y, c);
    SideBySide(a, y, x, c);
    BelowSingle(x, y);
    BelowSingle(y, x);
    var common := Inversions(a) + Cross(a, [x]) + Cross(a, [y]) + Cross(a, c) + Below(x, c) + Below(y, c) + Inversions(c);
    assert Inversions(a + [x, y] + c) + Inversions(a + [y, x] + c) == 2 * common + 1;
  }

  /** The number of tiles (non-zero values) in s. */
  function TileCount(s: seq<nat>): nat
  {
    if |s| == 0 then 0 else (if s[0] != 0 then 1 else 0) + TileCount(s[1..])
  }

  /**
   * Against a tile t that appears nowhere in s, each tile of s is either
   * larger or smaller than t, and the blanks of s are neither.
   */
  lemma {:induction false} AboveAndBelowTiles(t: nat, s: seq<nat>)
    requires t != 0
    requires forall i | 0 <= i < |s| :: s[i] != t
    ensures Cross(s, [t]) + Below(t, s) == TileCount(s)
  {
    if |s| > 0 {
      assert s == [s[0]] + s[1..];
      BelowConcat(t, [s[0]], s[1..]);
      BelowSingle(t, s[0]);
      BelowSingle(s[0], t);
      AboveAndBelowTiles(t, s[1..]);
    }
  }

  /** The inversions of x, mid, y, c, split by where each pair lies. */
  lemma {:induction false} TailInversions(x: nat, mid: seq<nat>, y: nat, c: seq<nat>)
    ensures Inversions([x] + mid + [y] + c)
      == Below(x, mid) + Below(x, [y]) + Below(x, c) + Inversions(mid) + Cross(mid, [y]) + Cross(mid, c) + Below(y, c) + Inversions(c)
  {
    var r := [x] + mid + [y] + c;
    var rest := mid + ([y] + c);
    assert r[0] == x && r[1..] == rest;
    assert r == [x] + rest;
    BelowConcat(x, [x], rest);
    BelowSingle(x, x);
    BelowConcat(x, mid, [y] + c);
    BelowConcat(x, [y], c);
    InversionsConcat(mid, [y] + c);
    CrossConcatRight(mid, [y], c);
    assert ([y] + c)[0] == y && ([y] + c)[1..] == c;
    BelowConcat(y, [y], c);
    BelowSingle(y, y);
  }

  /** The inversions of a, x, mid, y, c, split by where each pair lies. */
  lemma {:induction false} Spread(a: seq<nat>, x: nat, mid: seq<nat>, y: nat, c: seq<nat>)
    ensures Inversions(a + [x] + mid + [y] + c)
      == Inversions(a) + Cross(a, [x]) + Cross(a, mid) + Cross(a, [y]) + Cross(a, c)
       + Below(x, mid) + Below(x, [y]) + Below(x, c) + Inversions(mid) + Cross(mid, [y]) + Cross(mid, c) + Below(y, c) + Inversions(c)
  {
    var r := [x] + mid + [y] + c;
    assert a + [x] + mid + [y] + c == a + r;
    assert r == [x] + (mid + ([y] + c));
    InversionsConcat(a, r);
    CrossConcatRight(a, [x], mid + ([y] + c));
    CrossConcatRight(a, mid, [y] + c);
    CrossConcatRight(a, [y], c);
    TailInversions(x, mid, y, c);
  }

  /**
   * Exchanging two different tiles x and y with the values mid between them
   * changes the inversion count by an odd amount: the pair itself turns over,
   * and every tile of mid, counted once against x and once against y either
   * way, contributes an even amount.
   */
  lemma {:induction false} DistantTiles(a: seq<nat>, mid: seq<nat>, c: seq<nat>, x: nat, y: nat)
    requires x != 0 && y != 0 && x != y
    requires forall i | 0 <= i < |mid| :: mid[i] != x && mid[i] != y
    ensures (Inversions(a + [x] + mid + [y] + c) + Inversions(a + [y] + mid + [x] + c)) % 2 == 1
  {
    Spread(a, x, mid, y, c);
    Spread(a, y, mid, x, c);
    BelowSingle(x, y);
    BelowSingle(y, x);
    AboveAndBelowTiles(x, mid);
    AboveAndBelowTiles(y, mid);
    var common := Inversions(a) + Cross(a, [x]) + Cross(a, mid) + Cross(a, [y]) + Cross(a, c)
      + Below(x, c) + Inversions(mid) + Cross(mid, c) + Below(y, c) + Inversions(c) + TileCount(mid);
    Odd(Inversions(a + [x] + mid + [y] + c) + Inversions(a + [y] + mid + [x] + c), common);
  }

  lemma Odd(x: nat, k: nat)
    requires x == 2 * k + 1
    ensures x % 2 == 1
  {
  }

  /** The sequence with the values at lo and hi exchanged. */
  function Exchanged(s: seq<nat>, lo: nat, hi: nat): (r: seq<nat>)
    requires lo < |s| && hi < |s|
    ensures |r| == |s|
  {
    s[lo := s[hi]][hi := s[lo]]
  }

  /**
   * Cuts s around lo and hi into a, s[lo], mid, s[hi], c, and the exchanged
   * sequence the same way. The pieces are returned as fresh values so that
   * callers reason about them without the slices of s.
   */
  lemma {:induction false} Pieces(s: seq<nat>, lo: nat, hi: nat) returns (a: seq<nat>, mid: seq<nat>, c: seq<nat>)
    requires lo < hi < |s|
    ensures s == a + [s[lo]] + mid + [s[hi]] + c
    ensures Exchanged(s, lo, hi) == a + [s[hi]] + mid + [s[lo]] + c
    ensures |mid| == hi - lo - 1
    ensures forall i | 0 <= i < |mid| :: mid[i] == s[lo + 1 + i]
  {
    a, mid, c := s[..lo], s[lo + 1..hi], s[hi + 1..];
    var r := Exchanged(s, lo, hi);
    assert r[..lo] == a;
    assert r[lo + 1..hi] == mid;
    assert r[hi + 1..] == c;
    assert r == r[..lo] + [r[lo]] + r[lo + 1..hi] + [r[hi]] + r[hi + 1..];
    assert s == s[..lo] + [s[lo]] + s[lo + 1..hi] + [s[hi]] + s[hi + 1..];
  }

  /**
   * s and e are a + [x] + mid + [y] + c and a + [y] + mid + [x] + c, where
   * x and y are the blank and a tile t, in either order, mid holds k values
   * and none of them is the blank or t.
   */
  predicate Split(s: seq<nat>, e: seq<nat>, a: seq<nat>, mid: seq<nat>, c: seq<nat>, x: nat, y: nat, t: nat, k: int)
  {
    && |mid| == k && t != 0 && ((x == 0 && y == t) || (x == t && y == 0))
    && (forall i | 0 <= i < |mid| :: mid[i] != 0 && mid[i] != t)
    && s == a + [x] + mid + [y] + c && e == a + [y] + mid + [x] + c
  }

  lemma {:induction false} ExchangeAcross(s: seq<nat>, e: seq<nat>, a: seq<nat>, mid: seq<nat>, c: seq<nat>, x: nat, y: nat, t: nat, k: int)
    requires Split(s, e, a, mid, c, x, y, t, k)
    ensures (Inversions(s) + Inversions(e) + k) % 2 == 0
  {
    if x == 0 {
      SwapParity(s, e, a, mid, c, t);
    } else {
      SwapParity(e, s, a, mid, c, t);
    }
  }

  /**
   * In a sequence without repeats whose values at lo and hi are the blank and
   * a tile t, the pieces around lo and hi, with the values between them
   * neither the blank nor t.
   */
  lemma {:induction false} Around(s: seq<nat>, lo: nat, hi: nat) returns (e: seq<nat>, a: seq<nat>, mid: seq<nat>, c: seq<nat>, x: nat, y: nat, t: nat)
    requires lo < hi < |s|
    requires s[lo] == 0 || s[hi] == 0
    requires forall p, q | 0 <= p < q < |s| :: s[p] != s[q]
    ensures e == Exchanged(s, lo, hi)
    ensures Split(s, e, a, mid, c, x, y, t, hi - lo - 1)
  {
    e := Exchanged(s, lo, hi);
    x, y := s[lo], s[hi];
    t := if x == 0 then y else x;
    a, mid, c := Pieces(s, lo, hi);
    forall i | 0 <= i < |mid|
      ensures mid[i] != 0 && mid[i] != t
    {
      assert s[lo] != s[lo + 1 + i] && s[lo + 1 + i] != s[hi];
    }
  }

  /**
   * In a sequence without repeats, exchanging the blank with the value
   * hi - lo positions away changes the inversion parity exactly when
   * hi - lo - 1 is odd.
   */
  lemma {:induction false} ExchangeParity(s: seq<nat>, lo: nat, hi: nat)
    requires lo < hi < |s|
    requires s[lo] == 0 || s[hi] == 0
    requires forall p, q | 0 <= p < q < |s| :: s[p] != s[q]
    ensures (Inversions(s) + Inversions(Exchanged(s, lo, hi)) + (hi - lo - 1)) % 2 == 0
  {
    var e, a, mid, c, x, y, t := Around(s, lo, hi);
    ExchangeAcross(s, e, a, mid, c, x, y, t, hi - lo - 1);
  }

  /** Exchanging two different tiles that stand side by side flips the parity of the inversion count. */
  lemma ExchangeNeighbours(s: seq<nat>, p: nat)
    requires p + 1 < |s| && s[p] != 0 && s[p + 1] != 0 && s[p] != s[p + 1]
    ensures (Inversions(s) + Inversions(Exchanged(s, p, p + 1))) % 2 == 1
  {
    var a, c := s[..p], s[p + 2..];
    assert s == a + [s[p], s[p + 1]] + c;
    assert Exchanged(s, p, p + 1) == a + [s[p + 1], s[p]] + c;
    NeighbourTiles(a, c, s[p], s[p + 1]);
  }

  /**
   * In a sequence without repeats, exchanging any two tiles flips the parity
   * of the inversion count, however far apart they stand.
   */
  lemma {:induction false} ExchangeTiles(s: seq<nat>, lo: nat, hi: nat)
    requires lo < hi < |s| && s[lo] != 0 && s[hi] != 0
    requires forall p, q | 0 <= p < q < |s| :: s[p] != s[q]
    ensures (Inversions(s) + Inversions(Exchanged(s, lo, hi))) % 2 == 1
  {
    var a, mid, c := Pieces(s, lo, hi);
    forall i | 0 <= i < |mid|
      ensures mid[i] != s[lo] && mid[i] != s[hi]
    {
      assert s[lo] != s[lo + 1 + i] && s[lo + 1 + i] != s[hi];
    }
    DistantTiles(a, mid, c, s[lo], s[hi]);
  }

  /** Below read by index: the tiles among s[lo], ..., s[hi - 1] that are smaller than v. */
  function BelowIn(v: nat, s: seq<nat>, lo: nat, hi: nat): nat
    requires lo <= hi <= |s|
    decreases hi - lo
  {
    if lo == hi then 0 else BelowIn(v, s, lo, hi - 1) + (if s[hi - 1] != 0 && v > s[hi - 1] then 1 else 0)
  }

  /** Inversions read by index: the inversions whose first value is at index p or later. */
  function InversionsAfter(s: seq<nat>, p: nat): nat
    requires p <= |s|
    decreases |s| - p
  {
    if p == |s| then 0 else BelowIn(s[p], s, p, |s|) + InversionsAfter(s, p + 1)
  }

  lemma {:induction false} BelowInSlice(v: nat, s: seq<nat>, lo: nat, hi: nat)
    requires lo <= hi <= |s|
    ensures BelowIn(v, s, lo, hi) == Below(v, s[lo..hi])
    decreases hi - lo
  {
    if lo < hi {
      BelowInSlice(v, s, lo, hi - 1);
      assert s[lo..hi][..hi - lo - 1] == s[lo..hi - 1];
    }
  }

  /** Reading by index counts the same inversions as the suffix s[p..]. */
  lemma {:induction false} InversionsAfterSlice(s: seq<nat>, p: nat)
    requires p <= |s|
    ensures InversionsAfter(s, p) == Inversions(s[p..])
    decreases |s| - p
  {
    if p < |s| {
      InversionsAfterSlice(s, p + 1);
      BelowInSlice(s[p], s, p, |s|);
      assert s[p..|s|] == s[p..];
      assert s[p..][1..] == s[p + 1..];
    }
  }

  /** The blank is smaller than no tile of any window. */
  lemma {:induction false} BelowInBlank(s: seq<nat>, lo: nat, hi: nat)
    requires lo <= hi <= |s|
    ensures BelowIn(0, s, lo, hi) == 0
    decreases hi - lo
  {
    if lo < hi {
      BelowInBlank(s, lo, hi - 1);
    }
  }

  /** A value counts no tile of s when no tile of s is smaller. */
  lemma {:induction false} BelowNone(v: nat, s: seq<nat>)
    requires forall k | 0 <= k < |s| :: s[k] == 0 || s[k] >= v
    ensures Below(v, s) == 0
  {
    if |s| > 0 {
      BelowNone(v, s[..|s| - 1]);
    }
  }

  /** A sequence whose tiles increase from left to right has no inversion. */
  lemma {:induction false} AscendingNone(s: seq<nat>)
    requires forall p, q | 0 <= p < q < |s| && s[p] != 0 && s[q] != 0 :: s[p] < s[q]
    ensures Inversions(s) == 0
  {
    if |s| > 0 {
      if s[0] == 0 {
        BelowBlank(s);
      } else {
        BelowNone(s[0], s);
      }
      AscendingNone(s[1..]);
    }
  }
}
