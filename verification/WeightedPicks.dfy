/**
 Weighted round robin as arithmetic: a counter value picks a target, and every window of as many picks
 as the total weight gives each target exactly its share.
 */
module WeightedPicks {

  /** A weight of zero or less counts as one. */
  function Share(weight: int): (s: nat)
    ensures s >= 1
  {
    if weight <= 0 then 1 else weight
  }

  function Sum(ws: seq<nat>): nat
  {
    if ws == [] then 0 else Sum(ws[..|ws|-1]) + ws[|ws|-1]
  }

  predicate Positive(ws: seq<nat>)
  {
    ws != [] && forall i :: 0 <= i < |ws| ==> ws[i] >= 1
  }

  /** Target `j` owns the positions from the sum of the shares before it up to the sum including it. */
  function PickIndex(ws: seq<nat>, pos: nat): (j: nat)
    requires pos < Sum(ws)
    ensures j < |ws|
    ensures Sum(ws[..j]) <= pos < Sum(ws[..j+1])
  {
    var n := |ws| - 1;
    assert ws[..|ws|] == ws;
    if pos >= Sum(ws[..n]) then n
    else
      var j := PickIndex(ws[..n], pos);
      assert ws[..n][..j] == ws[..j] && ws[..n][..j+1] == ws[..j+1];
      j
  }

  lemma {:induction false} SumMonotone(ws: seq<nat>, i: nat, j: nat)
    requires i <= j <= |ws|
    ensures Sum(ws[..i]) <= Sum(ws[..j])
  {
    if i < j {
      SumMonotone(ws, i, j - 1);
      assert ws[..j][..j-1] == ws[..j-1];
    }
  }

  lemma SumStep(ws: seq<nat>, j: nat)
    requires j < |ws|
    ensures Sum(ws[..j+1]) == Sum(ws[..j]) + ws[j]
  {
    assert ws[..j+1][..j] == ws[..j];
  }

  /** Being picked is lying in one's own stretch of positions. */
  lemma PickIff(ws: seq<nat>, pos: nat, j: nat)
    requires pos < Sum(ws) && j < |ws|
    ensures PickIndex(ws, pos) == j <==> Sum(ws[..j]) <= pos < Sum(ws[..j+1])
  {
    var i := PickIndex(ws, pos);
    if i < j {
      SumMonotone(ws, i + 1, j);
    } else if j < i {
      SumMonotone(ws, j + 1, i);
    }
  }

  // ---------------------------------------------------------------- remainders

  /** The remainder, by repeated subtraction. */
  function Mod(x: nat, w: nat): (r: nat)
    requires w > 0
    ensures r < w
    decreases x
  {
    if x < w then x else Mod(x - w, w)
  }

  lemma Distribute(a: int, b: int, w: int)
    ensures (a - b) * w == a * w - b * w
  {
  }

  lemma AtLeastOnce(d: int, w: nat)
    requires d >= 1
    ensures d * w >= w
  {
  }

  /** It is the language's remainder. */
  lemma {:induction false} ModIsRemainder(x: nat, w: nat)
    requires w > 0
    ensures x % w == Mod(x, w)
    decreases x
  {
    if x >= w {
      ModIsRemainder(x - w, w);
      RemainderPeriod(x, w);
    } else {
      Quotient(x, 0, x, w);
    }
  }

  lemma RemainderPeriod(x: nat, w: nat)
    requires x >= w > 0
    ensures x % w == (x - w) % w
  {
    var q := (x - w) / w;
    Distribute(q, -1, w);
    Quotient(x, q + 1, (x - w) % w, w);
  }

  lemma Quotient(x: nat, q: int, r: nat, w: nat)
    requires w > 0 && r < w && x == q * w + r
    ensures x % w == r
  {
    var k := x / w;
    Distribute(q, k, w);
    Distribute(k, q, w);
    if q > k {
      AtLeastOnce(q - k, w);
    } else if q < k {
      AtLeastOnce(k - q, w);
    }
  }

  /** Adding a multiple changes nothing. */
  lemma {:induction false} ModShift(x: nat, m: nat, w: nat)
    requires w > 0 && Mod(m, w) == 0
    ensures Mod(x + m, w) == Mod(x, w)
    decreases m
  {
    if m >= w {
      ModShift(x, m - w, w);
    }
  }

  lemma {:induction false} ModOfMod(x: nat, m: nat, w: nat)
    requires m > 0 && w > 0 && Mod(m, w) == 0
    ensures Mod(Mod(x, m), w) == Mod(x, w)
    decreases x
  {
    if x >= m {
      ModOfMod(x - m, m, w);
      ModShift(x - m, m, w);
    }
  }

  lemma {:induction false} ModPred(m: nat, w: nat)
    requires w > 0 && Mod(m, w) > 0
    ensures m > 0 && Mod(m - 1, w) == Mod(m, w) - 1
    decreases m
  {
    if m >= w {
      ModPred(m - w, w);
    }
  }

  // ---------------------------------------------------------------- counting over windows

  /** The sum of `f` over the positions that the `n` counter values from `c` on fall on, without
      wrap-around of the counter. */
  function Count(f: nat -> nat, w: nat, c: nat, n: nat): nat
    requires w > 0
  {
    if n == 0 then 0 else Count(f, w, c, n - 1) + f(Mod(c + n - 1, w))
  }

  lemma {:induction false} CountFirst(f: nat -> nat, w: nat, c: nat, n: nat)
    requires w > 0 && n > 0
    ensures Count(f, w, c, n) == f(Mod(c, w)) + Count(f, w, c + 1, n - 1)
  {
    if n > 1 {
      CountFirst(f, w, c, n - 1);
    }
  }

  /** A window as long as the period counts the same wherever it starts. */
  lemma {:induction false} WindowAnywhere(f: nat -> nat, w: nat, c: nat)
    requires w > 0
    ensures Count(f, w, c, w) == Count(f, w, 0, w)
  {
    if c > 0 {
      WindowAnywhere(f, w, c - 1);
      CountFirst(f, w, c - 1, w);
      assert Mod(c - 1 + w, w) == Mod(c - 1, w);
    }
  }

  /** The same count for a counter that wraps around at `m`. */
  function WrappedCount(f: nat -> nat, w: nat, c: nat, n: nat, m: nat): nat
    requires w > 0 && m > 0
  {
    if n == 0 then 0 else WrappedCount(f, w, c, n - 1, m) + f(Mod(Mod(c + n - 1, m), w))
  }

  lemma {:induction false} NoWrap(f: nat -> nat, w: nat, c: nat, n: nat, m: nat)
    requires w > 0 && m > 0 && c + n <= m
    ensures WrappedCount(f, w, c, n, m) == Count(f, w, c, n)
  {
    if n > 0 {
      NoWrap(f, w, c, n - 1, m);
    }
  }

  lemma {:induction false} DividesNoHarm(f: nat -> nat, w: nat, c: nat, n: nat, m: nat)
    requires w > 0 && m > 0 && Mod(m, w) == 0
    ensures WrappedCount(f, w, c, n, m) == Count(f, w, c, n)
  {
    if n > 0 {
      DividesNoHarm(f, w, c, n - 1, m);
      ModOfMod(c + n - 1, m, w);
    }
  }

  lemma {:induction false} WrappedFirst(f: nat -> nat, w: nat, c: nat, n: nat, m: nat)
    requires w > 0 && m > 0 && n > 0
    ensures WrappedCount(f, w, c, n, m) == f(Mod(Mod(c, m), w)) + WrappedCount(f, w, c + 1, n - 1, m)
  {
    if n > 1 {
      WrappedFirst(f, w, c, n - 1, m);
    }
  }

  lemma {:induction false} WrappedFromZero(f: nat -> nat, w: nat, n: nat, m: nat)
    requires w > 0 && n <= m && m > 0
    ensures WrappedCount(f, w, m, n, m) == Count(f, w, 0, n)
  {
    if n > 0 {
      WrappedFromZero(f, w, n - 1, m);
      assert Mod(m + n - 1, m) == n - 1;
    }
  }

  lemma ModBelow(c: nat, m: nat, w: nat)
    requires 0 < w < m == c + 1 && Mod(m, w) > 0
    ensures Mod(Mod(c, m), w) == Mod(m, w) - 1
  {
    assert Mod(c, m) == c;
    ModPred(m, w);
  }

  lemma FirstAtLastValue(f: nat -> nat, w: nat, m: nat, c: nat)
    requires 0 < w < m == c + 1 && Mod(m, w) > 0
    ensures WrappedCount(f, w, c, w, m) == f(Mod(m, w) - 1) + WrappedCount(f, w, c + 1, w - 1, m)
  {
    ModBelow(c, m, w);
    WrappedFirst(f, w, c, w, m);
  }

  /** A window that starts at the last counter value trades the last position for the one before the
      remainder. */
  lemma WrapAfterOne(f: nat -> nat, w: nat, m: nat)
    requires 0 < w < m && Mod(m, w) > 0
    ensures WrappedCount(f, w, m - 1, w, m) == f(Mod(m, w) - 1) + Count(f, w, 0, w) - f(w - 1)
  {
    FirstAtLastValue(f, w, m, m - 1);
    WrappedFromZero(f, w, w - 1, m);
    CountLast(f, w);
  }

  lemma CountLast(f: nat -> nat, w: nat)
    requires w > 0
    ensures Count(f, w, 0, w) == Count(f, w, 0, w - 1) + f(w - 1)
  {
  }

  /** A window that ends at counter value zero trades the remainder's position for the first. */
  lemma WrapBeforeLast(f: nat -> nat, w: nat, m: nat)
    requires 0 < w < m
    ensures WrappedCount(f, w, m - w + 1, w, m) == Count(f, w, 0, w) - f(Mod(m, w)) + f(0)
  {
    NoWrap(f, w, m - w + 1, w - 1, m);
    assert Mod(m, m) == 0;
    WindowAnywhere(f, w, m - w);
    CountFirst(f, w, m - w, w);
  }

  // ---------------------------------------------------------------- shares

  /** 1 on the positions that pick target `j`, else 0. */
  ghost function Picks(ws: seq<nat>, j: nat): nat -> nat
  {
    (pos: nat) => if pos < Sum(ws) && PickIndex(ws, pos) == j then 1 else 0
  }

  lemma PicksIff(ws: seq<nat>, pos: nat, j: nat)
    requires pos < Sum(ws) && j < |ws|
    ensures Picks(ws, j)(pos) == if Sum(ws[..j]) <= pos < Sum(ws[..j+1]) then 1 else 0
  {
    PickIff(ws, pos, j);
  }

  /** Among the first `n` positions, those that lie in a stretch. */
  lemma {:induction false} StretchCount(f: nat -> nat, w: nat, lo: nat, hi: nat, n: nat)
    requires w > 0 && n <= w && lo <= hi
    requires forall p: nat :: p < w ==> f(p) == if lo <= p < hi then 1 else 0
    ensures Count(f, w, 0, n) == if n <= lo then 0 else if n <= hi then n - lo else hi - lo
  {
    if n > 0 {
      StretchCount(f, w, lo, hi, n - 1);
      assert Mod(n - 1, w) == n - 1;
    }
  }

  lemma CountAll(ws: seq<nat>, j: nat)
    requires j < |ws| && 0 < Sum(ws)
    ensures Count(Picks(ws, j), Sum(ws), 0, Sum(ws)) == ws[j]
  {
    var lo, hi := Sum(ws[..j]), Sum(ws[..j+1]);
    SumStep(ws, j);
    SumMonotone(ws, j + 1, |ws|);
    assert ws[..|ws|] == ws;
    forall p: nat | p < Sum(ws) ensures Picks(ws, j)(p) == if lo <= p < hi then 1 else 0 {
      PicksIff(ws, p, j);
    }
    StretchCount(Picks(ws, j), Sum(ws), lo, hi, Sum(ws));
  }

  /** How often target `j` is picked by the `n` selections from counter value `c` on, the counter wrapping
      around at `m`. */
  ghost function TimesPicked(ws: seq<nat>, j: nat, c: nat, n: nat, m: nat): nat
    requires Sum(ws) > 0 && m > 0
  {
    WrappedCount(Picks(ws, j), Sum(ws), c, n, m)
  }

  /** Short of the wrap-around, every window of total-weight many selections picks each target exactly its
      share of times, whatever the counter value it starts at. */
  lemma WindowExact(ws: seq<nat>, j: nat, c: nat, m: nat)
    requires 0 < Sum(ws) && j < |ws| && m > 0 && c + Sum(ws) <= m
    ensures TimesPicked(ws, j, c, Sum(ws), m) == ws[j]
  {
    NoWrap(Picks(ws, j), Sum(ws), c, Sum(ws), m);
    WindowAnywhere(Picks(ws, j), Sum(ws), c);
    CountAll(ws, j);
  }

  ghost predicate FairFrom(ws: seq<nat>, c: nat, m: nat)
    requires Sum(ws) > 0 && m > 0
  {
    forall j :: 0 <= j < |ws| ==> TimesPicked(ws, j, c, Sum(ws), m) == ws[j]
  }

  lemma FairWhenDividing(ws: seq<nat>, c: nat, m: nat)
    requires 0 < Sum(ws) && m > 0 && Mod(m, Sum(ws)) == 0
    ensures FairFrom(ws, c, m)
  {
    forall j | 0 <= j < |ws| ensures TimesPicked(ws, j, c, Sum(ws), m) == ws[j] {
      DividesNoHarm(Picks(ws, j), Sum(ws), c, Sum(ws), m);
      WindowAnywhere(Picks(ws, j), Sum(ws), c);
      CountAll(ws, j);
    }
  }

  lemma {:induction false} OneTarget(ws: seq<nat>, c: nat, n: nat, m: nat)
    requires Sum(ws) > 0 && m > 0 && |ws| == 1
    ensures TimesPicked(ws, 0, c, n, m) == n
  {
    if n > 0 {
      OneTarget(ws, c, n - 1, m);
    }
  }

  lemma UnfairWindow(ws: seq<nat>, m: nat)
    requires Positive(ws) && 0 < Sum(ws) < m && Mod(m, Sum(ws)) > 0 && |ws| > 1
    ensures !FairFrom(ws, m - 1, m) || !FairFrom(ws, m - Sum(ws) + 1, m)
  {
    var w, r, last := Sum(ws), Mod(m, Sum(ws)), |ws| - 1;
    WrapAfterOne(Picks(ws, last), w, m);
    CountAll(ws, last);
    WrapBeforeLast(Picks(ws, 0), w, m);
    CountAll(ws, 0);
    EndPositions(ws);
    EndsDiffer(ws, r);
  }

  lemma EndPositions(ws: seq<nat>)
    requires Positive(ws) && |ws| > 1
    ensures Sum(ws) > 0 && Picks(ws, |ws| - 1)(Sum(ws) - 1) == 1 && Picks(ws, 0)(0) == 1
  {
    Boundaries(ws);
    PicksIff(ws, Sum(ws) - 1, |ws| - 1);
    PicksIff(ws, 0, 0);
  }

  /** No position can be picked by the first target while the one before it is picked by the last. */
  lemma EndsDiffer(ws: seq<nat>, r: nat)
    requires Positive(ws) && |ws| > 1 && 0 < r < Sum(ws)
    ensures Picks(ws, 0)(r) != 1 || Picks(ws, |ws| - 1)(r - 1) != 1
  {
    Boundaries(ws);
    PicksIff(ws, r, 0);
    PicksIff(ws, r - 1, |ws| - 1);
  }

  lemma Boundaries(ws: seq<nat>)
    requires Positive(ws) && |ws| > 1
    ensures Sum(ws[..0]) == 0 && 1 <= Sum(ws[..1]) <= Sum(ws[..|ws|-1]) < Sum(ws[..|ws|]) == Sum(ws)
  {
    assert ws[..|ws|] == ws;
    SumStep(ws, |ws| - 1);
    SumStep(ws, 0);
    SumMonotone(ws, 1, |ws| - 1);
  }

  /** Windows stay exact wherever they start, across the wrap-around included, precisely when the total
      weight divides the counter's range or there is a single target. */
  lemma FairAcrossWrapIff(ws: seq<nat>, m: nat)
    requires Positive(ws) && 0 < Sum(ws) < m
    ensures (forall c: nat :: c < m ==> FairFrom(ws, c, m)) <==> (Mod(m, Sum(ws)) == 0 || |ws| == 1)
  {
    if Mod(m, Sum(ws)) == 0 {
      forall c: nat | c < m ensures FairFrom(ws, c, m) {
        FairWhenDividing(ws, c, m);
      }
    } else if |ws| == 1 {
      forall c: nat | c < m ensures FairFrom(ws, c, m) {
        OneTarget(ws, c, Sum(ws), m);
        assert ws[..0] == [];
      }
    } else {
      UnfairWindow(ws, m);
    }
  }
}
