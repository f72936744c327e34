/**
 Exponentially weighted moving averages of response times, kept in 64-bit integers that concurrent
 recorders update by compare-and-swap.
 */
module Ewma {
  /** An average of zero means that nothing has been recorded. */
  const ALPHA_SCALE := 300

  /** Integer division as Go performs it, towards zero. */
  function Truncate(n: int, d: nat): int
    requires d > 0
  {
    if n >= 0 then n / d else -(-n / d)
  }

  function Blend(was: int, x: int): int
  {
    Truncate(ALPHA_SCALE * x + (1000 - ALPHA_SCALE) * was, 1000)
  }

  function Update(was: int, x: int): int
  {
    if was == 0 then x else Blend(was, x)
  }

  /** The average after recording samples one after the other. */
  function Fold(v: int, xs: seq<int>): int
  {
    if xs == [] then v else Update(Fold(v, xs[..|xs|-1]), xs[|xs|-1])
  }

  /** The first sample is the average. */
  lemma FirstSample(x: int)
    ensures Fold(0, [x]) == x
  {
    assert [x][..0] == [];
  }

  /** Every further one counts three tenths, the average so far seven, rounded towards zero. */
  lemma FurtherSample(v: int, x: int)
    requires v != 0
    ensures var exact, r := 300 * x + 700 * v, Update(v, x);
      if exact >= 0 then 1000 * r <= exact < 1000 * r + 1000 else 1000 * r - 1000 < exact <= 1000 * r
  {
  }

  lemma {:induction false} FoldAppend(v: int, a: seq<int>, b: seq<int>)
    ensures Fold(v, a + b) == Fold(Fold(v, a), b)
  {
    if b == [] {
      assert a + b == a;
    } else {
      assert (a + b)[..|a + b| - 1] == a + b[..|b|-1];
      FoldAppend(v, a, b[..|b|-1]);
    }
  }

  // ---------------------------------------------------------------- range

  lemma UpdateWithin(was: int, x: int, lo: int, hi: int)
    requires lo <= x <= hi
    requires was == 0 || lo <= was <= hi
    ensures lo <= Update(was, x) <= hi
  {
    if was != 0 {
      assert 1000 * lo <= ALPHA_SCALE * x + (1000 - ALPHA_SCALE) * was <= 1000 * hi;
    }
  }

  lemma {:induction false} FoldWithin(xs: seq<int>, lo: int, hi: int)
    requires xs != [] && forall i :: 0 <= i < |xs| ==> lo <= xs[i] <= hi
    ensures lo <= Fold(0, xs) <= hi
  {
    var front := xs[..|xs|-1];
    if front != [] {
      FoldWithin(front, lo, hi);
    }
    UpdateWithin(Fold(0, front), xs[|xs|-1], lo, hi);
  }

  function Least(xs: seq<int>): (m: int)
    requires xs != []
    ensures m in xs && forall i :: 0 <= i < |xs| ==> m <= xs[i]
  {
    if |xs| == 1 then xs[0] else
    var m := Least(xs[1..]);
    assert forall i :: 0 < i < |xs| ==> xs[i] == xs[1..][i-1];
    if xs[0] < m then xs[0] else m
  }

  function Greatest(xs: seq<int>): (m: int)
    requires xs != []
    ensures m in xs && forall i :: 0 <= i < |xs| ==> xs[i] <= m
  {
    if |xs| == 1 then xs[0] else
    var m := Greatest(xs[1..]);
    assert forall i :: 0 < i < |xs| ==> xs[i] == xs[1..][i-1];
    if xs[0] > m then xs[0] else m
  }

  /** No run of the 64-bit arithmetic overflows while the samples stay below the largest duration divided
      by a thousand (about 106 days). */
  lemma NoOverflow(xs: seq<int>, x: int)
    requires forall i :: 0 <= i < |xs| ==> 0 <= xs[i] <= 0x7FFF_FFFF_FFFF_FFFF / 1000
    requires 0 <= x <= 0x7FFF_FFFF_FFFF_FFFF / 1000
    ensures 0 <= ALPHA_SCALE * x + (1000 - ALPHA_SCALE) * Fold(0, xs) <= 0x7FFF_FFFF_FFFF_FFFF
  {
    if xs != [] {
      FoldWithin(xs, 0, 0x7FFF_FFFF_FFFF_FFFF / 1000);
    }
  }

  // ---------------------------------------------------------------- against exact arithmetic

  /** The average the integers approximate. */
  ghost function Exact(xs: seq<int>): real
    requires xs != []
  {
    if |xs| == 1 then xs[0] as real
    else 0.3 * xs[|xs|-1] as real + 0.7 * Exact(xs[..|xs|-1])
  }

  lemma BlendError(v: int, x: int, e: real)
    requires v >= 0 && x >= 0 && 0.0 <= e - v as real <= 3.33
    ensures 0.0 <= 0.3 * x as real + 0.7 * e - Blend(v, x) as real <= 3.33
  {
    var n := ALPHA_SCALE * x + (1000 - ALPHA_SCALE) * v;
    var q := Blend(v, x);
    assert 1000 * q <= n <= 1000 * q + 999;
    assert n as real == 300.0 * x as real + 700.0 * v as real;
    assert 1000.0 * q as real <= n as real <= 1000.0 * q as real + 999.0;
  }

  /** On positive samples, rounding never costs more than 3.33 units in all, however long the run, and
      only ever downwards. */
  lemma {:induction false} NearExact(xs: seq<int>)
    requires xs != [] && forall i :: 0 <= i < |xs| ==> xs[i] > 0
    ensures 0.0 <= Exact(xs) - Fold(0, xs) as real <= 3.33
  {
    var front, x := xs[..|xs|-1], xs[|xs|-1];
    if front != [] {
      NearExact(front);
      FoldWithin(front, 1, Greatest(front));
      BlendError(Fold(0, front), x, Exact(front));
    }
  }

  /** The marker for "nothing recorded" is an ordinary average once samples may be zero: recording then
      starts afresh, which differs from averaging exactly when the average is zero and the sample is not. */
  lemma MarkerDiffersIff(was: nat, x: nat)
    ensures Update(was, x) != Blend(was, x) <==> was == 0 && x != 0
  {
  }

  // ---------------------------------------------------------------- a constant sample

  function Repeat(v: int, s: int, n: nat): int
  {
    if n == 0 then v else Update(Repeat(v, s, n - 1), s)
  }

  /** Where a run of one constant sample ends: on the sample itself from above or from nothing, three
      below it when coming from further below. */
  function Settled(v: nat, s: nat): int
  {
    if v == 0 || v > s then s else if v < s - 3 then s - 3 else v
  }

  lemma FixedIff(v: nat, s: nat)
    ensures Update(v, s) == v <==> (v == 0 && s == 0) || (v > 0 && s - 3 <= v <= s)
  {
  }

  function Distance(v: nat, s: nat): nat
  {
    if v == 0 then (if s == 0 then 0 else 1) else if v >= s then v - s else s - v
  }

  lemma StepCloser(v: nat, s: nat)
    ensures Update(v, s) >= 0
    ensures Settled(Update(v, s), s) == Settled(v, s)
    ensures v > s ==> s <= Update(v, s) < v
    ensures 0 < v < s ==> v <= Update(v, s) < s
    ensures v != Settled(v, s) ==> Update(v, s) == Settled(v, s) || Distance(Update(v, s), s) < Distance(v, s)
  {
  }

  /** A constant sample drives any average to exactly the settled value, strictly decreasing while above
      it, in no more steps than the distance, and leaves it there. */
  lemma {:induction false} Settles(v: nat, s: nat, n: nat)
    ensures Repeat(v, s, n) >= 0
    ensures Settled(Repeat(v, s, n), s) == Settled(v, s)
    ensures Repeat(v, s, n) == Settled(v, s) || Distance(Repeat(v, s, n), s) <= Distance(v, s) - n
    ensures n >= Distance(v, s) ==> Repeat(v, s, n) == Settled(v, s)
    ensures s - 3 <= Settled(v, s) <= s
  {
    if n > 0 {
      Settles(v, s, n - 1);
      StepCloser(Repeat(v, s, n - 1), s);
      FixedIff(Settled(v, s), s);
    }
  }

  // ---------------------------------------------------------------- concurrent recorders

  /** A recorder between its load and its swap remembers what it loaded, and how many samples had been
      recorded by then. */
  datatype Phase = Ready | Holding(was: int, since: nat) | Recorded

  /** One cell, its recorders, and the recorders that have finished, in that order. */
  datatype Cell = Cell(value: int, recorders: seq<Phase>, finished: seq<nat>)

  datatype Op = Load(id: nat) | Swap(id: nat)

  function Start(n: nat): Cell
  {
    Cell(0, seq(n, i => Ready), [])
  }

  /** `xs[id]` is the sample of recorder `id`. A swap that finds another value sends its recorder back to
      the load. */
  function Step(xs: seq<int>, c: Cell, op: Op): Cell
    requires |xs| == |c.recorders|
  {
    match op
    case Load(id) =>
      if id < |xs| && c.recorders[id].Ready? then
        c.(recorders := c.recorders[id := Holding(c.value, |c.finished|)])
      else c
    case Swap(id) =>
      if id >= |xs| || !c.recorders[id].Holding? then c
      else if c.value == c.recorders[id].was then
        Cell(Update(c.value, xs[id]), c.recorders[id := Recorded], c.finished + [id])
      else c.(recorders := c.recorders[id := Ready])
  }

  function Run(xs: seq<int>, ops: seq<Op>): (c: Cell)
    ensures |c.recorders| == |xs|
  {
    if ops == [] then Start(|xs|) else Step(xs, Run(xs, ops[..|ops|-1]), ops[|ops|-1])
  }

  /** The samples of some recorders, in their order. */
  function Samples(xs: seq<int>, ids: seq<nat>): seq<int>
    requires forall i :: 0 <= i < |ids| ==> ids[i] < |xs|
  {
    if ids == [] then [] else Samples(xs, ids[..|ids|-1]) + [xs[ids[|ids|-1]]]
  }

  function Average(xs: seq<int>, ids: seq<nat>): int
    requires forall i :: 0 <= i < |ids| ==> ids[i] < |xs|
  {
    Fold(0, Samples(xs, ids))
  }

  lemma AverageSnoc(xs: seq<int>, ids: seq<nat>, id: nat)
    requires id < |xs| && forall i :: 0 <= i < |ids| ==> ids[i] < |xs|
    ensures Average(xs, ids + [id]) == Update(Average(xs, ids), xs[id])
  {
    assert (ids + [id])[..|ids|] == ids;
    var ys := Samples(xs, ids + [id]);
    assert ys == Samples(xs, ids) + [xs[id]];
    assert ys[..|ys|-1] == Samples(xs, ids);
  }

  /** Each recorder that has finished is in the order once, and no other. */
  ghost predicate Ordered(xs: seq<int>, c: Cell)
  {
    && |c.recorders| == |xs|
    && (forall i :: 0 <= i < |c.finished| ==> c.finished[i] < |xs| && c.recorders[c.finished[i]].Recorded?)
    && (forall i, j :: 0 <= i < j < |c.finished| ==> c.finished[i] != c.finished[j])
    && (forall id :: 0 <= id < |xs| && c.recorders[id].Recorded? ==> id in c.finished)
  }

  /** What recorder `id` holds was the average when it loaded. */
  ghost predicate HoldsPast(xs: seq<int>, c: Cell, id: nat)
    requires Ordered(xs, c) && id < |xs|
  {
    c.recorders[id].Holding? ==>
      && c.recorders[id].since <= |c.finished|
      && c.recorders[id].was == Average(xs, c.finished[..c.recorders[id].since])
  }

  ghost predicate Inv(xs: seq<int>, c: Cell)
  {
    && Ordered(xs, c)
    && c.value == Average(xs, c.finished)
    && forall id :: 0 <= id < |xs| ==> HoldsPast(xs, c, id)
  }

  lemma SwapKeepsOrder(xs: seq<int>, c: Cell, id: nat, v: int)
    requires Ordered(xs, c) && id < |xs| && !c.recorders[id].Recorded?
    ensures Ordered(xs, Cell(v, c.recorders[id := Recorded], c.finished + [id]))
  {
    var finished := c.finished + [id];
    assert finished[|c.finished|] == id;
    assert forall x :: x in c.finished ==> x in finished;
  }

  lemma SwapKeepsPast(xs: seq<int>, c: Cell, d: Cell, id: nat, k: nat)
    requires Ordered(xs, c) && Ordered(xs, d) && id < |xs| && k < |xs| && HoldsPast(xs, c, k)
    requires d.recorders == c.recorders[id := Recorded] && d.finished == c.finished + [id]
    ensures HoldsPast(xs, d, k)
  {
    if d.recorders[k].Holding? {
      assert d.finished[..d.recorders[k].since] == c.finished[..c.recorders[k].since];
    }
  }

  lemma SwapKeepsInv(xs: seq<int>, c: Cell, id: nat)
    requires Inv(xs, c) && id < |xs| && c.recorders[id].Holding? && c.value == c.recorders[id].was
    ensures Inv(xs, Step(xs, c, Swap(id)))
  {
    var d := Cell(Update(c.value, xs[id]), c.recorders[id := Recorded], c.finished + [id]);
    assert Step(xs, c, Swap(id)) == d;
    SwapKeepsOrder(xs, c, id, d.value);
    AverageSnoc(xs, c.finished, id);
    forall k | 0 <= k < |xs|
      ensures HoldsPast(xs, d, k)
    {
      SwapKeepsPast(xs, c, d, id, k);
    }
  }

  lemma PhaseKeepsInv(xs: seq<int>, c: Cell, id: nat, p: Phase)
    requires Inv(xs, c) && id < |xs| && !c.recorders[id].Recorded?
    requires p == Ready || p == Holding(c.value, |c.finished|)
    ensures Inv(xs, c.(recorders := c.recorders[id := p]))
  {
    var d := c.(recorders := c.recorders[id := p]);
    assert c.finished[..|c.finished|] == c.finished;
    assert Ordered(xs, d);
    forall k | 0 <= k < |xs|
      ensures HoldsPast(xs, d, k)
    {
      assert HoldsPast(xs, c, k);
    }
  }

  lemma StepKeepsInv(xs: seq<int>, c: Cell, op: Op)
    requires Inv(xs, c)
    ensures Inv(xs, Step(xs, c, op))
  {
    if Step(xs, c, op) != c {
      if op.Swap? && c.value == c.recorders[op.id].was {
        SwapKeepsInv(xs, c, op.id);
      } else {
        PhaseKeepsInv(xs, c, op.id, if op.Load? then Holding(c.value, |c.finished|) else Ready);
      }
    }
  }

  lemma {:induction false} RunKeepsInv(xs: seq<int>, ops: seq<Op>)
    ensures Inv(xs, Run(xs, ops))
  {
    if ops != [] {
      RunKeepsInv(xs, ops[..|ops|-1]);
      StepKeepsInv(xs, Run(xs, ops[..|ops|-1]), ops[|ops|-1]);
    }
  }

  /** Over every interleaving of loads and swaps, the average is the fold of the finished recorders'
      samples, each counted once, in the order they finished, and lies between the least and the greatest
      of them. */
  lemma {:induction false} AverageIsFold(xs: seq<int>, ops: seq<Op>)
    ensures var c := Run(xs, ops);
      && (forall i :: 0 <= i < |c.finished| ==> c.finished[i] < |xs|)
      && (forall i, j :: 0 <= i < j < |c.finished| ==> c.finished[i] != c.finished[j])
      && (forall id :: 0 <= id < |xs| ==> (id in c.finished <==> c.recorders[id].Recorded?))
      && c.value == Average(xs, c.finished)
      && (c.finished != [] ==>
            Least(Samples(xs, c.finished)) <= c.value <= Greatest(Samples(xs, c.finished)))
  {
    RunKeepsInv(xs, ops);
    var ys := Samples(xs, Run(xs, ops).finished);
    if ys != [] {
      FoldWithin(ys, Least(ys), Greatest(ys));
    }
  }

  /** The loop is lock-free: a swap fails only if some other recorder finished since the load. */
  lemma RetryMeansProgress(xs: seq<int>, ops: seq<Op>, id: nat)
    requires id < |xs| && Run(xs, ops).recorders[id].Holding?
    requires Step(xs, Run(xs, ops), Swap(id)).recorders[id].Ready?
    ensures Run(xs, ops).recorders[id].since < |Run(xs, ops).finished|
  {
    RunKeepsInv(xs, ops);
    StaleMeansLater(xs, Run(xs, ops), id);
  }

  lemma StaleMeansLater(xs: seq<int>, c: Cell, id: nat)
    requires Inv(xs, c) && id < |xs| && c.recorders[id].Holding? && c.recorders[id].was != c.value
    ensures c.recorders[id].since < |c.finished|
  {
    assert HoldsPast(xs, c, id);
    assert c.finished[..|c.finished|] == c.finished;
  }

  // ---------------------------------------------------------------- the statistics, in place

  function Flat(rounds: seq<seq<int>>): seq<int>
  {
    if rounds == [] then [] else Flat(rounds[..|rounds|-1]) + rounds[|rounds|-1]
  }

  class Atomic {
    var value: int

    constructor ()
      ensures value == 0
    {
      value := 0;
    }

    method CompareAndSwap(expected: int, replacement: int) returns (swapped: bool)
      modifies this
      ensures swapped == (old(value) == expected)
      ensures value == if swapped then replacement else old(value)
    {
      swapped := value == expected;
      if swapped {
        value := replacement;
      }
    }

    /** What other recorders do to the cell meanwhile. */
    method Disturb(xs: seq<int>)
      modifies this
      ensures value == Fold(old(value), xs)
    {
      for i := 0 to |xs|
        invariant value == Fold(old(value), xs[..i])
      {
        assert xs[..i+1][..i] == xs[..i];
        value := Update(value, xs[i]);
      }
      assert xs[..|xs|] == xs;
    }
  }

  class EWMAStats {
    const headerTime: Atomic
    const lastByteTime: Atomic
    var sampleCount: nat

    constructor ()
      ensures fresh(headerTime) && fresh(lastByteTime) && headerTime != lastByteTime
      ensures headerTime.value == 0 && lastByteTime.value == 0 && sampleCount == 0
    {
      headerTime := new Atomic();
      lastByteTime := new Atomic();
      sampleCount := 0;
    }

    /** Record one sample while others record theirs: `others[k]` are the samples other recorders complete
        between this one's load and swap in round `k`, none once `others` is used up. The sample enters
        exactly once, after those of the rounds it took. */
    static method RecordAtomic(cell: Atomic, newNano: int, others: seq<seq<int>>) returns (rounds: nat)
      modifies cell
      ensures rounds <= |others|
      ensures cell.value == Fold(old(cell.value), Flat(others[..rounds]) + [newNano])
    {
      rounds := 0;
      ghost var first := cell.value;
      while true
        invariant rounds <= |others|
        invariant cell.value == Fold(first, Flat(others[..rounds]))
        decreases |others| - rounds
      {
        var loaded := cell.value;
        if rounds < |others| {
          FoldAppend(first, Flat(others[..rounds]), others[rounds]);
          assert others[..rounds+1][..rounds] == others[..rounds];
          cell.Disturb(others[rounds]);
          rounds := rounds + 1;
        }
        FoldAppend(first, Flat(others[..rounds]), [newNano]);
        assert Fold(cell.value, [newNano]) == Update(cell.value, newNano);
        var swapped := cell.CompareAndSwap(loaded, if loaded == 0 then newNano else Blend(loaded, newNano));
        if swapped {
          return;
        }
      }
    }

    /** Both averages and the count take the sample. */
    method Record(headerNano: int, lastByteNano: int, atHeader: seq<seq<int>>, atLastByte: seq<seq<int>>)
      returns (n: nat, m: nat)
      requires headerTime != lastByteTime
      modifies headerTime, lastByteTime, this`sampleCount
      ensures n <= |atHeader|
        && headerTime.value == Fold(old(headerTime.value), Flat(atHeader[..n]) + [headerNano])
      ensures m <= |atLastByte|
        && lastByteTime.value == Fold(old(lastByteTime.value), Flat(atLastByte[..m]) + [lastByteNano])
      ensures sampleCount == old(sampleCount) + 1
    {
      n := RecordAtomic(headerTime, headerNano, atHeader);
      m := RecordAtomic(lastByteTime, lastByteNano, atLastByte);
      sampleCount := sampleCount + 1;
    }

    method Reset()
      requires headerTime != lastByteTime
      modifies headerTime, lastByteTime, this`sampleCount
      ensures headerTime.value == 0 && lastByteTime.value == 0 && sampleCount == 0
    {
      headerTime.value := 0;
      lastByteTime.value := 0;
      sampleCount := 0;
    }
  }
}
