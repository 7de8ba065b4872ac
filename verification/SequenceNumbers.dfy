/** NextSequenceNumber of smppconnection.cpp: a counter that restarts at a random low value. */
module SequenceNumbers {
  import opened Params

  const UINT_MAX := 0xFFFF_FFFF
  const SEQ_NUM_INITIAL_RANGE := 0x4000

  /** What INITIAL_SEQ_NUMBER can draw: rand() % SEQ_NUM_INITIAL_RANGE + 1. */
  type Draw = d: nat | 1 <= d <= SEQ_NUM_INITIAL_RANGE witness 1

  function InitialSeqNumber(rand: nat): Draw {
    rand % SEQ_NUM_INITIAL_RANGE + 1
  }

  /** The counter of a connection; issued is everything it has handed out. */
  class Counter {
    var m_nextSequenceNumber: nat
    ghost var first: nat
    ghost var draws: seq<Draw>
    ghost var issued: seq<nat>

    ghost predicate Valid()
      reads this
    {
      && 1 <= first < UINT_MAX
      && issued == Issues(first, draws)
      && m_nextSequenceNumber == if issued == [] then first else issued[|issued| - 1]
    }

    constructor (rand: nat)
      ensures Valid() && issued == []
    {
      m_nextSequenceNumber := InitialSeqNumber(rand);
      first, draws, issued := InitialSeqNumber(rand), [], [];
    }

    method NextSequenceNumber(rand: nat) returns (n: nat)
      requires Valid()
      modifies this
      ensures Valid() && first == old(first) && draws == old(draws) + [InitialSeqNumber(rand)]
      ensures n == Next(old(m_nextSequenceNumber), InitialSeqNumber(rand))
      ensures n == if old(m_nextSequenceNumber) == 0xFFFF_FFFE then rand % 0x4000 + 1 else old(m_nextSequenceNumber) + 1
      ensures issued == old(issued) + [n]
      ensures 1 <= n < UINT_MAX
    {
      IssuesAppend(first, draws, InitialSeqNumber(rand));
      IssuedInRange(first, draws + [InitialSeqNumber(rand)]);
      draws := draws + [InitialSeqNumber(rand)];
      m_nextSequenceNumber := m_nextSequenceNumber + 1;
      if m_nextSequenceNumber == UINT_MAX {
        m_nextSequenceNumber := InitialSeqNumber(rand);
      }
      issued := issued + [m_nextSequenceNumber];
      n := m_nextSequenceNumber;
      assert n in Issues(first, draws);
    }
  }

  lemma {:induction false} IssuesAppend(cur: nat, draws: seq<Draw>, d: Draw)
    ensures var s := Issues(cur, draws);
            Issues(cur, draws + [d]) == s + [Next(if s == [] then cur else s[|s| - 1], d)]
    decreases |draws|
  {
    if draws == [] {
      assert draws + [d] == [d] && [d][1..] == [];
    } else {
      assert (draws + [d])[1..] == draws[1..] + [d];
      IssuesAppend(Next(cur, draws[0]), draws[1..], d);
    }
  }

  lemma {:induction false} IssuesFrom(cur: nat, draws: seq<Draw>, i: nat)
    requires 0 < i <= |draws|
    ensures Issues(cur, draws)[i..] == Issues(Issues(cur, draws)[i - 1], draws[i..])
    decreases i
  {
    if i > 1 {
      IssuesFrom(Next(cur, draws[0]), draws[1..], i - 1);
      assert draws[1..][i - 1..] == draws[i..];
    }
  }

  /** The number issued after cur, when a restart would draw d. */
  function Next(cur: nat, d: Draw): nat {
    if cur + 1 == UINT_MAX then d else cur + 1
  }

  /** The numbers issued from cur on, with the draws a restart would use at each call. */
  function Issues(cur: nat, draws: seq<Draw>): (s: seq<nat>)
    ensures |s| == |draws|
    decreases |draws|
  {
    if draws == [] then [] else [Next(cur, draws[0])] + Issues(Next(cur, draws[0]), draws[1..])
  }

  /** Every number issued passes the sequence number check of the codec, and fits its field. */
  lemma {:induction false} IssuedInRange(cur: nat, draws: seq<Draw>)
    requires 1 <= cur < UINT_MAX
    ensures forall n | n in Issues(cur, draws) :: 1 <= n < UINT_MAX && Passes(SequenceNumber, n)
    decreases |draws|
  {
    if draws != [] {
      IssuedInRange(Next(cur, draws[0]), draws[1..]);
    }
  }

  /** How many calls at least lie between two restarts. */
  const WINDOW: nat := UINT_MAX - SEQ_NUM_INITIAL_RANGE

  /** Before the counter reaches its end, the numbers are those that follow cur. */
  lemma {:induction false} Climbing(cur: nat, draws: seq<Draw>, k: nat)
    requires k < |draws| && cur + 1 + k < UINT_MAX
    ensures Issues(cur, draws)[k] == cur + 1 + k
    decreases k
  {
    if k > 0 {
      Climbing(cur + 1, draws[1..], k - 1);
    }
  }

  /**
   * Any WINDOW calls in a row issue different numbers, whatever a restart among them draws: the restart lands at d,
   * and the numbers after it stay below those before it.
   */
  lemma {:induction false} IssuedDistinct(cur: nat, draws: seq<Draw>, i: nat, j: nat)
    requires 1 <= cur < UINT_MAX && i < j < |draws| <= WINDOW
    ensures Issues(cur, draws)[i] != Issues(cur, draws)[j]
  {
    if cur + |draws| < UINT_MAX {
      Climbing(cur, draws, i);
      Climbing(cur, draws, j);
    } else {
      var k: nat := UINT_MAX - 1 - cur;
      AroundRestart(cur, draws, i);
      AroundRestart(cur, draws, j);
    }
  }

  /** Over a whole connection: two equal numbers are at least WINDOW calls apart. */
  lemma ConnectionDistinct(cur: nat, draws: seq<Draw>, i: nat, j: nat)
    requires 1 <= cur < UINT_MAX && i < j < |draws| && j - i < WINDOW
    ensures Issues(cur, draws)[i] != Issues(cur, draws)[j]
  {
    var s := Issues(cur, draws);
    var start := if i == 0 then cur else s[i - 1];
    var ds := draws[i..];
    if i > 0 {
      IssuesFrom(cur, draws, i);
      IssuedInRange(cur, draws);
      assert s[i - 1] in s;
    } else {
      assert draws[0..] == draws && s[0..] == s;
    }
    assert Issues(start, ds) == s[i..];
    var window := ds[..j - i + 1];
    IssuesPrefix(start, ds, j - i + 1);
    IssuedDistinct(start, window, 0, j - i);
    assert s[i] == s[i..][0] && s[j] == s[i..][j - i];
  }

  lemma {:induction false} IssuesPrefix(cur: nat, draws: seq<Draw>, n: nat)
    requires n <= |draws|
    ensures Issues(cur, draws[..n]) == Issues(cur, draws)[..n]
    decreases n
  {
    if n > 0 {
      IssuesPrefix(Next(cur, draws[0]), draws[1..], n - 1);
      assert draws[..n][1..] == draws[1..][..n - 1];
    }
  }

  /** With one restart in sight, at call number UINT_MAX - 1 - cur. */
  lemma {:induction false} AroundRestart(cur: nat, draws: seq<Draw>, n: nat)
    requires 1 <= cur < UINT_MAX && cur + |draws| >= UINT_MAX && n < |draws|
    requires n < UINT_MAX - 1 - cur || draws[UINT_MAX - 1 - cur] + (n - (UINT_MAX - 1 - cur)) < UINT_MAX
    ensures var k := UINT_MAX - 1 - cur;
            Issues(cur, draws)[n] == if n < k then cur + 1 + n else draws[k] + (n - k)
    decreases n
  {
    var k := UINT_MAX - 1 - cur;
    if k == 0 {
      if n > 0 {
        Climbing(draws[0], draws[1..], n - 1);
      }
    } else if n > 0 {
      AroundRestart(cur + 1, draws[1..], n - 1);
    }
  }

  /** The window is sharp: one call more can repeat its first number. */
  lemma WindowIsSharp(cur: nat, draws: seq<Draw>)
    requires 1 <= cur < UINT_MAX - 1 && |draws| == WINDOW + 1 && cur + |draws| >= UINT_MAX
    requires draws[UINT_MAX - 1 - cur] == SEQ_NUM_INITIAL_RANGE
    ensures Issues(cur, draws)[0] == Issues(cur, draws)[WINDOW]
  {
    AroundRestart(cur, draws, 0);
    AroundRestart(cur, draws, WINDOW);
  }
}
