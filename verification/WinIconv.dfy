/** win_iconv: the conversion loop over two codecs, stopping and resuming at any full buffer. */
module WinIconv {
  import opened Bytes
  import opened Unicode

  /** How a call ends: all input used, or the errno of the character it stopped at. */
  datatype Ending = Finished | Stopped(e: Errno)

  /** What a call leaves: octets used, octets written, both modes, and how it ended. */
  datatype Outcome = Outcome(used: nat, out: seq<byte>, from: Mode, to: Mode, ending: Ending)

  /** rec_iconv_t: the two codecs of a conversion descriptor. */
  datatype Pair = Pair(from: Csconv, to: Csconv)

  function Prepend(insize: nat, o: seq<byte>, r: Outcome): Outcome {
    r.(used := insize + r.used, out := o + r.out)
  }

  /** One turn of the loop when there is room: a BOM passed over or a character converted. */
  datatype Turn = Stop(ending: Ending) | Go(insize: nat, o: seq<byte>, from: Mode, to: Mode)

  function OneTurn(p: Pair, from: Mode, to: Mode, input: seq<byte>): (t: Turn)
    ensures t.Go? ==> 0 < t.insize <= |input|
    ensures t.Stop? ==> t.ending != Stopped(E2BIG) && (t.ending.Finished? <==> input == [])
  {
    if input == [] then Stop(Finished)
    else
      assert Advances(p.from.mbtowc, from, input);
      match p.from.mbtowc(from, input)
      case Wrong(e) => Stop(Stopped(e))
      case Read(insize, None, next) => Go(insize, [], next, to)
      case Read(insize, Some(w), next) =>
        var (o, behind) := p.to.wctomb(to, w);
        Go(insize, o, next, behind)
  }

  predicate Fits(o: seq<byte>, cap: Option<nat>) {
    cap.None? || |o| <= cap.value
  }

  function Left(cap: Option<nat>, o: seq<byte>): Option<nat>
    requires Fits(o, cap)
  {
    if cap.None? then None else Some(cap.value - |o|)
  }

  /** The loop with cap octets of output left; no bound at all when cap is None. */
  function Convert(p: Pair, from: Mode, to: Mode, input: seq<byte>, cap: Option<nat>): (r: Outcome)
    ensures r.used <= |input|
    ensures Fits(r.out, cap)
    ensures r.ending.Finished? ==> r.used == |input|
    decreases |input|
  {
    match OneTurn(p, from, to, input)
    case Stop(ending) => Outcome(0, [], from, to, ending)
    case Go(insize, o, from', to') =>
      if !Fits(o, cap) then Outcome(0, [], from, to, Stopped(E2BIG))
      else Prepend(insize, o, Convert(p, from', to', input[insize..], Left(cap, o)))
  }

  /** Going on after r: the two outcomes as one. */
  function Then(r: Outcome, more: Outcome): Outcome {
    Outcome(r.used + more.used, r.out + more.out, more.from, more.to, more.ending)
  }

  lemma PrependThen(insize: nat, o: seq<byte>, r: Outcome, more: Outcome)
    ensures Then(Prepend(insize, o, r), more) == Prepend(insize, o, Then(r, more))
  {
    assert o + r.out + more.out == o + (r.out + more.out);
  }

  lemma NothingThen(from: Mode, to: Mode, ending: Ending, more: Outcome)
    ensures Then(Outcome(0, [], from, to, ending), more) == more
  {
    assert [] + more.out == more.out;
  }

  /**
   * Wherever a call stops, going on from its pointers and modes with unlimited output ends as one call with unlimited
   * output would have: same octets, same modes, same ending.
   */
  lemma {:induction false} Resumption(p: Pair, from: Mode, to: Mode, input: seq<byte>, cap: Option<nat>)
    ensures var r := Convert(p, from, to, input, cap);
            Then(r, Convert(p, r.from, r.to, input[r.used..], None)) == Convert(p, from, to, input, None)
    decreases |input|
  {
    var t := OneTurn(p, from, to, input);
    if t.Stop? || !Fits(t.o, cap) {
      assert input[0..] == input;
      NothingThen(from, to, Convert(p, from, to, input, cap).ending, Convert(p, from, to, input, None));
    } else {
      var rest := input[t.insize..];
      var s := Convert(p, t.from, t.to, rest, Left(cap, t.o));
      Resumption(p, t.from, t.to, rest, Left(cap, t.o));
      FirstTurn(p, from, to, input, cap);
      FirstTurn(p, from, to, input, None);
      var r := Convert(p, from, to, input, cap);
      assert r == Prepend(t.insize, t.o, s);
      assert rest[s.used..] == input[r.used..];
      var more := Convert(p, s.from, s.to, rest[s.used..], None);
      assert Convert(p, from, to, input, None) == Prepend(t.insize, t.o, Then(s, more));
      PrependThen(t.insize, t.o, s, more);
    }
  }

  lemma FirstTurn(p: Pair, from: Mode, to: Mode, input: seq<byte>, cap: Option<nat>)
    requires OneTurn(p, from, to, input).Go? && Fits(OneTurn(p, from, to, input).o, cap)
    ensures var t := OneTurn(p, from, to, input);
            Convert(p, from, to, input, cap)
            == Prepend(t.insize, t.o, Convert(p, t.from, t.to, input[t.insize..], Left(cap, t.o)))
  {
  }

  /** Calls with fresh buffers of the given sizes, each going on where the one before stopped, while it was E2BIG. */
  function ConvertInto(p: Pair, from: Mode, to: Mode, input: seq<byte>, caps: seq<nat>): Outcome
    decreases |caps|
  {
    if caps == [] then Outcome(0, [], from, to, Stopped(E2BIG))
    else
      var r := Convert(p, from, to, input, Some(caps[0]));
      if r.ending != Stopped(E2BIG) then r
      else Then(r, ConvertInto(p, r.from, r.to, input[r.used..], caps[1..]))
  }

  /** Buffers of any sizes give what one unlimited buffer gives, unless they run out. */
  lemma {:induction false} BuffersIrrelevant(p: Pair, from: Mode, to: Mode, input: seq<byte>, caps: seq<nat>)
    ensures var r := ConvertInto(p, from, to, input, caps);
            r.ending != Stopped(E2BIG) ==> r == Convert(p, from, to, input, None)
    decreases |caps|
  {
    if caps != [] {
      var r := Convert(p, from, to, input, Some(caps[0]));
      Resumption(p, from, to, input, Some(caps[0]));
      if r.ending == Stopped(E2BIG) {
        BuffersIrrelevant(p, r.from, r.to, input[r.used..], caps[1..]);
      } else {
        AtRest(p, from, to, input, Some(caps[0]));
        assert r.out + [] == r.out;
      }
    }
  }

  /** A call that did not stop for room has nothing more to do. */
  lemma {:induction false} AtRest(p: Pair, from: Mode, to: Mode, input: seq<byte>, cap: Option<nat>)
    requires Convert(p, from, to, input, cap).ending != Stopped(E2BIG)
    ensures var r := Convert(p, from, to, input, cap);
            Convert(p, r.from, r.to, input[r.used..], None) == Outcome(0, [], r.from, r.to, r.ending)
    decreases |input|
  {
    var t := OneTurn(p, from, to, input);
    if t.Stop? {
      assert input[0..] == input;
    } else {
      var rest := input[t.insize..];
      AtRest(p, t.from, t.to, rest, Left(cap, t.o));
      assert rest[Convert(p, t.from, t.to, rest, Left(cap, t.o)).used..] == input[Convert(p, from, to, input, cap).used..];
    }
  }

  /** No character takes more than n octets. */
  ghost predicate AtMost(v: Csconv, n: nat) {
    forall mode, w :: |v.wctomb(mode, w).0| <= n
  }

  /** A buffer with room for any character: no call returns E2BIG without progress. */
  lemma RoomForOne(p: Pair, from: Mode, to: Mode, input: seq<byte>, cap: nat)
    requires AtMost(p.to, cap)
    requires Convert(p, from, to, input, Some(cap)).ending == Stopped(E2BIG)
    ensures Convert(p, from, to, input, Some(cap)).used > 0
  {
    var t := OneTurn(p, from, to, input);
    assert t.Go? && |t.o| <= cap;
  }

  /** As many such buffers as there are octets, and one more, always finish the conversion or find its fault. */
  lemma {:induction false} BuffersSuffice(p: Pair, from: Mode, to: Mode, input: seq<byte>, caps: seq<nat>)
    requires |caps| > |input| && forall cap | cap in caps :: AtMost(p.to, cap)
    ensures ConvertInto(p, from, to, input, caps) == Convert(p, from, to, input, None)
    ensures Convert(p, from, to, input, None).ending != Stopped(E2BIG)
    decreases |caps|
  {
    assert caps[0] in caps && forall cap | cap in caps[1..] :: cap in caps;
    var r := Convert(p, from, to, input, Some(caps[0]));
    if r.ending == Stopped(E2BIG) {
      RoomForOne(p, from, to, input, caps[0]);
      BuffersSuffice(p, r.from, r.to, input[r.used..], caps[1..]);
      Resumption(p, from, to, input, Some(caps[0]));
    } else {
      BuffersIrrelevant(p, from, to, input, caps);
    }
  }

  // Input that comes in pieces

  /** What a reader has made of some octets stays the same when more octets follow. */
  ghost predicate Prefixed(f: Reader) {
    forall mode, a, b :: f(mode, a).Read? ==> f(mode, a + b) == f(mode, a)
  }

  lemma OneTurnMore(p: Pair, from: Mode, to: Mode, a: seq<byte>, b: seq<byte>)
    requires Prefixed(p.from.mbtowc) && OneTurn(p, from, to, a).Go?
    ensures OneTurn(p, from, to, a + b) == OneTurn(p, from, to, a)
  {
  }

  lemma DropInFirst(a: seq<byte>, b: seq<byte>, n: nat)
    requires n <= |a|
    ensures (a + b)[n..] == a[n..] + b
  {
  }

  /** Input cut anywhere, even inside a character: what one call leaves over, put before the rest, makes up the whole. */
  lemma {:induction false} InputSplit(p: Pair, from: Mode, to: Mode, a: seq<byte>, b: seq<byte>)
    requires Prefixed(p.from.mbtowc)
    ensures var r := Convert(p, from, to, a, None);
            Then(r, Convert(p, r.from, r.to, a[r.used..] + b, None)) == Convert(p, from, to, a + b, None)
    decreases |a|
  {
    var t := OneTurn(p, from, to, a);
    if t.Stop? {
      assert a[0..] == a;
      NothingThen(from, to, t.ending, Convert(p, from, to, a + b, None));
    } else {
      var rest := a[t.insize..];
      var s := Convert(p, t.from, t.to, rest, None);
      InputSplit(p, t.from, t.to, rest, b);
      OneTurnMore(p, from, to, a, b);
      FirstTurn(p, from, to, a, None);
      FirstTurn(p, from, to, a + b, None);
      DropInFirst(a, b, t.insize);
      var r := Convert(p, from, to, a, None);
      assert r == Prepend(t.insize, t.o, s);
      assert rest[s.used..] == a[r.used..];
      var more := Convert(p, s.from, s.to, rest[s.used..] + b, None);
      assert Convert(p, from, to, a + b, None) == Prepend(t.insize, t.o, Then(s, more));
      PrependThen(t.insize, t.o, s, more);
    }
  }
}
