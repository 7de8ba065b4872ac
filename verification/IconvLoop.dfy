/** win_iconv as it runs: two codecs whose mode fields change, and the caller's pointers and counters. */
module IconvLoop {
  import opened Bytes
  import opened Unicode
  import opened WinIconv
  import opened UtfStreams

  /** csconv_t with its mode field. */
  class CsConv {
    const codec: Codec
    var mode: Mode

    constructor (codec: Codec)
      ensures this.codec == codec && mode == START
    {
      this.codec := codec;
      mode := START;
    }

    /** cv->mbtowc. A failing call may leave the mode changed; the loop puts it back. */
    method Mbtowc(buf: seq<byte>) returns (r: Reading)
      modifies this
      ensures r == MbToWc(codec, old(mode), buf)
      ensures r.Read? ==> mode == r.mode
    {
      var big := codec.big != mode.swapped;
      var n := Units(codec);
      if |buf| < n { return Wrong(EINVAL); }
      var first := GetUnit(big, buf[..n]);
      UnitSizes();
      if codec.useBom && !mode.bomDone {
        mode := mode.(bomDone := true);
        if first == SwappedBom(codec) {
          mode := mode.(swapped := true);
          return Read(n, None, mode);
        } else if first == BOM {
          return Read(n, None, mode);
        }
      }
      if codec.wide {
        if !IsScalar(first) { return Wrong(EILSEQ); }
        return Read(4, Some(ToUtf16(first)), mode);
      }
      if IsLow(first) { return Wrong(EILSEQ); }
      if IsHigh(first) {
        if |buf| < 4 { return Wrong(EINVAL); }
        var second := GetUnit(big, buf[2..4]);
        if !IsLow(second) { return Wrong(EILSEQ); }
        return Read(4, Some([first, second]), mode);
      }
      return Read(2, Some([first]), mode);
    }

    /** Writes a unit of the codec's width and byte order. */
    method PutOctets(o: seq<byte>, buf: array<byte>, at: nat)
      requires at + |o| <= buf.Length
      modifies buf
      ensures buf[at..at + |o|] == o && buf[..at] == old(buf[..at])
    {
      for k := 0 to |o|
        invariant buf[at..at + k] == o[..k] && buf[..at] == old(buf[..at])
      {
        buf[at + k] := o[k];
      }
    }

    /** The part of cv->wctomb behind the mark. */
    method UnitsToMb(w: Wide, buf: array<byte>, at: nat, bufsize: nat) returns (ok: bool, outsize: nat)
      requires at + bufsize <= buf.Length
      modifies buf
      ensures buf[..at] == old(buf[..at])
      ensures ok == (|UnitOctets(codec, w)| <= bufsize)
      ensures ok ==> outsize == |UnitOctets(codec, w)| && buf[at..at + outsize] == UnitOctets(codec, w)
    {
      ok, outsize := false, 0;
      if codec.wide {
        if bufsize < 4 { return; }
        PutOctets(PutUnit(Units(codec), codec.big, ToUcs4(w)), buf, at);
        return true, 4;
      }
      if bufsize < 2 { return; }
      PutOctets(PutUnit(Units(codec), codec.big, w[0]), buf, at);
      if IsHigh(w[0]) {
        if bufsize < 4 { return; }
        SliceOfPrefix(buf, at, at + 2);
        PrefixOfPrefix(buf, at, at + 2);
        PutOctets(PutUnit(Units(codec), codec.big, w[1]), buf, at + 2);
        SliceOfPrefix(buf, at, at + 2);
        PrefixOfPrefix(buf, at, at + 2);
        SliceGrows(buf, at, at + 2, at + 4);
        return true, 4;
      }
      return true, 2;
    }

    /** The mark before the first character, with the mode noting it even when there is no room. */
    method PutMark(buf: array<byte>, at: nat, bufsize: nat) returns (ok: bool, n: nat)
      requires at + bufsize <= buf.Length
      modifies this, buf
      ensures buf[..at] == old(buf[..at])
      ensures mode == AfterMark(codec, old(mode))
      ensures ok == (|Mark(codec, old(mode))| <= bufsize)
      ensures ok ==> n == |Mark(codec, old(mode))| && buf[at..at + n] == Mark(codec, old(mode))
    {
      ok, n := true, 0;
      if codec.useBom && !mode.bomDone {
        mode := mode.(bomDone := true);
        n := Units(codec);
        if bufsize < n { return false, n; }
        PutOctets(PutUnit(n, codec.big, BOM), buf, at);
      }
    }

    /** cv->wctomb: the octets written, or E2BIG; what a failing call has written already is garbage. */
    method Wctomb(w: Wide, buf: array<byte>, at: nat, bufsize: nat) returns (ok: bool, outsize: nat)
      requires at + bufsize <= buf.Length
      modifies this, buf
      ensures buf[..at] == old(buf[..at])
      ensures ok == (|CharOctets(codec, old(mode), w)| <= bufsize)
      ensures ok ==> outsize == |CharOctets(codec, old(mode), w)|
                     && buf[at..at + outsize] == CharOctets(codec, old(mode), w)
                     && mode == AfterMark(codec, old(mode))
    {
      ghost var mark, units := Mark(codec, mode), UnitOctets(codec, w);
      var n, r;
      ok, n := PutMark(buf, at, bufsize);
      if !ok { return false, 0; }
      ghost var marked := buf[..at + n];
      SliceOfPrefix(buf, at, at + n);
      PrefixOfPrefix(buf, at, at + n);
      ok, r := UnitsToMb(w, buf, at + n, bufsize - n);
      assert buf[..at + n] == marked;
      SliceOfPrefix(buf, at, at + n);
      PrefixOfPrefix(buf, at, at + n);
      if ok {
        SliceGrows(buf, at, at + n, at + n + r);
        assert buf[at..at + n + r] == mark + units;
      }
      return ok, n + r;
    }
  }

  lemma SliceGrows(buf: array<byte>, a: nat, b: nat, c: nat)
    requires a <= b <= c <= buf.Length
    ensures buf[a..c] == buf[a..b] + buf[b..c]
  {
  }

  lemma PrefixGrows(buf: array<byte>, b: nat, c: nat)
    requires b <= c <= buf.Length
    ensures buf[..c] == buf[..b] + buf[b..c]
  {
  }

  lemma SliceOfPrefix(buf: array<byte>, a: nat, b: nat)
    requires a <= b <= buf.Length
    ensures buf[..b][a..] == buf[a..b]
  {
  }

  lemma PrefixOfPrefix(buf: array<byte>, a: nat, b: nat)
    requires a <= b <= buf.Length
    ensures buf[..b][..a] == buf[..a]
  {
  }

  /** One pass through the loop of win_iconv. A failing character leaves both modes as they were. */
  method Pass(from: CsConv, to: CsConv, rest: seq<byte>, outbuf: array<byte>, at: nat)
      returns (ending: Ending, insize: nat, outsize: nat)
    requires from != to && rest != [] && at <= outbuf.Length
    modifies from, to, outbuf
    ensures outbuf[..at] == old(outbuf[..at])
    ensures var t := OneTurn(UtfPair(from.codec, to.codec), old(from.mode), old(to.mode), rest);
            if t.Stop? then ending == t.ending && from.mode == old(from.mode) && to.mode == old(to.mode)
            else if |t.o| > outbuf.Length - at then
              ending == Stopped(E2BIG) && from.mode == old(from.mode) && to.mode == old(to.mode)
            else
              && ending == Finished && outsize <= outbuf.Length - at
              && t == Go(insize, outbuf[at..at + outsize], from.mode, to.mode)
  {
    UtfTurn(from.codec, to.codec, from.mode, to.mode, rest);
    var frommode, tomode := from.mode, to.mode;
    insize, outsize := 0, 0;
    var read := from.Mbtowc(rest);
    if read.Wrong? {
      from.mode := frommode;
      return Stopped(read.e), 0, 0;
    }
    if read.w.None? { return Finished, read.insize, 0; }
    var ok, n := to.Wctomb(read.w.value, outbuf, at, outbuf.Length - at);
    if !ok {
      from.mode, to.mode := frommode, tomode;
      return Stopped(E2BIG), 0, 0;
    }
    return Finished, read.insize, n;
  }

  /**
   * win_iconv on a whole input and an output of outbuf.Length octets: the counters, the octets written and both modes
   * are those of the specification, so a call that fails leaves no trace of the failing character.
   */
  method Iconv(from: CsConv, to: CsConv, inbuf: seq<byte>, outbuf: array<byte>)
      returns (ending: Ending, used: nat, written: nat)
    requires from != to
    modifies from, to, outbuf
    ensures var r := Convert(UtfPair(from.codec, to.codec), old(from.mode), old(to.mode), inbuf, Some(outbuf.Length));
            written <= outbuf.Length && Outcome(used, outbuf[..written], from.mode, to.mode, ending) == r
  {
    ghost var p := UtfPair(from.codec, to.codec);
    ghost var whole := Convert(p, from.mode, to.mode, inbuf, Some(outbuf.Length));
    used, written := 0, 0;
    ending := Finished;
    NothingYet(p, from.mode, to.mode, inbuf, outbuf[..0], outbuf.Length);
    while used < |inbuf|
      invariant used <= |inbuf| && written <= outbuf.Length && ending == Finished
      invariant GoesOn(p, from.mode, to.mode, inbuf, used, outbuf[..written], outbuf.Length, whole)
    {
      ghost var before, fm, tm := outbuf[..written], from.mode, to.mode;
      var insize, outsize;
      ending, insize, outsize := Pass(from, to, inbuf[used..], outbuf, written);
      assert outbuf[..written] == before;
      if ending != Finished {
        StopsHere(p, fm, tm, inbuf, used, before, outbuf.Length, whole);
        return;
      }
      PrefixGrows(outbuf, written, written + outsize);
      ghost var at, o := used, outbuf[written..written + outsize];
      used, written := used + insize, written + outsize;
      assert outbuf[..written] == before + o;
      Advance(p, fm, tm, inbuf, at, before, outbuf.Length, whole, insize, o, from.mode, to.mode, used, outbuf[..written]);
    }
    StopsHere(p, from.mode, to.mode, inbuf, used, outbuf[..written], outbuf.Length, whole);
  }

  /** With used octets read and out written, the rest of the call makes up the outcome whole. */
  ghost predicate GoesOn(p: Pair, fm: Mode, tm: Mode, input: seq<byte>, used: nat, out: seq<byte>, size: nat,
                         whole: Outcome)
  {
    && used <= |input| && |out| <= size
    && whole == Prepend(used, out, Convert(p, fm, tm, input[used..], Some(size - |out|)))
  }

  lemma NothingYet(p: Pair, fm: Mode, tm: Mode, input: seq<byte>, out: seq<byte>, size: nat)
    requires out == []
    ensures GoesOn(p, fm, tm, input, 0, out, size, Convert(p, fm, tm, input, Some(size)))
  {
    assert input[0..] == input;
    var whole := Convert(p, fm, tm, input, Some(size));
    assert [] + whole.out == whole.out;
  }

  lemma StopsHere(p: Pair, fm: Mode, tm: Mode, input: seq<byte>, used: nat, out: seq<byte>, size: nat, whole: Outcome)
    requires GoesOn(p, fm, tm, input, used, out, size, whole)
    ensures var t := OneTurn(p, fm, tm, input[used..]);
            && (t.Stop? ==> whole == Outcome(used, out, fm, tm, t.ending))
            && (t.Go? && |t.o| > size - |out| ==> whole == Outcome(used, out, fm, tm, Stopped(E2BIG)))
  {
    assert out + [] == out;
  }

  /** The same outcome, seen one turn later. */
  lemma Advance(p: Pair, fm: Mode, tm: Mode, input: seq<byte>, used: nat, out: seq<byte>, size: nat, whole: Outcome,
                insize: nat, o: seq<byte>, fm': Mode, tm': Mode, used': nat, out': seq<byte>)
    requires GoesOn(p, fm, tm, input, used, out, size, whole)
    requires OneTurn(p, fm, tm, input[used..]) == Go(insize, o, fm', tm')
    requires used' == used + insize && out' == out + o && |out'| <= size
    ensures GoesOn(p, fm', tm', input, used', out', size, whole)
  {
    var rest := input[used..];
    var left := size - |out'|;
    FirstTurn(p, fm, tm, rest, Some(size - |out|));
    assert Left(Some(size - |out|), o) == Some(left);
    assert rest[insize..] == input[used'..];
    var more := Convert(p, fm', tm', rest[insize..], Some(left));
    PrependTwice(used, out, insize, o, more);
    assert whole == Prepend(used', out', more);
    assert more == Convert(p, fm', tm', input[used'..], Some(left));
  }

  lemma PrependTwice(used: nat, out: seq<byte>, insize: nat, o: seq<byte>, r: Outcome)
    ensures Prepend(used, out, Prepend(insize, o, r)) == Prepend(used + insize, out + o, r)
  {
    assert out + o + r.out == out + (o + r.out);
  }

  /** win_iconv without input: the UTF codecs have nothing to flush, and both modes start over. */
  method Reset(from: CsConv, to: CsConv)
    modifies from, to
    ensures from.mode == START && to.mode == START
  {
    from.mode := START;
    to.mode := START;
  }
}
