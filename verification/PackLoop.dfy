/** smpp34_pack as it runs: a cursor aux moving through ptrBuf and a count left of the octets left. */
module PackLoop {
  import opened Sequences
  import opened Bytes
  import opened Params
  import opened Frames
  import opened Tokens
  import opened Pack
  import opened RoundTrip

  /** The octets s with those from at on overwritten by o. */
  function Splice(s: seq<byte>, at: nat, o: seq<byte>): (r: seq<byte>)
    requires at + |o| <= |s|
    ensures |r| == |s|
  {
    s[..at] + o + s[at + |o|..]
  }

  lemma SpliceTwice(s: seq<byte>, at: nat, o: seq<byte>, p: seq<byte>)
    requires at + |o| + |p| <= |s|
    ensures Splice(Splice(s, at, o), at + |o|, p) == Splice(s, at, o + p)
  {
  }

  /** memcpy into the output buffer. */
  method CopyOctets(buf: array<byte>, at: nat, src: seq<byte>)
    requires at + |src| <= buf.Length
    modifies buf
    ensures buf[..] == Splice(old(buf[..]), at, src)
  {
    assert buf[..] == Splice(buf[..], at, []);
    for k := 0 to |src|
      invariant buf[..] == Splice(old(buf[..]), at, src[..k])
    {
      ghost var before := buf[..];
      buf[at + k] := src[k];
      assert buf[..] == before[at + k := src[k]];
      SpliceNext(old(buf[..]), at, src[..k], src[k]);
      TakeNext(src, k);
    }
    TakeAll(src);
  }

  lemma SpliceNext(s: seq<byte>, at: nat, o: seq<byte>, x: byte)
    requires at + |o| < |s|
    ensures Splice(s, at, o)[at + |o| := x] == Splice(s, at, o + [x])
  {
  }

  /** Packing the fields ts at cursor aux turned the buffer before into the buffer after. */
  ghost predicate Wrote(ts: seq<Token>, before: seq<byte>, aux: nat, left: int,
                        ok: bool, after: seq<byte>, aux': nat, left': int)
  {
    && AllTyped(ts) && |after| == |before| && aux <= |before| && aux + left <= |before|
    && var r := PackTokens(ts, left);
    && ok == r.Some?
    && after[..aux] == before[..aux]
    && (r.Some? ==>
          && aux' == aux + |r.value| <= |before| && left' == left - |r.value|
          && after == Splice(before, aux, r.value))
  }

  lemma WroteNothing(before: seq<byte>, aux: nat, left: int)
    requires aux <= |before| && aux + left <= |before|
    ensures Wrote([], before, aux, left, true, before, aux, left)
  {
  }

  /** Packing the fields a and then the fields b. */
  lemma WroteBoth(a: seq<Token>, b: seq<Token>, before: seq<byte>, aux: nat, left: int,
                  middle: seq<byte>, mid: nat, left1: int, ok: bool, after: seq<byte>, aux': nat, left': int)
    requires Wrote(a, before, aux, left, true, middle, mid, left1)
    requires Wrote(b, middle, mid, left1, ok, after, aux', left')
    ensures Wrote(a + b, before, aux, left, ok, after, aux', left')
  {
    PackConcat(a, b, left);
    PrefixKept(middle, after, mid, aux);
    if ok {
      SpliceTwice(before, aux, PackTokens(a, left).value, PackTokens(b, left1).value);
    }
  }

  lemma PrefixKept(s: seq<byte>, t: seq<byte>, mid: nat, aux: nat)
    requires aux <= mid <= |s| == |t| && s[..mid] == t[..mid]
    ensures s[..aux] == t[..aux]
  {
    assert s[..aux] == s[..mid][..aux] == t[..mid][..aux];
  }

  lemma FailedFirst(a: seq<Token>, b: seq<Token>, before: seq<byte>, aux: nat, left: int,
                    after: seq<byte>, aux': nat, left': int)
    requires Wrote(a, before, aux, left, false, after, aux', left') && AllTyped(b)
    ensures Wrote(a + b, before, aux, left, false, after, aux', left')
  {
    PackConcat(a, b, left);
  }

  lemma PackOne(t: Token, left: int)
    requires Typed(t)
    ensures AllTyped([t])
    ensures PackTokens([t], left) == if RoomNeeded(t) <= left && Accepted(t) then Some(Encoding(t)) else None
  {
    assert [t][1..] == [];
    assert Encoding(t) + [] == Encoding(t);
  }

  lemma WroteNone(t: Token, before: seq<byte>, aux: nat, left: int)
    requires Typed(t) && (RoomNeeded(t) > left || !Accepted(t)) && aux <= |before| && aux + left <= |before|
    ensures Wrote([t], before, aux, left, false, before, aux, left)
  {
    PackOne(t, left);
  }

  lemma WroteOne(t: Token, before: seq<byte>, aux: nat, left: int)
    requires Typed(t) && RoomNeeded(t) <= left && Accepted(t) && aux <= |before| && aux + left <= |before|
    ensures |Encoding(t)| <= left
    ensures var o := Encoding(t);
            Wrote([t], before, aux, left, true, Splice(before, aux, o), aux + |o|, left - |o|)
  {
    PackOne(t, left);
  }

  /** The macros U32, U16, U08, C_OCTET, OCTET8 and OCTET16. */
  method PackField(k: Kind, prev: nat, v: Value, buf: array<byte>, aux: nat, left: int)
      returns (ok: bool, aux': nat, left': int)
    requires Typed(MakeToken(k, prev, v)) && aux <= buf.Length && aux + left <= buf.Length
    modifies buf
    ensures Wrote([MakeToken(k, prev, v)], old(buf[..]), aux, left, ok, buf[..], aux', left')
  {
    ghost var t := MakeToken(k, prev, v);
    ok, aux', left' := false, aux, left;
    var src: seq<byte>;
    match k {
      case U32(check) =>
        if 4 >= left || !Passes(check, v.n) { WroteNone(t, buf[..], aux, left); return; }
        src := BigEndian(4, v.n);
      case U16(check) =>
        if 2 >= left || !Passes(check, v.n) { WroteNone(t, buf[..], aux, left); return; }
        src := BigEndian(2, v.n);
      case U08(check) =>
        if 1 >= left || !Passes(check, v.n) { WroteNone(t, buf[..], aux, left); return; }
        src := BigEndian(1, v.n);
      case COctet(size) =>
        var lenval := |v.b| + 1;
        if lenval > left { WroteNone(t, buf[..], aux, left); return; }
        if lenval > size {
          src := v.b[..size - 1] + [0];
        } else {
          src := v.b + [0];
        }
      case Octet8(limit) =>
        if prev >= left || prev >= limit { WroteNone(t, buf[..], aux, left); return; }
        src := v.b;
      case Octet16(limit) =>
        if prev >= left || prev > limit { WroteNone(t, buf[..], aux, left); return; }
        src := v.b;
    }
    assert src == Encoding(t);
    WroteOne(t, buf[..], aux, left);
    CopyOctets(buf, aux, src);
    ok, aux', left' := true, aux + |src|, left - |src|;
  }

  /** One do_tlv, do_dad or do_udad: the fields of a record, chosen by its own values. */
  method PackRecord(r: RecordKind, rec: Record, buf: array<byte>, aux: nat, left: int)
      returns (ok: bool, aux': nat, left': int)
    requires RecordTyped(r, rec) && aux <= buf.Length && aux + left <= buf.Length
    modifies buf
    ensures Wrote(FlattenRecord(r, rec, 0), old(buf[..]), aux, left, ok, buf[..], aux', left')
  {
    ok, aux', left' := true, aux, left;
    ghost var done: seq<Token> := [];
    var i := 0;
    WroteNothing(buf[..], aux, left);
    while i < |rec|
      invariant i <= |rec| && RecordShape(r, rec, i)
      invariant ok && done + FlattenRecord(r, rec, i) == FlattenRecord(r, rec, 0)
      invariant Wrote(done, old(buf[..]), aux, left, ok, buf[..], aux', left')
    {
      var k := RecordNext(r, rec[..i]).value;
      var prev := LastNum(rec[..i]);
      ghost var t := MakeToken(k, prev, rec[i]);
      ghost var more := FlattenRecord(r, rec, i + 1);
      RecordTurn(r, rec, i, done);
      ghost var middle, mid, left1 := buf[..], aux', left';
      ok, aux', left' := PackField(k, prev, rec[i], buf, aux', left');
      WroteBoth(done, [t], old(buf[..]), aux, left, middle, mid, left1, ok, buf[..], aux', left');
      if !ok {
        FailedFirst(done + [t], more, old(buf[..]), aux, left, buf[..], aux', left');
        return;
      }
      done := done + [t];
      i := i + 1;
    }
    AppendNothing(done);
  }

  /** The field of a turn, between those done and those to come. */
  lemma RecordTurn(r: RecordKind, rec: Record, i: nat, done: seq<Token>)
    requires RecordTyped(r, rec) && i < |rec| && RecordShape(r, rec, i)
    requires done + FlattenRecord(r, rec, i) == FlattenRecord(r, rec, 0)
    ensures RecordNext(r, rec[..i]).Some? && RecordShape(r, rec, i + 1)
    ensures var t := MakeToken(RecordNext(r, rec[..i]).value, LastNum(rec[..i]), rec[i]);
            var more := FlattenRecord(r, rec, i + 1);
            && (done + [t]) + more == FlattenRecord(r, rec, 0)
            && Typed(t) && AllTyped(done) && AllTyped(more) && AllTyped(done + [t])
  {
    var t := MakeToken(RecordNext(r, rec[..i]).value, LastNum(rec[..i]), rec[i]);
    var more := FlattenRecord(r, rec, i + 1);
    assert FlattenRecord(r, rec, i) == [t] + more;
    AppendAssociates(done, [t], more);
    TypedInTwo(done + [t], more);
    TypedInTwo(done, [t]);
    assert t in [t];
  }

  lemma PartsTyped(a: seq<Token>, b: seq<Token>, whole: seq<Token>)
    requires a + b == whole && AllTyped(whole)
    ensures AllTyped(a) && AllTyped(b)
  {
    forall t | t in a || t in b ensures Typed(t) { assert t in a + b; }
  }

  lemma {:induction false} FlattenListConcat(r: RecordKind, a: seq<Record>, b: seq<Record>)
    ensures FlattenList(r, a + b) == FlattenList(r, a) + FlattenList(r, b)
  {
    if a == [] {
      assert a + b == b;
    } else {
      assert (a + b)[1..] == a[1..] + b;
      FlattenListConcat(r, a[1..], b);
    }
  }

  /** The TLV, DAD and UDAD macros: every node of the list in turn. */
  method PackList(r: RecordKind, recs: seq<Record>, buf: array<byte>, aux: nat, left: int)
      returns (ok: bool, aux': nat, left': int)
    requires (forall rec | rec in recs :: RecordTyped(r, rec)) && aux <= buf.Length && aux + left <= buf.Length
    modifies buf
    ensures Wrote(FlattenList(r, recs), old(buf[..]), aux, left, ok, buf[..], aux', left')
  {
    ok, aux', left' := true, aux, left;
    WroteNothing(buf[..], aux, left);
    ListTyped(r, recs);
    var i := 0;
    while i < |recs|
      invariant i <= |recs| && ok
      invariant Wrote(FlattenList(r, recs[..i]), old(buf[..]), aux, left, ok, buf[..], aux', left')
    {
      ghost var done, node := FlattenList(r, recs[..i]), FlattenRecord(r, recs[i], 0);
      ghost var more := FlattenList(r, recs[i + 1..]);
      assert recs == recs[..i + 1] + recs[i + 1..];
      TakeNext(recs, i);
      FlattenListConcat(r, recs[..i + 1], recs[i + 1..]);
      FlattenListConcat(r, recs[..i], [recs[i]]);
      assert FlattenList(r, [recs[i]]) == node by {
        assert [recs[i]][1..] == [] && node + [] == node;
      }
      PartsTyped(done + node, more, FlattenList(r, recs));
      ghost var middle, mid, left1 := buf[..], aux', left';
      ok, aux', left' := PackRecord(r, recs[i], buf, aux', left');
      WroteBoth(done, node, old(buf[..]), aux, left, middle, mid, left1, ok, buf[..], aux', left');
      if !ok {
        FailedFirst(done + node, more, old(buf[..]), aux, left, buf[..], aux', left');
        return;
      }
      i := i + 1;
    }
    assert recs[..|recs|] == recs;
  }

  method PackItem(item: Item, prev: nat, slot: Slot, buf: array<byte>, aux: nat, left: int)
      returns (ok: bool, aux': nat, left': int)
    requires SlotTyped(item, prev, slot) && aux <= buf.Length && aux + left <= buf.Length
    modifies buf
    ensures Wrote(FlattenSlot(item, prev, slot), old(buf[..]), aux, left, ok, buf[..], aux', left')
  {
    if item.Field? {
      ok, aux', left' := PackField(item.kind, prev, slot.v, buf, aux, left);
    } else {
      ok, aux', left' := PackList(RecordKindOf(item), slot.records, buf, aux, left);
    }
  }

  lemma NextSlot(items: seq<Item>, tt: Struct, i: nat, done: seq<Token>)
    requires StructTyped(items, tt) && i < |tt| && done + Flatten(items, tt, i) == Flatten(items, tt, 0)
    ensures SlotTyped(items[i], PrevNum(tt, i), tt[i])
    ensures var slot := FlattenSlot(items[i], PrevNum(tt, i), tt[i]);
            && done + slot + Flatten(items, tt, i + 1) == Flatten(items, tt, 0)
            && AllTyped(done + slot) && AllTyped(Flatten(items, tt, i + 1))
  {
    var slot, more := FlattenSlot(items[i], PrevNum(tt, i), tt[i]), Flatten(items, tt, i + 1);
    FlattenTyped(items, tt, 0);
    assert done + (slot + more) == done + slot + more;
    PartsTyped(done + slot, more, Flatten(items, tt, 0));
  }

  /** Slots before i are packed: what an iteration that packs slot i leaves. */
  lemma SlotWrote(items: seq<Item>, tt: Struct, i: nat, done: seq<Token>, size: nat,
                  before: seq<byte>, middle: seq<byte>, mid: nat, left1: int,
                  ok: bool, after: seq<byte>, aux: nat, left: int)
    requires StructTyped(items, tt) && i < |tt| && done + Flatten(items, tt, i) == Flatten(items, tt, 0)
    requires Wrote(done, before, 0, size, true, middle, mid, left1)
    requires Wrote(FlattenSlot(items[i], PrevNum(tt, i), tt[i]), middle, mid, left1, ok, after, aux, left)
    ensures var slot := FlattenSlot(items[i], PrevNum(tt, i), tt[i]);
            if ok then Wrote(done + slot, before, 0, size, true, after, aux, left)
                       && done + slot + Flatten(items, tt, i + 1) == Flatten(items, tt, 0)
            else Wrote(Flatten(items, tt, 0), before, 0, size, false, after, aux, left)
  {
    NextSlot(items, tt, i, done);
    var slot := FlattenSlot(items[i], PrevNum(tt, i), tt[i]);
    WroteBoth(done, slot, before, 0, size, middle, mid, left1, ok, after, aux, left);
    if !ok {
      FailedFirst(done + slot, Flatten(items, tt, i + 1), before, 0, size, after, aux, left);
    }
  }

  lemma WroteRoom(ts: seq<Token>, before: seq<byte>, aux: nat, left: int, after: seq<byte>, aux': nat, left': int)
    requires Wrote(ts, before, aux, left, true, after, aux', left')
    ensures aux' <= |after| && aux' + left' <= |after|
  {
  }

  /** The entries of a frame, one after the other. */
  method PackItems(items: seq<Item>, tt: Struct, buf: array<byte>, size: nat)
      returns (ok: bool, aux: nat, left: int)
    requires StructTyped(items, tt) && size <= buf.Length
    modifies buf
    ensures Wrote(Flatten(items, tt, 0), old(buf[..]), 0, size, ok, buf[..], aux, left)
  {
    ghost var done: seq<Token> := [];
    ok, aux, left := true, 0, size;
    var i := 0;
    WroteNothing(buf[..], 0, size);
    while i < |items|
      invariant i <= |items|
      invariant done + Flatten(items, tt, i) == Flatten(items, tt, 0)
      invariant Wrote(done, old(buf[..]), 0, size, true, buf[..], aux, left)
      invariant ok
    {
      NextSlot(items, tt, i, done);
      WroteRoom(done, old(buf[..]), 0, size, buf[..], aux, left);
      ghost var middle, mid, left1 := buf[..], aux, left;
      ok, aux, left := PackItem(items[i], PrevNum(tt, i), tt[i], buf, aux, left);
      SlotWrote(items, tt, i, done, size, old(buf[..]), middle, mid, left1, ok, buf[..], aux, left);
      if !ok { return; }
      done := done + FlattenSlot(items[i], PrevNum(tt, i), tt[i]);
      i := i + 1;
    }
    AppendNothing(done);
  }

  /** Writing four octets over the first four of what was packed. */
  lemma FirstFourPatched(before: seq<byte>, o: seq<byte>, h: seq<byte>, after: seq<byte>)
    requires |h| == 4 <= |o| <= |before|
    requires after == Splice(Splice(before, 0, o), 0, h)
    ensures after[..|o|] == h + o[4..] && after[|o|..] == before[|o|..]
  {
    var packed := Splice(before, 0, o);
    assert packed == o + before[|o|..];
    assert packed[4..] == o[4..] + before[|o|..];
    assert after == h + o[4..] + before[|o|..];
  }

  /**
   * smpp34_pack. On success the first len octets of the buffer are the PDU, the others are untouched and the source
   * structure tells the length; on failure ret is -1.
   */
  method SmppPack(command: int, ptrBuf: array<byte>, ptrSize: nat, tt: Struct)
      returns (ret: int, len: nat, source: Struct)
    requires CommandTyped(command, tt) && ptrSize <= ptrBuf.Length && ptrSize < 0x8000_0000
    modifies ptrBuf
    ensures ret == if Packed(command, tt, ptrSize).Some? then 0 else -1
    ensures ret == 0 ==>
              && len == |Packed(command, tt, ptrSize).value| <= ptrSize
              && ptrBuf[..len] == Packed(command, tt, ptrSize).value
              && ptrBuf[len..] == old(ptrBuf[len..])
              && tt != [] && source == SetLength(tt, len)
  {
    ret, len, source := -1, 0, tt;
    var frame := Frame(command);
    if frame.None? { return; }
    var items := frame.value;
    EveryFrame(command);
    assert items == HEADER + items[4..];
    HeaderFirst(items[4..], tt, ptrSize);
    var ok, aux, left := PackItems(items, tt, ptrBuf, ptrSize);
    if !ok { return; }
    ghost var o := PackTokens(Flatten(items, tt, 0), ptrSize).value;
    CopyOctets(ptrBuf, 0, BigEndian(4, aux));
    FirstFourPatched(old(ptrBuf[..]), o, BigEndian(4, aux), ptrBuf[..]);
    assert ptrBuf[..][..aux] == ptrBuf[..aux];
    ret, len, source := 0, aux, SetLength(tt, aux);
  }
}
