/** The printer and the parser are inverse: what smpp34_unpack accepts is exactly what smpp34_pack writes. */
module RoundTrip {
  import opened Sequences
  import opened Bytes
  import opened Params
  import opened Frames
  import opened Tokens
  import opened Pack
  import opened Unpack

  /** A field the parser can have read: the printer takes it too, but for a short message of full length. */
  predicate Readable(t: Token) {
    Typed(t) && Terminated(t) && (Accepted(t) || (t.kind.Octet8? && t.announced == t.kind.limit))
  }

  ghost predicate AllReadable(ts: seq<Token>) {
    forall t | t in ts :: Readable(t)
  }

  /** The octets from aux on start with the encoding of ts. */
  ghost predicate Holds(ts: seq<Token>, buf: seq<byte>, aux: nat, next: nat) {
    AllReadable(ts) && aux <= next <= |buf| && EncodeAll(ts) == buf[aux..next]
  }

  // One field

  lemma {:induction false} NulFound(buf: seq<byte>, aux: nat, nul: nat)
    requires aux <= nul < |buf| && buf[nul] == 0 && 0 !in buf[aux..nul]
    ensures NulFrom(buf, aux) == nul
    decreases nul - aux
  {
    if aux < nul {
      assert buf[aux] in buf[aux..nul];
      NulFound(buf, aux + 1, nul);
    }
  }

  lemma StringReadsBack(size: pos, v: seq<byte>, prev: nat, buf: seq<byte>, aux: nat, next: nat)
    requires 0 !in v && |v| < size && aux <= next <= |buf| && v + [0] == buf[aux..next]
    ensures UnpackField(COctet(size), prev, buf, aux) == Parsed(Octets(v), next)
  {
    var nul := next - 1;
    assert buf[nul] == buf[aux..next][nul - aux];
    assert buf[aux..nul] == buf[aux..next][..nul - aux];
    Appended(v, [0]);
    NulFound(buf, aux, nul);
  }

  lemma FieldReadsBack(t: Token, prev: nat, buf: seq<byte>, aux: nat, next: nat)
    requires t == MakeToken(t.kind, prev, t.v) && Readable(t)
    requires aux <= next <= |buf| && Encoding(t) == buf[aux..next]
    ensures UnpackField(t.kind, prev, buf, aux) == Parsed(t.v, next)
  {
    if IsNumber(t.kind) {
      NumberRoundTrip(Width(t.kind), t.v.n);
      assert |Encoding(t)| == Width(t.kind);
    } else if t.kind.COctet? {
      StringReadsBack(t.kind.size, t.v.b, prev, buf, aux, next);
    }
  }

  lemma NumberPrints(w: nat, check: Check, buf: seq<byte>, aux: nat)
    requires aux <= |buf| && UnpackNumber(w, check, buf, aux).Parsed?
    ensures var p := UnpackNumber(w, check, buf, aux);
            && p.v.Num? && p.v.n < Pow256(w) && Passes(check, p.v.n) && p.next == aux + w
            && BigEndian(w, p.v.n) == buf[aux..p.next]
  {
    OctetsRoundTrip(buf[aux..aux + w]);
  }

  lemma StringPrints(size: pos, buf: seq<byte>, aux: nat)
    requires aux <= |buf| && UnpackField(COctet(size), 0, buf, aux).Parsed?
    ensures var p := UnpackField(COctet(size), 0, buf, aux);
            && p.v.Octets? && 0 !in p.v.b && |p.v.b| < size && p.v.b + [0] == buf[aux..p.next]
  {
    var nul := NulFrom(buf, aux);
    assert buf[aux..nul + 1] == buf[aux..nul] + [0];
  }

  lemma FieldPrints(k: Kind, prev: nat, buf: seq<byte>, aux: nat)
    requires aux <= |buf| && UnpackField(k, prev, buf, aux).Parsed?
    ensures var p := UnpackField(k, prev, buf, aux);
            var t := MakeToken(k, prev, p.v);
            Readable(t) && Encoding(t) == buf[aux..p.next]
  {
    match k
    case U32(c) => NumberPrints(4, c, buf, aux);
    case U16(c) => NumberPrints(2, c, buf, aux);
    case U08(c) => NumberPrints(1, c, buf, aux);
    case COctet(size) => StringPrints(size, buf, aux);
    case _ =>
  }

  /** A run of fields held by the buffer splits behind its first part. */
  lemma HoldsSplit(a: seq<Token>, b: seq<Token>, buf: seq<byte>, aux: nat, next: nat) returns (mid: nat)
    requires Holds(a + b, buf, aux, next)
    ensures Holds(a, buf, aux, mid) && Holds(b, buf, mid, next)
    ensures mid == aux + |EncodeAll(a)|
  {
    assert AllTyped(a) && AllTyped(b) && AllReadable(a) && AllReadable(b) by {
      forall t | t in a || t in b ensures Readable(t) { assert t in a + b; }
    }
    EncodeConcat(a, b);
    mid := aux + |EncodeAll(a)|;
    SliceSplit(buf, aux, mid, next, EncodeAll(a), EncodeAll(b));
  }

  lemma SliceSplit(buf: seq<byte>, aux: nat, mid: nat, next: nat, x: seq<byte>, y: seq<byte>)
    requires aux <= next <= |buf| && x + y == buf[aux..next] && mid == aux + |x|
    ensures mid <= next && x == buf[aux..mid] && y == buf[mid..next]
  {
    assert buf[aux..mid] == (x + y)[..|x|];
    assert buf[mid..next] == (x + y)[|x|..];
  }

  lemma HoldsJoin(a: seq<Token>, b: seq<Token>, buf: seq<byte>, aux: nat, mid: nat, next: nat)
    requires Holds(a, buf, aux, mid) && Holds(b, buf, mid, next)
    ensures Holds(a + b, buf, aux, next)
  {
    EncodeConcat(a, b);
    SliceJoin(buf, aux, mid, next);
    forall t | t in a + b ensures Readable(t) { assert t in a || t in b; }
  }

  lemma SliceJoin(buf: seq<byte>, aux: nat, mid: nat, next: nat)
    requires aux <= mid <= next <= |buf|
    ensures buf[aux..mid] + buf[mid..next] == buf[aux..next]
  {
  }

  lemma HoldsOne(t: Token, buf: seq<byte>, aux: nat, next: nat)
    ensures Holds([t], buf, aux, next) <==> Readable(t) && aux <= next <= |buf| && Encoding(t) == buf[aux..next]
  {
    assert t in [t];
    if Readable(t) {
      assert AllTyped([t]);
      assert [t][1..] == [];
      assert EncodeAll([t]) == Encoding(t) + [] == Encoding(t);
    }
  }

  // A record

  lemma RecordTurnRead(r: RecordKind, vals: Record, v: Value, buf: seq<byte>, aux: nat, mid: nat)
    requires aux <= |buf| && mid <= |buf| && RecordNext(r, vals).Some?
    requires UnpackField(RecordNext(r, vals).value, LastNum(vals), buf, aux) == Parsed(v, mid)
    ensures UnpackRecord(r, vals, buf, aux) == UnpackRecord(r, vals + [v], buf, mid)
  {
  }

  lemma {:induction false} RecordReadsBack(r: RecordKind, rec: Record, done: nat, buf: seq<byte>, aux: nat, next: nat)
    requires done <= |rec| && RecordShape(r, rec, done)
    requires Holds(FlattenRecord(r, rec, done), buf, aux, next)
    ensures UnpackRecord(r, rec[..done], buf, aux) == Parsed(rec, next)
    decreases |rec| - done
  {
    if done == |rec| {
      TakeAll(rec);
    } else {
      var prev := LastNum(rec[..done]);
      var t := MakeToken(RecordNext(r, rec[..done]).value, prev, rec[done]);
      var mid := HoldsSplit([t], FlattenRecord(r, rec, done + 1), buf, aux, next);
      HoldsOne(t, buf, aux, mid);
      FieldReadsBack(t, prev, buf, aux, mid);
      RecordTurnRead(r, rec[..done], rec[done], buf, aux, mid);
      TakeNext(rec, done);
      RecordReadsBack(r, rec, done + 1, buf, mid, next);
    }
  }

  lemma {:induction false} RecordPrints(r: RecordKind, vals: Record, buf: seq<byte>, aux: nat)
    requires aux <= |buf| && UnpackRecord(r, vals, buf, aux).Parsed?
    ensures var p := UnpackRecord(r, vals, buf, aux);
            && |vals| <= |p.v| && p.v[..|vals|] == vals
            && RecordShape(r, p.v, |vals|)
            && Holds(FlattenRecord(r, p.v, |vals|), buf, aux, p.next)
    decreases 4 - |vals|
  {
    var p := UnpackRecord(r, vals, buf, aux);
    match RecordNext(r, vals)
    case None =>
    case Some(k) =>
      var f := UnpackField(k, LastNum(vals), buf, aux);
      FieldPrints(k, LastNum(vals), buf, aux);
      RecordPrints(r, vals + [f.v], buf, f.next);
      assert p.v[..|vals|] == (vals + [f.v])[..|vals|] == vals;
      assert p.v[|vals|] == (vals + [f.v])[|vals|] == f.v;
      var t := MakeToken(k, LastNum(vals), f.v);
      HoldsOne(t, buf, aux, f.next);
      HoldsJoin([t], FlattenRecord(r, p.v, |vals| + 1), buf, aux, f.next, p.next);
  }

  // The record lists, which come back in the opposite order

  lemma {:induction false} CountedReadsBack(r: RecordKind, recs: seq<Record>, list: seq<Record>, buf: seq<byte>,
                                            aux: nat, next: nat)
    requires forall rec | rec in recs :: RecordShape(r, rec, 0)
    requires Holds(FlattenList(r, recs), buf, aux, next)
    ensures UnpackCounted(r, |recs|, list, buf, aux) == Parsed(Reverse(recs) + list, next)
    decreases recs
  {
    if recs == [] {
      assert Reverse(recs) + list == list;
    } else {
      var mid := HoldsSplit(FlattenRecord(r, recs[0], 0), FlattenList(r, recs[1..]), buf, aux, next);
      assert recs[0][..0] == [];
      RecordReadsBack(r, recs[0], 0, buf, aux, mid);
      assert UnpackCounted(r, |recs|, list, buf, aux) == UnpackCounted(r, |recs[1..]|, [recs[0]] + list, buf, mid);
      CountedReadsBack(r, recs[1..], [recs[0]] + list, buf, mid, next);
      ReverseOnto(recs, list);
    }
  }

  lemma {:induction false} TailReadsBack(r: RecordKind, recs: seq<Record>, list: seq<Record>, buf: seq<byte>,
                                         aux: nat, next: nat)
    requires r.TlvRecord? && forall rec | rec in recs :: RecordShape(r, rec, 0)
    requires Holds(FlattenList(r, recs), buf, aux, next)
    ensures UnpackTail(r, next, list, buf, aux) == Parsed(Reverse(recs) + list, next)
    decreases recs
  {
    if recs == [] {
      assert Reverse(recs) + list == list;
    } else {
      var mid := HoldsSplit(FlattenRecord(r, recs[0], 0), FlattenList(r, recs[1..]), buf, aux, next);
      assert recs[0][..0] == [];
      RecordReadsBack(r, recs[0], 0, buf, aux, mid);
      assert aux + LeastSize(r, 0) <= mid;
      assert UnpackTail(r, next, list, buf, aux) == UnpackTail(r, next, [recs[0]] + list, buf, mid);
      TailReadsBack(r, recs[1..], [recs[0]] + list, buf, mid, next);
      ReverseOnto(recs, list);
    }
  }

  /** A list the parser has built in front of list, and the records in the order they were read. */
  ghost predicate BuiltFrom(out: seq<Record>, recs: seq<Record>, list: seq<Record>, r: RecordKind, buf: seq<byte>,
                            aux: nat, next: nat) {
    && out == Reverse(recs) + list
    && (forall rec | rec in recs :: RecordShape(r, rec, 0))
    && Holds(FlattenList(r, recs), buf, aux, next)
  }

  lemma BuiltFromNothing(list: seq<Record>, r: RecordKind, buf: seq<byte>, aux: nat)
    requires aux <= |buf|
    ensures BuiltFrom(list, [], list, r, buf, aux, aux)
  {
    assert [] + list == list;
  }

  lemma BuiltFromCons(rec: Record, out: seq<Record>, recs: seq<Record>, list: seq<Record>, r: RecordKind,
                      buf: seq<byte>, aux: nat, mid: nat, next: nat)
    requires RecordShape(r, rec, 0) && Holds(FlattenRecord(r, rec, 0), buf, aux, mid)
    requires BuiltFrom(out, recs, [rec] + list, r, buf, mid, next)
    ensures BuiltFrom(out, [rec] + recs, list, r, buf, aux, next)
  {
    var all := [rec] + recs;
    Appended([rec], recs);
    ReverseOnto(all, list);
    HoldsJoin(FlattenRecord(r, rec, 0), FlattenList(r, recs), buf, aux, mid, next);
  }

  lemma {:induction false} CountedPrints(r: RecordKind, n: nat, list: seq<Record>, buf: seq<byte>, aux: nat)
      returns (recs: seq<Record>)
    requires aux <= |buf| && UnpackCounted(r, n, list, buf, aux).Parsed?
    ensures |recs| == n
    ensures var p := UnpackCounted(r, n, list, buf, aux); BuiltFrom(p.v, recs, list, r, buf, aux, p.next)
    decreases n
  {
    var p := UnpackCounted(r, n, list, buf, aux);
    if n == 0 {
      recs := [];
      BuiltFromNothing(list, r, buf, aux);
    } else {
      var first := UnpackRecord(r, [], buf, aux);
      RecordPrints(r, [], buf, aux);
      assert p == UnpackCounted(r, n - 1, [first.v] + list, buf, first.next);
      var more := CountedPrints(r, n - 1, [first.v] + list, buf, first.next);
      BuiltFromCons(first.v, p.v, more, list, r, buf, aux, first.next, p.next);
      recs := [first.v] + more;
    }
  }

  lemma {:induction false} TailPrints(r: RecordKind, limit: nat, list: seq<Record>, buf: seq<byte>, aux: nat)
      returns (recs: seq<Record>)
    requires aux <= |buf| && r.TlvRecord? && UnpackTail(r, limit, list, buf, aux).Parsed?
    ensures var p := UnpackTail(r, limit, list, buf, aux); BuiltFrom(p.v, recs, list, r, buf, aux, p.next)
    decreases |buf| - aux
  {
    if limit <= aux {
      recs := [];
      BuiltFromNothing(list, r, buf, aux);
    } else {
      var first := UnpackRecord(r, [], buf, aux);
      RecordPrints(r, [], buf, aux);
      var more := TailPrints(r, limit, [first.v] + list, buf, first.next);
      recs := [first.v] + more;
      var p := UnpackTail(r, limit, list, buf, aux);
      BuiltFromCons(first.v, p.v, more, list, r, buf, aux, first.next, p.next);
    }
  }

  lemma {:induction false} ListReadable(r: RecordKind, recs: seq<Record>)
    requires AllReadable(FlattenList(r, recs)) && forall rec | rec in recs :: RecordShape(r, rec, 0)
    ensures forall rec | rec in recs :: RecordTyped(r, rec)
  {
    if recs != [] {
      var first, more := FlattenRecord(r, recs[0], 0), FlattenList(r, recs[1..]);
      forall t | t in first || t in more ensures Readable(t) { assert t in first + more; }
      ListReadable(r, recs[1..]);
      forall rec | rec in recs ensures RecordTyped(r, rec) {
        if rec != recs[0] { assert rec in recs[1..]; }
      }
    }
  }

  // An entry of a frame

  lemma SlotReadsBack(item: Item, s: Struct, slot: Slot, buf: seq<byte>, aux: nat, next: nat)
    requires SlotTyped(item, PrevNum(s, |s|), slot) && CountMatches(item, PrevNum(s, |s|), slot)
    requires item.Tail? ==> CommandLength(s) == next
    requires Holds(FlattenSlot(item, PrevNum(s, |s|), slot), buf, aux, next)
    ensures UnpackItem(item, s, buf, aux) == Parsed(ReversedSlot(slot), next)
  {
    var prev := PrevNum(s, |s|);
    match item
    case Field(_, k) =>
      HoldsOne(MakeToken(k, prev, slot.v), buf, aux, next);
      FieldReadsBack(MakeToken(k, prev, slot.v), prev, buf, aux, next);
    case Counted(_, r) =>
      CountedReadsBack(r, slot.records, [], buf, aux, next);
      assert Reverse(slot.records) + [] == Reverse(slot.records);
    case Tail(_, table) =>
      TailReadsBack(TlvRecord(table), slot.records, [], buf, aux, next);
      assert Reverse(slot.records) + [] == Reverse(slot.records);
  }

  lemma SlotPrints(item: Item, s: Struct, buf: seq<byte>, aux: nat)
    requires aux <= |buf| && UnpackItem(item, s, buf, aux).Parsed?
    ensures var p := UnpackItem(item, s, buf, aux);
            var prev, slot := PrevNum(s, |s|), ReversedSlot(p.v);
            && SlotTyped(item, prev, slot) && CountMatches(item, prev, slot)
            && Holds(FlattenSlot(item, prev, slot), buf, aux, p.next)
  {
    var p := UnpackItem(item, s, buf, aux);
    var prev := PrevNum(s, |s|);
    match item
    case Field(_, k) =>
      FieldPrints(k, prev, buf, aux);
      HoldsOne(MakeToken(k, prev, p.v.v), buf, aux, p.next);
    case Counted(_, r) =>
      var recs := CountedPrints(r, prev, [], buf, aux);
      ListInOrder(p.v.records, recs, r, buf, aux, p.next);
      ReverseTwice(recs);
    case Tail(_, table) =>
      var recs := TailPrints(TlvRecord(table), CommandLength(s), [], buf, aux);
      ListInOrder(p.v.records, recs, TlvRecord(table), buf, aux, p.next);
  }

  lemma ListInOrder(out: seq<Record>, recs: seq<Record>, r: RecordKind, buf: seq<byte>, aux: nat, next: nat)
    requires BuiltFrom(out, recs, [], r, buf, aux, next)
    ensures Reverse(out) == recs
    ensures forall rec | rec in recs :: RecordTyped(r, rec)
  {
    assert out == Reverse(recs);
    ReverseTwice(recs);
    ListReadable(r, recs);
  }

  // A whole frame

  /** Only the last entry of a frame can be the TLV tail. */
  ghost predicate TailLast(items: seq<Item>) {
    forall i | 0 <= i < |items| - 1 :: !items[i].Tail?
  }

  ghost predicate NoTail(items: seq<Item>) {
    forall item | item in items :: !item.Tail?
  }

  lemma TailLastBehind(a: seq<Item>, b: seq<Item>)
    requires NoTail(a) && TailLast(b)
    ensures TailLast(a + b) && (NoTail(b) ==> NoTail(a + b))
  {
  }

  lemma MessageFrameTail(timeSize: pos, table: TlvTable)
    ensures TailLast(MessageFrame(timeSize, table))
  {
  }

  lemma EveryBody(command: int)
    requires Body(command).Some?
    ensures TailLast(Body(command).value)
  {
    if command == SUBMIT_SM {
      MessageBody(Destination(21), 17, SubmitSmTlv);
    } else if command == DELIVER_SM {
      MessageBody(Destination(21), 1, DeliverSmTlv);
    } else if command == SUBMIT_MULTI {
      MessageBody([Field("number_of_dests", U08(AnyValue)), Counted("dest_addr_def", DadRecord)], 17, SubmitMultiTlv);
    } else if command == DATA_SM {
      TailLastBehind(SOURCE, Destination(65));
      TailLastBehind(SOURCE + Destination(65), DATA_FRAME);
    } else {
      OtherBody(command);
    }
  }

  lemma MessageBody(between: seq<Item>, timeSize: pos, table: TlvTable)
    requires NoTail(between)
    ensures TailLast(SOURCE + between + MessageFrame(timeSize, table))
  {
    TailLastBehind(SOURCE, between);
    MessageFrameTail(timeSize, table);
    TailLastBehind(SOURCE + between, MessageFrame(timeSize, table));
  }

  lemma OtherBody(command: int)
    requires Body(command).Some? && command !in {SUBMIT_SM, DELIVER_SM, SUBMIT_MULTI, DATA_SM}
    ensures TailLast(Body(command).value)
  {
    var body := Body(command).value;
    if command == CANCEL_SM {
      assert NoTail(MESSAGE_ID_AND_SOURCE);
      TailLastBehind([Field("service_type", COctet(6))], MESSAGE_ID_AND_SOURCE);
      TailLastBehind([Field("service_type", COctet(6))] + MESSAGE_ID_AND_SOURCE, Destination(21));
    } else if command == REPLACE_SM {
      assert NoTail(MESSAGE_ID_AND_SOURCE);
      TailLastBehind(MESSAGE_ID_AND_SOURCE, REPLACEMENT);
    }
  }

  lemma EveryFrame(command: int)
    requires Frame(command).Some?
    ensures HEADER <= Frame(command).value && TailLast(Frame(command).value)
  {
    EveryBody(command);
    TailLastBehind(HEADER, Body(command).value);
  }

  lemma ReversedPrefix(u: Struct, i: nat)
    requires i < |u|
    ensures Reversed(u[..i + 1]) == Reversed(u[..i]) + [ReversedSlot(u[i])]
    ensures PrevNum(Reversed(u[..i]), i) == PrevNum(u, i)
    ensures i > 0 ==> CommandLength(Reversed(u[..i])) == SlotNum(u[0])
  {
  }

  lemma {:induction false} ItemsReadBack(items: seq<Item>, u: Struct, i: nat, buf: seq<byte>, aux: nat, next: nat)
    requires HEADER <= items && TailLast(items) && StructTyped(items, u) && CountsMatch(items, u) && i <= |u|
    requires SlotNum(u[0]) == next && Holds(Flatten(items, u, i), buf, aux, next)
    ensures UnpackItems(items, Reversed(u[..i]), buf, aux) == Parsed(Reversed(u), next)
    decreases |u| - i
  {
    var s := Reversed(u[..i]);
    if i == |u| {
      assert u[..i] == u;
    } else {
      ReversedPrefix(u, i);
      var mid := HoldsSplit(FlattenSlot(items[i], PrevNum(u, i), u[i]), Flatten(items, u, i + 1), buf, aux, next);
      assert items[i].Tail? ==> mid == next && i > 0 by {
        assert items[0] == HEADER[0];
        if items[i].Tail? { assert i + 1 == |u|; }
      }
      SlotReadsBack(items[i], s, u[i], buf, aux, mid);
      ItemsReadBack(items, u, i + 1, buf, mid, next);
    }
  }

  /** The slots from i on are of their types and their counts match. */
  ghost predicate TypedFrom(items: seq<Item>, u: Struct, i: nat) {
    && |u| == |items|
    && forall j | i <= j < |u| ::
         SlotTyped(items[j], PrevNum(u, j), u[j]) && CountMatches(items[j], PrevNum(u, j), u[j])
  }

  lemma ItemsJoin(items: seq<Item>, u: Struct, i: nat, buf: seq<byte>, aux: nat, mid: nat, next: nat)
    requires i < |u| == |items| && TypedFrom(items, u, i + 1)
    requires SlotTyped(items[i], PrevNum(u, i), u[i]) && CountMatches(items[i], PrevNum(u, i), u[i])
    requires Holds(FlattenSlot(items[i], PrevNum(u, i), u[i]), buf, aux, mid)
    requires Holds(Flatten(items, u, i + 1), buf, mid, next)
    ensures TypedFrom(items, u, i) && Holds(Flatten(items, u, i), buf, aux, next)
  {
    HoldsJoin(FlattenSlot(items[i], PrevNum(u, i), u[i]), Flatten(items, u, i + 1), buf, aux, mid, next);
  }

  lemma {:induction false} ItemsPrint(items: seq<Item>, s: Struct, buf: seq<byte>, aux: nat)
    requires aux <= |buf| && |s| <= |items| && UnpackItems(items, s, buf, aux).Parsed?
    ensures var p := UnpackItems(items, s, buf, aux);
            TypedFrom(items, Reversed(p.v), |s|) && Holds(Flatten(items, Reversed(p.v), |s|), buf, aux, p.next)
    decreases |items| - |s|
  {
    var p := UnpackItems(items, s, buf, aux);
    if |s| < |items| {
      var q := UnpackItem(items[|s|], s, buf, aux);
      SlotPrints(items[|s|], s, buf, aux);
      assert p == UnpackItems(items, s + [q.v], buf, q.next);
      ItemsPrint(items, s + [q.v], buf, q.next);
      PrefixSlots(p.v, s, q.v);
      ItemsJoin(items, Reversed(p.v), |s|, buf, aux, q.next, p.next);
    }
  }

  lemma PrefixSlots(whole: Struct, s: Struct, slot: Slot)
    requires |s| < |whole| && whole[..|s| + 1] == s + [slot]
    ensures whole[|s|] == slot && PrevNum(Reversed(whole), |s|) == PrevNum(s, |s|)
  {
    assert whole[|s|] == whole[..|s| + 1][|s|];
    if s != [] {
      assert whole[|s| - 1] == whole[..|s| + 1][|s| - 1] == s[|s| - 1];
    }
  }

  /** The octets o are the encoding of the structure u, under the command's schema, and u states their number. */
  ghost predicate Denotes(command: int, u: Struct, o: seq<byte>) {
    && Frame(command).Some?
    && var items := Frame(command).value;
    && StructTyped(items, u) && CountsMatch(items, u)
    && Holds(Flatten(items, u, 0), o, 0, |o|)
    && CommandLength(u) == |o|
  }

  /** smpp34_unpack returns s for exactly the buffers that start with the encoding of s, lists in opposite order. */
  lemma ParserExact(command: int, buf: seq<byte>, s: Struct)
    ensures Unpacked(command, buf) == Some(s)
            <==> CommandLength(s) <= |buf| && Denotes(command, Reversed(s), buf[..CommandLength(s)])
  {
    if Frame(command).Some? {
      var items := Frame(command).value;
      EveryFrame(command);
      var u, L := Reversed(s), CommandLength(s);
      ReversedTwice(s);
      if Unpacked(command, buf) == Some(s) {
        ItemsPrint(items, [], buf, 0);
        var o := buf[..L];
        assert o[0..L] == buf[0..L];
        assert Denotes(command, u, o);
      } else if L <= |buf| && Denotes(command, u, buf[..L]) {
        assert buf[..L][0..L] == buf[0..L];
        assert u[..0] == [] && Reversed(u[..0]) == [];
        ItemsReadBack(items, u, 0, buf, 0, L);
      }
    }
  }

  lemma ReversedTwice(s: Struct)
    ensures Reversed(Reversed(s)) == s
    ensures CommandLength(Reversed(s)) == CommandLength(s)
  {
    forall i | 0 <= i < |s| ensures ReversedSlot(ReversedSlot(s[i])) == s[i] {
      if s[i].List? { ReverseTwice(s[i].records); }
    }
  }

  /** No octets are the encoding of two structures, and a buffer cut inside a PDU is rejected. */
  lemma EncodingsDistinct(command: int, u: Struct, v: Struct, o: seq<byte>)
    requires Denotes(command, u, o) && Denotes(command, v, o)
    ensures u == v
  {
    ReversedTwice(u);
    ReversedTwice(v);
    assert o[..|o|] == o;
    ParserExact(command, o, Reversed(u));
    ParserExact(command, o, Reversed(v));
  }

  lemma TruncationRejected(command: int, buf: seq<byte>, s: Struct, k: nat)
    requires Unpacked(command, buf) == Some(s) && k < CommandLength(s)
    ensures k <= |buf| && Unpacked(command, buf[..k]) == None
  {
    ParserExact(command, buf, s);
    var short := Unpacked(command, buf[..k]);
    if short.Some? {
      var L := CommandLength(short.value);
      ParserExact(command, buf[..k], short.value);
      assert buf[..k][..L] == buf[..L];
      ParserExact(command, buf, short.value);
    }
  }

  // Printer then parser

  /** The structure with its command_length field set: what smpp34_pack leaves in the source. */
  function SetLength(s: Struct, n: nat): Struct
    requires s != []
  {
    s[0 := Leaf(Num(n))]
  }

  lemma {:induction false} SameBehindLength(items: seq<Item>, s: Struct, n: nat, i: nat)
    requires |s| == |items| && HEADER <= items && 1 <= i <= |s|
    ensures Flatten(items, SetLength(s, n), i) == Flatten(items, s, i)
    decreases |s| - i
  {
    if i < |s| {
      SameBehindLength(items, s, n, i + 1);
      assert items[1] == HEADER[1];
    }
  }

  lemma PowerOfFour()
    ensures Pow256(4) == 0x1_0000_0000
  {
    assert Pow256(1) == 256;
    assert Pow256(2) == 0x1_0000;
    assert Pow256(3) == 0x100_0000;
  }

  lemma SetLengthTyped(items: seq<Item>, s: Struct, n: nat)
    requires HEADER <= items && StructTyped(items, s) && n < Pow256(4)
    ensures StructTyped(items, SetLength(s, n))
    ensures CountsMatch(items, s) ==> CountsMatch(items, SetLength(s, n))
  {
    var u := SetLength(s, n);
    assert items[0] == HEADER[0] && items[1] == HEADER[1];
    forall i | 0 <= i < |u| ensures SlotTyped(items[i], PrevNum(u, i), u[i]) {
      assert SlotTyped(items[i], PrevNum(s, i), s[i]);
    }
    if CountsMatch(items, s) {
      forall i | 0 <= i < |u| ensures CountMatches(items[i], PrevNum(u, i), u[i]) {
        assert CountMatches(items[i], PrevNum(s, i), s[i]);
      }
    }
  }

  /** What pack writes is the encoding of the structure with its length filled in. */
  lemma PackedDenotes(command: int, s: Struct, size: int)
    requires CommandTyped(command, s) && CommandTerminated(command, s)
    requires Frame(command).Some? ==> CountsMatch(Frame(command).value, s)
    requires size < 0x8000_0000 && Packed(command, s, size).Some?
    ensures var o := Packed(command, s, size).value; Denotes(command, SetLength(s, |o|), o) && |o| <= size
  {
    var items := Frame(command).value;
    EveryFrame(command);
    FlattenTyped(items, s, 0);
    var ts := Flatten(items, s, 0);
    var body := Flatten(items, s, 1);
    assert items == HEADER + items[4..];
    HeaderFirst(items[4..], s, size);
    PackedIsEncoded(ts, size);
    var o := Packed(command, s, size).value;
    var u := SetLength(s, |o|);
    PowerOfFour();
    SetLengthTyped(items, s, |o|);
    SameBehindLength(items, s, |o|, 1);
    FlattenTyped(items, u, 0);
    var us := Flatten(items, u, 0);
    assert items[0] == HEADER[0];
    var length := Token(U32(AnyValue), 0, Num(|o|));
    assert us == [length] + body && ts == [Token(U32(AnyValue), 0, s[0].v)] + body;
    forall t | t in us ensures Readable(t) {
      assert t == length || t in ts;
    }
    assert us[1..] == body && ts[1..] == body && us[0] == length;
    assert EncodeAll(us) == BigEndian(4, |o|) + EncodeAll(body);
    assert EncodeAll(ts)[4..] == EncodeAll(body);
    assert o[0..|o|] == o;
  }

  /** Packing then unpacking gives the structure back, its length filled in and its lists in opposite order. */
  lemma PrinterThenParser(command: int, s: Struct, size: int, rest: seq<byte>)
    requires CommandTyped(command, s) && CommandTerminated(command, s)
    requires Frame(command).Some? ==> CountsMatch(Frame(command).value, s)
    requires size < 0x8000_0000 && Packed(command, s, size).Some?
    ensures var o := Packed(command, s, size).value;
            s != [] && Unpacked(command, o + rest) == Some(Reversed(SetLength(s, |o|)))
  {
    PackedDenotes(command, s, size);
    var o := Packed(command, s, size).value;
    var u := SetLength(s, |o|);
    ReversedTwice(u);
    assert (o + rest)[..|o|] == o;
    ParserExact(command, o + rest, Reversed(u));
  }

  // Parser then printer

  /** The structure holds as many octets of short message as unpack allows: one more than pack does. */
  ghost predicate FullShortMessage(command: int, u: Struct) {
    && Frame(command).Some?
    && var items := Frame(command).value;
    && |u| == |items|
    && exists i :: 0 <= i < |u| && FullAt(items[i], PrevNum(u, i))
  }

  predicate FullAt(item: Item, prev: nat) {
    item.Field? && item.kind.Octet8? && prev == item.kind.limit
  }

  lemma {:induction false} RecordHasNoOctet8(r: RecordKind, rec: Record, done: nat)
    requires done <= |rec|
    ensures forall t | t in FlattenRecord(r, rec, done) :: !t.kind.Octet8?
    decreases |rec| - done
  {
    if done < |rec| {
      RecordHasNoOctet8(r, rec, done + 1);
    }
  }

  lemma {:induction false} ListHasNoOctet8(r: RecordKind, recs: seq<Record>)
    ensures forall t | t in FlattenList(r, recs) :: !t.kind.Octet8?
  {
    if recs != [] {
      RecordHasNoOctet8(r, recs[0], 0);
      ListHasNoOctet8(r, recs[1..]);
    }
  }

  ghost predicate SomeFull(items: seq<Item>, u: Struct, i: nat)
    requires |u| == |items| && i <= |u|
  {
    exists j :: i <= j < |u| && FullAt(items[j], PrevNum(u, j))
  }

  lemma SomeFullFrom(items: seq<Item>, u: Struct, i: nat)
    requires |u| == |items| && i < |u|
    ensures SomeFull(items, u, i) <==> FullAt(items[i], PrevNum(u, i)) || SomeFull(items, u, i + 1)
  {
  }

  predicate TakesAll(ts: seq<Token>) {
    forall t | t in ts :: Typed(t) && Accepted(t)
  }

  lemma TakesInTwo(a: seq<Token>, b: seq<Token>)
    ensures TakesAll(a + b) <==> TakesAll(a) && TakesAll(b)
    ensures AllReadable(a + b) <==> AllReadable(a) && AllReadable(b)
  {
    forall t | t in a || t in b ensures t in a + b {}
    forall t | t in a + b ensures t in a || t in b {}
  }

  lemma SlotTaken(item: Item, prev: nat, slot: Slot)
    requires (item.Field? ==> slot.Leaf?) && AllReadable(FlattenSlot(item, prev, slot))
    ensures TakesAll(FlattenSlot(item, prev, slot)) <==> !FullAt(item, prev)
  {
    var here := FlattenSlot(item, prev, slot);
    if item.Field? {
      assert here == [MakeToken(item.kind, prev, slot.v)];
      assert here[0] in here;
    } else if slot.List? {
      ListHasNoOctet8(RecordKindOf(item), slot.records);
    }
  }

  lemma ReadableRest(items: seq<Item>, u: Struct, i: nat)
    requires i < |u| == |items| && AllReadable(Flatten(items, u, i))
    ensures AllReadable(FlattenSlot(items[i], PrevNum(u, i), u[i])) && AllReadable(Flatten(items, u, i + 1))
    ensures TakesAll(Flatten(items, u, i))
            <==> TakesAll(FlattenSlot(items[i], PrevNum(u, i), u[i])) && TakesAll(Flatten(items, u, i + 1))
  {
    TakesInTwo(FlattenSlot(items[i], PrevNum(u, i), u[i]), Flatten(items, u, i + 1));
  }

  lemma {:induction false} WhereUnaccepted(items: seq<Item>, u: Struct, i: nat)
    requires |u| == |items| && i <= |u| && AllReadable(Flatten(items, u, i))
    requires forall j | i <= j < |u| && items[j].Field? :: u[j].Leaf?
    ensures TakesAll(Flatten(items, u, i)) <==> !SomeFull(items, u, i)
    decreases |u| - i
  {
    if i < |u| {
      ReadableRest(items, u, i);
      SlotTaken(items[i], PrevNum(u, i), u[i]);
      SomeFullFrom(items, u, i);
      WhereUnaccepted(items, u, i + 1);
    }
  }

  /** What unpack accepts, pack writes again octet by octet, unless a short message is full. */
  lemma ParserThenPrinter(command: int, buf: seq<byte>, s: Struct, size: int)
    requires Unpacked(command, buf) == Some(s) && size > CommandLength(s)
    ensures CommandTyped(command, Reversed(s)) && CommandLength(s) <= |buf|
    ensures Packed(command, Reversed(s), size)
            == if FullShortMessage(command, Reversed(s)) then None else Some(buf[..CommandLength(s)])
  {
    var u, L := Reversed(s), CommandLength(s);
    ParserExact(command, buf, s);
    ReversedTwice(s);
    var items := Frame(command).value;
    EveryFrame(command);
    assert items == HEADER + items[4..];
    var ts := Flatten(items, u, 0);
    FlattenTyped(items, u, 0);
    forall j | 0 <= j < |u| && items[j].Field? ensures u[j].Leaf? {
      assert SlotTyped(items[j], PrevNum(u, j), u[j]);
    }
    WhereUnaccepted(items, u, 0);
    if FullShortMessage(command, u) {
      if PackTokens(ts, size).Some? {
        PackedIsEncoded(ts, size);
      }
    } else {
      EnoughRoom(ts, size);
      HeaderFirst(items[4..], u, size);
      var o := buf[..L];
      assert o[0..L] == o;
      assert EncodeAll(ts) == o;
      assert ts[0] == Token(U32(AnyValue), 0, Num(L));
      assert o == BigEndian(4, L) + EncodeAll(ts[1..]);
      assert WithLength(o) == o;
    }
  }

  // Buffer sizes

  /** Room for one octet more than the encoding is enough, and what is written does not depend on the room. */
  lemma SizeIrrelevant(command: int, s: Struct, size: int, other: int)
    requires CommandTyped(command, s) && CommandTerminated(command, s) && Packed(command, s, size).Some?
    ensures other > |Packed(command, s, size).value| ==> Packed(command, s, other) == Packed(command, s, size)
    ensures other < |Packed(command, s, size).value| ==> Packed(command, s, other) == None
  {
    var items := Frame(command).value;
    EveryFrame(command);
    assert items == HEADER + items[4..];
    FlattenTyped(items, s, 0);
    var ts := Flatten(items, s, 0);
    HeaderFirst(items[4..], s, size);
    PackedIsEncoded(ts, size);
    if other > |EncodeAll(ts)| {
      EnoughRoom(ts, other);
    } else if other < |EncodeAll(ts)| && PackTokens(ts, other).Some? {
      PackedIsEncoded(ts, other);
    }
  }
}
