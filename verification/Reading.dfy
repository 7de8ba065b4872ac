/** What smpp34_unpack makes of the octets of any structure, with values that its validators refuse as well. */
module Reading {
  import opened Sequences
  import opened Bytes
  import opened Params
  import opened Frames
  import opened Tokens
  import opened Pack
  import opened Unpack
  import opened RoundTrip

  /** The parser's validator, or its limit on the length, lets the value through. */
  predicate Taken(t: Token)
    requires Typed(t)
  {
    match t.kind
    case Octet8(limit) => t.announced <= limit
    case _ => Accepted(t)
  }

  predicate AllTaken(ts: seq<Token>)
    requires AllTyped(ts)
  {
    forall t | t in ts :: Taken(t)
  }

  /** What is left of a value once it has been written into its field. */
  function KeptValue(k: Kind, v: Value): Value {
    if k.COctet? && v.Octets? then Octets(Kept(v.b, k.size)) else v
  }

  /** The octets from aux to next are the encoding of ts. */
  predicate Spans(ts: seq<Token>, buf: seq<byte>, aux: nat, next: nat) {
    AllTyped(ts) && aux <= next <= |buf| && EncodeAll(ts) == buf[aux..next]
  }

  lemma FieldExact(t: Token, prev: nat, buf: seq<byte>, aux: nat, next: nat)
    requires t == MakeToken(t.kind, prev, t.v) && Typed(t)
    requires aux <= next <= |buf| && Encoding(t) == buf[aux..next]
    ensures UnpackField(t.kind, prev, buf, aux)
            == if Taken(t) then Parsed(KeptValue(t.kind, t.v), next) else Rejected
  {
    if IsNumber(t.kind) {
      NumberRoundTrip(Width(t.kind), t.v.n);
      assert |Encoding(t)| == Width(t.kind);
    } else if t.kind.COctet? {
      StringReadsBack(t.kind.size, Kept(t.v.b, t.kind.size), prev, buf, aux, next);
    }
  }

  lemma SpansSplit(a: seq<Token>, b: seq<Token>, buf: seq<byte>, aux: nat, next: nat) returns (mid: nat)
    requires Spans(a + b, buf, aux, next)
    ensures Spans(a, buf, aux, mid) && Spans(b, buf, mid, next) && mid == aux + |EncodeAll(a)|
    ensures AllTaken(a + b) <==> AllTaken(a) && AllTaken(b)
  {
    TypedInTwo(a, b);
    EncodeConcat(a, b);
    mid := aux + |EncodeAll(a)|;
    SliceSplit(buf, aux, mid, next, EncodeAll(a), EncodeAll(b));
    forall t | t in a || t in b ensures t in a + b {}
    forall t | t in a + b ensures t in a || t in b {}
  }

  lemma SpansOne(t: Token, buf: seq<byte>, aux: nat, next: nat)
    requires Spans([t], buf, aux, next)
    ensures Typed(t) && Encoding(t) == buf[aux..next] && (AllTaken([t]) <==> Taken(t))
  {
    assert t in [t];
    assert [t][1..] == [];
    assert EncodeAll([t]) == Encoding(t) + [] == Encoding(t);
  }

  // A record

  /** The values from the given one on, as they are left once they have been written. */
  function KeptFrom(r: RecordKind, rec: Record, done: nat): Record
    requires done <= |rec|
    decreases |rec| - done
  {
    if done == |rec| then []
    else
      match RecordNext(r, rec[..done])
      case None => []
      case Some(k) => [KeptValue(k, rec[done])] + KeptFrom(r, rec, done + 1)
  }

  /** Both have the same numbers, which is all that the choice of the next field looks at. */
  predicate SameNumbers(a: Record, b: Record) {
    |a| == |b| && forall i | 0 <= i < |a| :: a[i].Num? || b[i].Num? ==> a[i] == b[i]
  }

  lemma SameNext(r: RecordKind, a: Record, b: Record)
    requires SameNumbers(a, b)
    ensures RecordNext(r, a) == RecordNext(r, b) && LastNum(a) == LastNum(b)
  {
  }

  lemma SameWithOne(r: RecordKind, vals: Record, rec: Record, done: nat, k: Kind)
    requires done < |rec| && SameNumbers(vals, rec[..done])
    ensures SameNumbers(vals + [KeptValue(k, rec[done])], rec[..done + 1])
  {
    TakeNext(rec, done);
  }

  lemma RecordTurn(r: RecordKind, vals: Record, k: Kind, buf: seq<byte>, aux: nat)
    requires aux <= |buf| && RecordNext(r, vals) == Some(k)
    ensures UnpackRecord(r, vals, buf, aux)
            == match UnpackField(k, LastNum(vals), buf, aux)
               case Rejected => Rejected
               case Parsed(v, next) => UnpackRecord(r, vals + [v], buf, next)
  {
  }

  lemma {:induction false} RecordExact(r: RecordKind, vals: Record, rec: Record, done: nat, buf: seq<byte>,
                                       aux: nat, next: nat)
    requires done <= |rec| && RecordShape(r, rec, done) && SameNumbers(vals, rec[..done])
    requires Spans(FlattenRecord(r, rec, done), buf, aux, next)
    ensures UnpackRecord(r, vals, buf, aux)
            == if AllTaken(FlattenRecord(r, rec, done)) then Parsed(vals + KeptFrom(r, rec, done), next) else Rejected
    decreases |rec| - done
  {
    SameNext(r, vals, rec[..done]);
    if done == |rec| {
      TakeAll(rec);
      AppendNothing(vals);
    } else {
      var k := RecordNext(r, rec[..done]).value;
      var t := MakeToken(k, LastNum(vals), rec[done]);
      var more := FlattenRecord(r, rec, done + 1);
      var mid := SpansSplit([t], more, buf, aux, next);
      SpansOne(t, buf, aux, mid);
      FieldExact(t, LastNum(vals), buf, aux, mid);
      RecordTurn(r, vals, k, buf, aux);
      var v := KeptValue(k, rec[done]);
      SameWithOne(r, vals, rec, done, k);
      RecordExact(r, vals + [v], rec, done + 1, buf, mid, next);
      AppendAssociates(vals, [v], KeptFrom(r, rec, done + 1));
    }
  }

  // The record lists

  function KeptRecords(r: RecordKind, recs: seq<Record>): seq<Record> {
    if recs == [] then [] else [KeptFrom(r, recs[0], 0)] + KeptRecords(r, recs[1..])
  }

  lemma FirstRecord(r: RecordKind, recs: seq<Record>, buf: seq<byte>, aux: nat, next: nat) returns (mid: nat)
    requires recs != [] && RecordShape(r, recs[0], 0) && Spans(FlattenList(r, recs), buf, aux, next)
    ensures AllTyped(FlattenRecord(r, recs[0], 0)) && mid == aux + |EncodeAll(FlattenRecord(r, recs[0], 0))|
    ensures Spans(FlattenList(r, recs[1..]), buf, mid, next)
    ensures UnpackRecord(r, [], buf, aux)
            == if AllTaken(FlattenRecord(r, recs[0], 0)) then Parsed(KeptFrom(r, recs[0], 0), mid) else Rejected
    ensures AllTaken(FlattenList(r, recs))
            <==> AllTaken(FlattenRecord(r, recs[0], 0)) && AllTaken(FlattenList(r, recs[1..]))
  {
    mid := SpansSplit(FlattenRecord(r, recs[0], 0), FlattenList(r, recs[1..]), buf, aux, next);
    RecordExact(r, [], recs[0], 0, buf, aux, mid);
    assert [] + KeptFrom(r, recs[0], 0) == KeptFrom(r, recs[0], 0);
  }

  lemma KeptOnto(r: RecordKind, recs: seq<Record>, list: seq<Record>)
    requires recs != []
    ensures Reverse(KeptRecords(r, recs)) + list
            == Reverse(KeptRecords(r, recs[1..])) + ([KeptFrom(r, recs[0], 0)] + list)
  {
    var kept := KeptRecords(r, recs);
    assert kept[1..] == KeptRecords(r, recs[1..]);
    ReverseOnto(kept, list);
  }

  lemma {:induction false} CountedExact(r: RecordKind, recs: seq<Record>, list: seq<Record>, buf: seq<byte>,
                                        aux: nat, next: nat)
    requires forall rec | rec in recs :: RecordShape(r, rec, 0)
    requires Spans(FlattenList(r, recs), buf, aux, next)
    ensures UnpackCounted(r, |recs|, list, buf, aux)
            == if AllTaken(FlattenList(r, recs)) then Parsed(Reverse(KeptRecords(r, recs)) + list, next) else Rejected
    decreases recs
  {
    if recs == [] {
      assert Reverse<Record>([]) + list == list;
    } else {
      var mid := FirstRecord(r, recs, buf, aux, next);
      KeptOnto(r, recs, list);
      CountedExact(r, recs[1..], [KeptFrom(r, recs[0], 0)] + list, buf, mid, next);
    }
  }

  lemma {:induction false} TailExact(r: RecordKind, recs: seq<Record>, list: seq<Record>, buf: seq<byte>,
                                     aux: nat, next: nat)
    requires r.TlvRecord? && forall rec | rec in recs :: RecordShape(r, rec, 0)
    requires Spans(FlattenList(r, recs), buf, aux, next)
    ensures UnpackTail(r, next, list, buf, aux)
            == if AllTaken(FlattenList(r, recs)) then Parsed(Reverse(KeptRecords(r, recs)) + list, next) else Rejected
    decreases recs
  {
    if recs == [] {
      assert Reverse<Record>([]) + list == list;
    } else {
      var mid := FirstRecord(r, recs, buf, aux, next);
      RecordTakesRoom(r, recs[0]);
      TailTurn(r, list, buf, aux, next);
      KeptOnto(r, recs, list);
      TailExact(r, recs[1..], [KeptFrom(r, recs[0], 0)] + list, buf, mid, next);
    }
  }

  lemma TailTurn(r: RecordKind, list: seq<Record>, buf: seq<byte>, aux: nat, next: nat)
    requires r.TlvRecord? && aux < next <= |buf|
    ensures UnpackTail(r, next, list, buf, aux)
            == match UnpackRecord(r, [], buf, aux)
               case Rejected => Rejected
               case Parsed(rec, mid) => UnpackTail(r, next, [rec] + list, buf, mid)
  {
  }

  lemma RecordTakesRoom(r: RecordKind, rec: Record)
    requires r.TlvRecord? && RecordShape(r, rec, 0) && AllTyped(FlattenRecord(r, rec, 0))
    ensures |EncodeAll(FlattenRecord(r, rec, 0))| > 0
  {
    var ts := FlattenRecord(r, rec, 0);
    assert rec[..0] == [];
    assert ts[0] == MakeToken(U16(AnyValue), 0, rec[0]);
    assert ts[0] in ts;
  }

  // A structure

  function KeptSlot(item: Item, slot: Slot): Slot {
    if item.Field? then (if slot.Leaf? then Leaf(KeptValue(item.kind, slot.v)) else slot)
    else if slot.List? then List(Reverse(KeptRecords(RecordKindOf(item), slot.records)))
    else slot
  }

  /** The structure as the parser gives it back: strings cut to their fields, lists in the opposite order. */
  function KeptStruct(items: seq<Item>, u: Struct): (s: Struct)
    requires |u| == |items|
    ensures |s| == |u| && forall i | 0 <= i < |u| :: s[i] == KeptSlot(items[i], u[i])
  {
    seq(|u|, i requires 0 <= i < |u| => KeptSlot(items[i], u[i]))
  }

  lemma ItemExact(item: Item, s: Struct, slot: Slot, buf: seq<byte>, aux: nat, next: nat)
    requires SlotTyped(item, PrevNum(s, |s|), slot) && CountMatches(item, PrevNum(s, |s|), slot)
    requires item.Tail? ==> CommandLength(s) == next
    requires Spans(FlattenSlot(item, PrevNum(s, |s|), slot), buf, aux, next)
    ensures UnpackItem(item, s, buf, aux)
            == if AllTaken(FlattenSlot(item, PrevNum(s, |s|), slot)) then Parsed(KeptSlot(item, slot), next) else Rejected
  {
    var prev := PrevNum(s, |s|);
    match item
    case Field(_, k) =>
      var t := MakeToken(k, prev, slot.v);
      SpansOne(t, buf, aux, next);
      FieldExact(t, prev, buf, aux, next);
    case Counted(_, r) =>
      CountedExact(r, slot.records, [], buf, aux, next);
      AppendNothing(Reverse(KeptRecords(r, slot.records)));
    case Tail(_, table) =>
      TailExact(TlvRecord(table), slot.records, [], buf, aux, next);
      AppendNothing(Reverse(KeptRecords(TlvRecord(table), slot.records)));
  }

  lemma KeptNumber(item: Item, slot: Slot)
    ensures SlotNum(KeptSlot(item, slot)) == SlotNum(slot)
  {
  }

  lemma ItemsTurn(items: seq<Item>, s: Struct, buf: seq<byte>, aux: nat)
    requires aux <= |buf| && |s| < |items|
    ensures UnpackItems(items, s, buf, aux)
            == match UnpackItem(items[|s|], s, buf, aux)
               case Rejected => Rejected
               case Parsed(slot, next) => UnpackItems(items, s + [slot], buf, next)
  {
  }

  lemma PrefixKept(items: seq<Item>, u: Struct, i: nat)
    requires |u| == |items| && i <= |u|
    ensures var s := KeptStruct(items, u)[..i];
            && PrevNum(s, i) == PrevNum(u, i)
            && (i > 0 ==> CommandLength(s) == SlotNum(u[0]))
            && (i < |u| ==> s + [KeptSlot(items[i], u[i])] == KeptStruct(items, u)[..i + 1])
  {
    if i > 0 {
      KeptNumber(items[i - 1], u[i - 1]);
      KeptNumber(items[0], u[0]);
    }
  }

  lemma {:induction false} ItemsExact(items: seq<Item>, u: Struct, i: nat, buf: seq<byte>, aux: nat, next: nat)
    requires HEADER <= items && TailLast(items) && StructTyped(items, u) && CountsMatch(items, u) && i <= |u|
    requires SlotNum(u[0]) == next && Spans(Flatten(items, u, i), buf, aux, next)
    ensures UnpackItems(items, KeptStruct(items, u)[..i], buf, aux)
            == if AllTaken(Flatten(items, u, i)) then Parsed(KeptStruct(items, u), next) else Rejected
    decreases |u| - i
  {
    var s := KeptStruct(items, u)[..i];
    if i == |u| {
      TakeAll(KeptStruct(items, u));
    } else {
      PrefixKept(items, u, i);
      var mid := SpansSplit(FlattenSlot(items[i], PrevNum(u, i), u[i]), Flatten(items, u, i + 1), buf, aux, next);
      assert items[i].Tail? ==> mid == next && i > 0 by {
        assert items[0] == HEADER[0];
        if items[i].Tail? { assert i + 1 == |u|; }
      }
      ItemExact(items[i], s, u[i], buf, aux, mid);
      ItemsTurn(items, s, buf, aux);
      ItemsExact(items, u, i + 1, buf, mid, next);
    }
  }

  /**
   * The parser on the octets of any structure whose command_length is their number, with anything behind them: it gives
   * the structure back exactly when every field passes, and refuses it otherwise.
   */
  lemma AnyEncoding(command: int, u: Struct, o: seq<byte>, rest: seq<byte>)
    requires Frame(command).Some? && StructTyped(Frame(command).value, u) && CountsMatch(Frame(command).value, u)
    requires CommandLength(u) == |o|
    requires Spans(Flatten(Frame(command).value, u, 0), o, 0, |o|)
    ensures Unpacked(command, o + rest)
            == if AllTaken(Flatten(Frame(command).value, u, 0)) then Some(KeptStruct(Frame(command).value, u)) else None
  {
    var items := Frame(command).value;
    EveryFrame(command);
    assert (o + rest)[0..|o|] == o == o[0..|o|];
    assert KeptStruct(items, u)[..0] == [];
    ItemsExact(items, u, 0, o + rest, 0, |o|);
    assert items[0] == HEADER[0];
    KeptNumber(items[0], u[0]);
  }
}
