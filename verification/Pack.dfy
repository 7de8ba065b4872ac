/** smpp34_pack.c: the schema read as a printer. */
module Pack {
  import opened Sequences
  import opened Bytes
  import opened Params
  import opened Frames
  import opened Tokens

  /** The octets a field is written as. A string too long for its field is cut to leave room for the NUL. */
  function Encoding(t: Token): seq<byte>
    requires Typed(t)
  {
    match t.kind
    case U32(_) => BigEndian(4, t.v.n)
    case U16(_) => BigEndian(2, t.v.n)
    case U08(_) => BigEndian(1, t.v.n)
    case COctet(size) => Kept(t.v.b, size) + [0]
    case Octet8(_) => t.v.b
    case Octet16(_) => t.v.b
  }

  /** The part of a string that its field keeps. */
  function Kept(b: seq<byte>, size: pos): seq<byte> {
    if |b| < size then b else b[..size - 1]
  }

  /** The validator of the field, or the limit on its length, lets the value through. */
  predicate Accepted(t: Token)
    requires Typed(t)
  {
    match t.kind
    case U32(c) => Passes(c, t.v.n)
    case U16(c) => Passes(c, t.v.n)
    case U08(c) => Passes(c, t.v.n)
    case COctet(_) => true
    case Octet8(limit) => t.announced < limit
    case Octet16(limit) => t.announced <= limit
  }

  /** The least number of octets left with which the field is written: one spare except for strings. */
  function RoomNeeded(t: Token): nat
    requires Typed(t)
  {
    if t.kind.COctet? then |t.v.b| + 1 else |Encoding(t)| + 1
  }

  /** Writing the fields ts with left octets left: what is written, or None when pack returns -1. */
  function PackTokens(ts: seq<Token>, left: int): (r: Option<seq<byte>>)
    requires AllTyped(ts)
    ensures r.Some? && ts != [] ==> |r.value| <= left
  {
    if ts == [] then Some([])
    else if RoomNeeded(ts[0]) > left || !Accepted(ts[0]) then None
    else
      Glue(Some(Encoding(ts[0])), PackTokens(ts[1..], left - |Encoding(ts[0])|))
  }

  function EncodeAll(ts: seq<Token>): seq<byte>
    requires AllTyped(ts)
  {
    if ts == [] then [] else Encoding(ts[0]) + EncodeAll(ts[1..])
  }

  predicate AllAccepted(ts: seq<Token>)
    requires AllTyped(ts)
  {
    forall t | t in ts :: Accepted(t)
  }

  // What packing means, whatever the room

  lemma {:induction false} PackedIsEncoded(ts: seq<Token>, left: int)
    requires AllTyped(ts) && PackTokens(ts, left).Some?
    ensures AllAccepted(ts) && PackTokens(ts, left).value == EncodeAll(ts)
  {
    if ts != [] {
      PackedIsEncoded(ts[1..], left - |Encoding(ts[0])|);
    }
  }

  lemma {:induction false} EnoughRoom(ts: seq<Token>, left: int)
    requires AllTyped(ts) && AllAccepted(ts)
    requires forall t | t in ts :: Fitting(t)
    requires left > |EncodeAll(ts)|
    ensures PackTokens(ts, left) == Some(EncodeAll(ts))
  {
    if ts != [] {
      assert ts[0] in ts;
      EnoughRoom(ts[1..], left - |Encoding(ts[0])|);
    }
  }

  lemma SizeOfFirst(ts: seq<Token>)
    requires AllTyped(ts) && ts != []
    ensures |EncodeAll(ts)| == |Encoding(ts[0])| + |EncodeAll(ts[1..])|
    ensures |ts| == 1 ==> EncodeAll(ts[1..]) == []
    ensures |ts| > 1 ==> ts[1..][|ts| - 2] == ts[|ts| - 1]
  {
  }

  /** The last field written is not a string: it asks for an octet to spare. */
  predicate EndsPlain(ts: seq<Token>) {
    ts != [] && !ts[|ts| - 1].kind.COctet?
  }

  lemma {:induction false} NoneToSpare(ts: seq<Token>, left: int)
    requires AllTyped(ts) && EndsPlain(ts) && left <= |EncodeAll(ts)|
    ensures PackTokens(ts, left) == None
  {
    SizeOfFirst(ts);
    if |ts| > 1 {
      NoneToSpare(ts[1..], left - |Encoding(ts[0])|);
    }
  }

  /** Such a run of fields is packed exactly when every field is accepted and an octet stays to spare. */
  lemma RoomExactly(ts: seq<Token>, left: int)
    requires AllTyped(ts) && EndsPlain(ts) && forall t | t in ts :: Fitting(t)
    ensures PackTokens(ts, left).Some? <==> AllAccepted(ts) && |EncodeAll(ts)| < left
  {
    if PackTokens(ts, left).Some? {
      PackedIsEncoded(ts, left);
      if left <= |EncodeAll(ts)| { NoneToSpare(ts, left); }
    } else if AllAccepted(ts) && |EncodeAll(ts)| < left {
      EnoughRoom(ts, left);
    }
  }

  /** More room changes nothing. */
  lemma {:induction false} PackMore(ts: seq<Token>, left: int, more: int)
    requires AllTyped(ts) && PackTokens(ts, left).Some? && left <= more
    ensures PackTokens(ts, more) == PackTokens(ts, left)
  {
    if ts != [] {
      PackMore(ts[1..], left - |Encoding(ts[0])|, more - |Encoding(ts[0])|);
    }
  }

  lemma {:induction false} EncodeConcat(a: seq<Token>, b: seq<Token>)
    requires AllTyped(a) && AllTyped(b)
    ensures EncodeAll(a + b) == EncodeAll(a) + EncodeAll(b)
  {
    if a == [] {
      AppendNothing(b);
    } else {
      AppendedRest(a, b);
      EncodeConcat(a[1..], b);
      AppendAssociates(Encoding(a[0]), EncodeAll(a[1..]), EncodeAll(b));
    }
  }

  function Glue(o: Option<seq<byte>>, rest: Option<seq<byte>>): Option<seq<byte>> {
    if o.Some? && rest.Some? then Some(o.value + rest.value) else None
  }

  /** Packing the first field, then the rest. */
  lemma PackCons(t: Token, ts: seq<Token>, left: int)
    requires Typed(t) && AllTyped(ts)
    ensures AllTyped([t] + ts)
    ensures PackTokens([t] + ts, left)
            == if RoomNeeded(t) > left || !Accepted(t) then None
               else Glue(Some(Encoding(t)), PackTokens(ts, left - |Encoding(t)|))
  {
    Appended([t], ts);
  }

  /** What packing b gives behind the octets o, when there are any. */
  function Behind(o: Option<seq<byte>>, b: seq<Token>, left: int): Option<seq<byte>>
    requires AllTyped(b)
  {
    if o.None? then None else PackTokens(b, left - |o.value|)
  }

  lemma PackConcatFirst(t: Token, rest: seq<Token>, b: seq<Token>, left: int)
    requires Typed(t) && AllTyped(rest) && AllTyped(b) && AllTyped(rest + b)
    requires var o := PackTokens(rest, left - |Encoding(t)|);
             PackTokens(rest + b, left - |Encoding(t)|) == Glue(o, Behind(o, b, left - |Encoding(t)|))
    ensures AllTyped([t] + rest) && AllTyped([t] + (rest + b))
    ensures var o := PackTokens([t] + rest, left);
            PackTokens([t] + (rest + b), left) == Glue(o, Behind(o, b, left))
  {
    var e := Encoding(t);
    PackCons(t, rest, left);
    PackCons(t, rest + b, left);
    var tail := PackTokens(rest, left - |e|);
    if RoomNeeded(t) <= left && Accepted(t) && tail.Some? {
      GlueAssociates(e, tail.value, PackTokens(b, left - |e| - |tail.value|));
      assert PackTokens([t] + rest, left) == Some(e + tail.value);
    }
  }

  /** Packing a run of fields in two parts. */
  lemma {:induction false} PackConcat(a: seq<Token>, b: seq<Token>, left: int)
    requires AllTyped(a) && AllTyped(b)
    ensures AllTyped(a + b)
    ensures var o := PackTokens(a, left);
            PackTokens(a + b, left) == Glue(o, Behind(o, b, left))
    decreases |a|
  {
    TypedInTwo(a, b);
    if a == [] {
      AppendNothing(b);
      GlueNothing(PackTokens(b, left));
    } else {
      var t, rest := a[0], a[1..];
      TypedInTwo(rest, b);
      PackConcat(rest, b, left - |Encoding(t)|);
      PackConcatFirst(t, rest, b, left);
      FirstAndRest(a);
      AppendAssociates([t], rest, b);
    }
  }

  lemma GlueNothing(rest: Option<seq<byte>>)
    ensures Glue(Some([]), rest) == rest
  {
    if rest.Some? {
      assert [] + rest.value == rest.value;
    }
  }

  lemma GlueAssociates(e: seq<byte>, o: seq<byte>, rest: Option<seq<byte>>)
    ensures Glue(Some(e + o), rest) == Glue(Some(e), Glue(Some(o), rest))
  {
    if rest.Some? {
      assert e + o + rest.value == e + (o + rest.value);
    }
  }

  // smpp34_pack

  /** The structure of a command, of the types its frame declares. */
  ghost predicate CommandTyped(command: int, s: Struct) {
    Frame(command).Some? ==> StructTyped(Frame(command).value, s)
  }

  ghost predicate CommandTerminated(command: int, s: Struct)
    requires CommandTyped(command, s)
  {
    Frame(command).Some? ==> forall t | t in Flatten(Frame(command).value, s, 0) :: Terminated(t)
  }

  /** Overwrites the first four octets with the length of the whole. */
  function WithLength(o: seq<byte>): seq<byte>
    requires |o| >= 4
  {
    BigEndian(4, |o|) + o[4..]
  }

  /** The octets smpp34_pack leaves in a buffer of the given size, or None when it returns -1. */
  ghost function Packed(command: int, s: Struct, size: int): Option<seq<byte>>
    requires CommandTyped(command, s)
  {
    match Frame(command)
    case None => None
    case Some(items) =>
      FlattenTyped(items, s, 0);
      match PackTokens(Flatten(items, s, 0), size)
      case None => None
      case Some(o) =>
        HeaderFirst(items[4..], s, size);
        Some(WithLength(o))
  }

  /** A packed PDU starts with its header, whose first field is not written anywhere else. */
  lemma HeaderFirst(body: seq<Item>, s: Struct, size: int)
    requires StructTyped(HEADER + body, s)
    ensures AllTyped(Flatten(HEADER + body, s, 0)) && AllTyped(Flatten(HEADER + body, s, 1))
    ensures s[0].Leaf? && s[0].v.Num? && s[0].v.n < Pow256(4)
    ensures Flatten(HEADER + body, s, 0) == [Token(U32(AnyValue), 0, s[0].v)] + Flatten(HEADER + body, s, 1)
    ensures PackTokens(Flatten(HEADER + body, s, 0), size).Some? ==>
              |PackTokens(Flatten(HEADER + body, s, 0), size).value| >= 4
  {
    var items := HEADER + body;
    FlattenTyped(items, s, 0);
    FlattenTyped(items, s, 1);
    assert items[0] == HEADER[0];
    assert SlotTyped(items[0], 0, s[0]);
    var ts := Flatten(items, s, 0);
    assert ts == [Token(U32(AnyValue), 0, s[0].v)] + Flatten(items, s, 1);
    if PackTokens(ts, size).Some? {
      PackedIsEncoded(ts, size);
      assert |Encoding(ts[0])| == 4;
    }
  }
}
