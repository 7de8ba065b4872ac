/** smpp34_unpack as it runs: the cursor aux and the count left, the structure filled slot by slot. */
module UnpackLoop {
  import opened Bytes
  import opened Params
  import opened Frames
  import opened Tokens
  import opened Unpack
  import opened RoundTrip

  /** strlen over the octets left. */
  method StrLen(buf: seq<byte>, aux: nat) returns (n: nat)
    requires aux <= |buf|
    ensures aux + n == NulFrom(buf, aux)
  {
    n := 0;
    while aux + n < |buf| && buf[aux + n] != 0
      invariant aux + n <= |buf| && NulFrom(buf, aux) == NulFrom(buf, aux + n)
    {
      n := n + 1;
    }
  }

  /** The macros U32, U16, U08, C_OCTET, OCTET8 and OCTET16. */
  method ReadField(k: Kind, prev: nat, buf: seq<byte>, aux: nat, left: nat) returns (p: Parsed<Value>)
    requires aux + left == |buf|
    ensures p == UnpackField(k, prev, buf, aux)
  {
    p := Rejected;
    match k {
      case U32(check) => p := ReadNumber(4, check, buf, aux, left);
      case U16(check) => p := ReadNumber(2, check, buf, aux, left);
      case U08(check) => p := ReadNumber(1, check, buf, aux, left);
      case COctet(size) =>
        var n := StrLen(buf, aux);
        var lenval := n + 1;
        if lenval > left || lenval > size { return; }
        p := Parsed(Octets(buf[aux..aux + n]), aux + lenval);
      case Octet8(limit) =>
        if prev > left || prev > limit { return; }
        p := Parsed(Octets(buf[aux..aux + prev]), aux + prev);
      case Octet16(limit) =>
        if prev > left || prev > limit { return; }
        p := Parsed(Octets(buf[aux..aux + prev]), aux + prev);
    }
  }

  method ReadNumber(lenval: nat, check: Check, buf: seq<byte>, aux: nat, left: nat) returns (p: Parsed<Value>)
    requires aux + left == |buf|
    ensures p == UnpackNumber(lenval, check, buf, aux)
  {
    if lenval > left { return Rejected; }
    var n: nat := 0;
    var i := 0;
    while i < lenval
      invariant i <= lenval && n == FromBigEndian(buf[aux..aux + i])
    {
      assert buf[aux..aux + i + 1][..i] == buf[aux..aux + i];
      n := n * 256 + buf[aux + i];
      i := i + 1;
    }
    if !Passes(check, n) { return Rejected; }
    return Parsed(Num(n), aux + lenval);
  }

  /** One do_tlv, do_dad or do_udad on a zeroed node. */
  method ReadRecord(r: RecordKind, buf: seq<byte>, start: nat) returns (p: Parsed<Record>)
    requires start <= |buf|
    ensures p == UnpackRecord(r, [], buf, start)
  {
    var node: Record := [];
    var aux: nat, left: nat := start, |buf| - start;
    var next := RecordNext(r, node);
    while next.Some?
      invariant aux + left == |buf| && next == RecordNext(r, node)
      invariant UnpackRecord(r, [], buf, start) == UnpackRecord(r, node, buf, aux)
      decreases 4 - |node|
    {
      var f := ReadField(next.value, LastNum(node), buf, aux, left);
      if f.Rejected? { return Rejected; }
      node := node + [f.v];
      aux, left := f.next, |buf| - f.next;
      next := RecordNext(r, node);
    }
    return Parsed(node, aux);
  }

  /** One turn of the loop. */
  lemma CountedTurn(r: RecordKind, n: nat, list: seq<Record>, buf: seq<byte>, aux: nat)
    requires n > 0 && aux <= |buf|
    ensures UnpackCounted(r, n, list, buf, aux)
            == match UnpackRecord(r, [], buf, aux)
               case Rejected => Rejected
               case Parsed(rec, next) => UnpackCounted(r, n - 1, [rec] + list, buf, next)
  {
  }

  /** The DAD and UDAD loops. */
  method ReadCounted(r: RecordKind, count: nat, buf: seq<byte>, start: nat) returns (p: Parsed<seq<Record>>)
    requires start <= |buf|
    ensures p == UnpackCounted(r, count, [], buf, start)
  {
    var list: seq<Record> := [];
    var aux: nat, c: nat := start, 0;
    ghost var whole := UnpackCounted(r, count, [], buf, start);
    while c < count
      invariant c <= count && aux <= |buf|
      invariant whole == UnpackCounted(r, count - c, list, buf, aux)
    {
      CountedTurn(r, count - c, list, buf, aux);
      var node := ReadRecord(r, buf, aux);
      if node.Rejected? { return Rejected; }
      list := [node.v] + list;
      aux, c := node.next, c + 1;
    }
    return Parsed(list, aux);
  }

  /** The TLV loop. */
  method ReadTail(table: TlvTable, commandLength: nat, buf: seq<byte>, start: nat) returns (p: Parsed<seq<Record>>)
    requires start <= |buf|
    ensures p == UnpackTail(TlvRecord(table), commandLength, [], buf, start)
  {
    var list: seq<Record> := [];
    var aux: nat := start;
    while aux < commandLength
      invariant aux <= |buf|
      invariant UnpackTail(TlvRecord(table), commandLength, [], buf, start)
                == UnpackTail(TlvRecord(table), commandLength, list, buf, aux)
      decreases |buf| - aux
    {
      var node := ReadRecord(TlvRecord(table), buf, aux);
      if node.Rejected? { return Rejected; }
      list := [node.v] + list;
      aux := node.next;
    }
    return Parsed(list, aux);
  }

  method ReadItem(item: Item, tt: Struct, buf: seq<byte>, aux: nat) returns (p: Parsed<Slot>)
    requires aux <= |buf|
    ensures p == UnpackItem(item, tt, buf, aux)
  {
    match item {
      case Field(_, k) =>
        var f := ReadField(k, PrevNum(tt, |tt|), buf, aux, |buf| - aux);
        if f.Rejected? { return Rejected; }
        return Parsed(Leaf(f.v), f.next);
      case Counted(_, r) =>
        var list := ReadCounted(r, PrevNum(tt, |tt|), buf, aux);
        if list.Rejected? { return Rejected; }
        return Parsed(List(list.v), list.next);
      case Tail(_, table) =>
        var list := ReadTail(table, CommandLength(tt), buf, aux);
        if list.Rejected? { return Rejected; }
        return Parsed(List(list.v), list.next);
    }
  }

  /** smpp34_unpack: 0 and the structure for exactly the buffers that start with its encoding, -1 for all others. */
  method SmppUnpack(command: int, ptrBuf: seq<byte>) returns (ret: int, tt: Struct)
    ensures ret == 0 || ret == -1
    ensures Unpacked(command, ptrBuf) == if ret == 0 then Some(tt) else None
    ensures ret == 0 ==> CommandLength(tt) <= |ptrBuf|
                         && Denotes(command, Reversed(tt), ptrBuf[..CommandLength(tt)])
    ensures ret == -1 ==> forall s | CommandLength(s) <= |ptrBuf| :: !Denotes(command, Reversed(s), ptrBuf[..CommandLength(s)])
  {
    forall s { ParserExact(command, ptrBuf, s); }
    tt := [];
    var frame := Frame(command);
    if frame.None? { return -1, []; }
    var items := frame.value;
    var aux: nat := 0;
    while |tt| < |items|
      invariant |tt| <= |items| && aux <= |ptrBuf|
      invariant UnpackItems(items, [], ptrBuf, 0) == UnpackItems(items, tt, ptrBuf, aux)
      decreases |items| - |tt|
    {
      var slot := ReadItem(items[|tt|], tt, ptrBuf, aux);
      if slot.Rejected? { return -1, []; }
      tt := tt + [slot.v];
      aux := slot.next;
    }
    if CommandLength(tt) != aux { return -1, []; }
    return 0, tt;
  }
}
