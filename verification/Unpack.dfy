/** smpp34_unpack.c: the same schema read as a parser. */
module Unpack {
  import opened Bytes
  import opened Params
  import opened Frames
  import opened Tokens

  /** What a reading step yields: a value and the cursor behind it, or the -1 return. */
  datatype Parsed<+T> = Rejected | Parsed(v: T, next: nat)

  /** strlen, looking no further than the octets left: the index of the first NUL, or the end. */
  function NulFrom(buf: seq<byte>, aux: nat): (k: nat)
    requires aux <= |buf|
    ensures aux <= k <= |buf|
    ensures 0 !in buf[aux..k]
    ensures k < |buf| ==> buf[k] == 0
    decreases |buf| - aux
  {
    if aux == |buf| || buf[aux] == 0 then aux else NulFrom(buf, aux + 1)
  }

  /** A C string: the octets before the first NUL. */
  function CString(s: seq<byte>): (c: seq<byte>)
    ensures 0 !in c && |c| <= |s|
  {
    s[..NulFrom(s, 0)]
  }

  function UnpackNumber(w: nat, check: Check, buf: seq<byte>, aux: nat): Parsed<Value>
    requires aux <= |buf|
  {
    if w > |buf| - aux then Rejected
    else
      var n := FromBigEndian(buf[aux..aux + w]);
      if Passes(check, n) then Parsed(Num(n), aux + w) else Rejected
  }

  function UnpackOctets(announced: nat, limit: nat, buf: seq<byte>, aux: nat): Parsed<Value>
    requires aux <= |buf|
  {
    if announced > |buf| - aux || announced > limit then Rejected
    else Parsed(Octets(buf[aux..aux + announced]), aux + announced)
  }

  function UnpackField(k: Kind, prev: nat, buf: seq<byte>, aux: nat): (r: Parsed<Value>)
    requires aux <= |buf|
    ensures r.Parsed? ==> aux <= r.next <= |buf|
    ensures r.Parsed? && IsNumber(k) ==> r.next == aux + Width(k)
  {
    match k
    case U32(c) => UnpackNumber(4, c, buf, aux)
    case U16(c) => UnpackNumber(2, c, buf, aux)
    case U08(c) => UnpackNumber(1, c, buf, aux)
    case COctet(size) =>
      var nul := NulFrom(buf, aux);
      if nul == |buf| || nul + 1 - aux > size then Rejected
      else Parsed(Octets(buf[aux..nul]), nul + 1)
    case Octet8(limit) => UnpackOctets(prev, limit, buf, aux)
    case Octet16(limit) => UnpackOctets(prev, limit, buf, aux)
  }

  /** The least number of octets a record takes, given how many of its fields are read already. */
  function LeastSize(r: RecordKind, done: nat): nat {
    if r.TlvRecord? then (if done == 0 then 4 else if done == 1 then 2 else 0)
    else if done == 0 then 1 else 0
  }

  /** Reads the fields of a record that follow vals. */
  function UnpackRecord(r: RecordKind, vals: Record, buf: seq<byte>, aux: nat): (p: Parsed<Record>)
    requires aux <= |buf|
    ensures p.Parsed? ==> aux + LeastSize(r, |vals|) <= p.next <= |buf|
    decreases 4 - |vals|
  {
    match RecordNext(r, vals)
    case None => Parsed(vals, aux)
    case Some(k) =>
      match UnpackField(k, LastNum(vals), buf, aux)
      case Rejected => Rejected
      case Parsed(v, next) => UnpackRecord(r, vals + [v], buf, next)
  }

  /** The DAD and UDAD loops: n records, each put in front of the list. */
  function UnpackCounted(r: RecordKind, n: nat, list: seq<Record>, buf: seq<byte>, aux: nat): (p: Parsed<seq<Record>>)
    requires aux <= |buf|
    ensures p.Parsed? ==> aux <= p.next <= |buf|
    decreases n
  {
    if n == 0 then Parsed(list, aux)
    else
      match UnpackRecord(r, [], buf, aux)
      case Rejected => Rejected
      case Parsed(rec, next) => UnpackCounted(r, n - 1, [rec] + list, buf, next)
  }

  /** The TLV loop: records until the cursor has reached command_length. */
  function UnpackTail(r: RecordKind, commandLength: nat, list: seq<Record>, buf: seq<byte>, aux: nat):
      (p: Parsed<seq<Record>>)
    requires aux <= |buf| && r.TlvRecord?
    ensures p.Parsed? ==> aux <= p.next <= |buf|
    decreases |buf| - aux
  {
    if commandLength <= aux then Parsed(list, aux)
    else
      match UnpackRecord(r, [], buf, aux)
      case Rejected => Rejected
      case Parsed(rec, next) => UnpackTail(r, commandLength, [rec] + list, buf, next)
  }

  /** Reads one entry of a frame; s holds the slots read so far. */
  function UnpackItem(item: Item, s: Struct, buf: seq<byte>, aux: nat): (p: Parsed<Slot>)
    requires aux <= |buf|
    ensures p.Parsed? ==> aux <= p.next <= |buf|
  {
    match item
    case Field(_, k) =>
      (match UnpackField(k, PrevNum(s, |s|), buf, aux)
       case Rejected => Rejected
       case Parsed(v, next) => Parsed(Leaf(v), next))
    case Counted(_, r) =>
      (match UnpackCounted(r, PrevNum(s, |s|), [], buf, aux)
       case Rejected => Rejected
       case Parsed(list, next) => Parsed(List(list), next))
    case Tail(_, table) =>
      (match UnpackTail(TlvRecord(table), CommandLength(s), [], buf, aux)
       case Rejected => Rejected
       case Parsed(list, next) => Parsed(List(list), next))
  }

  function CommandLength(s: Struct): nat {
    if s == [] then 0 else SlotNum(s[0])
  }

  function UnpackItems(items: seq<Item>, s: Struct, buf: seq<byte>, aux: nat): (p: Parsed<Struct>)
    requires aux <= |buf| && |s| <= |items|
    ensures p.Parsed? ==> aux <= p.next <= |buf|
    ensures p.Parsed? ==> |p.v| == |items| && p.v[..|s|] == s
    decreases |items| - |s|
  {
    if |s| == |items| then Parsed(s, aux)
    else
      match UnpackItem(items[|s|], s, buf, aux)
      case Rejected => Rejected
      case Parsed(slot, next) => UnpackItems(items, s + [slot], buf, next)
  }

  /** smpp34_unpack into a zeroed structure: None when it returns -1. */
  function Unpacked(command: int, buf: seq<byte>): (r: Option<Struct>)
  {
    match Frame(command)
    case None => None
    case Some(items) =>
      match UnpackItems(items, [], buf, 0)
      case Rejected => None
      case Parsed(s, next) => if CommandLength(s) == next then Some(s) else None
  }
}
