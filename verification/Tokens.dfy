/** A structure read as the flat run of fields that its frame prescribes. */
module Tokens {
  import opened Bytes
  import opened Params
  import opened Frames

  /** A field with its value; announced is how many octets the field before it announces. */
  datatype Token = Token(kind: Kind, announced: nat, v: Value)

  function MakeToken(k: Kind, prev: nat, v: Value): Token {
    Token(k, if k.Octet8? || k.Octet16? then prev else 0, v)
  }

  function Width(k: Kind): nat
    requires k.U32? || k.U16? || k.U08?
  {
    match k case U32(_) => 4 case U16(_) => 2 case U08(_) => 1
  }

  predicate IsNumber(k: Kind) {
    k.U32? || k.U16? || k.U08?
  }

  /** The value fits the C type of its field: integer width, no NUL in a string, as many octets as announced. */
  predicate Typed(t: Token) {
    if IsNumber(t.kind) then t.v.Num? && t.v.n < Pow256(Width(t.kind))
    else if t.kind.COctet? then t.v.Octets? && 0 !in t.v.b
    else t.v.Octets? && |t.v.b| == t.announced
  }

  /** A string that ends inside its field. */
  predicate Terminated(t: Token) {
    t.kind.COctet? && t.v.Octets? ==> |t.v.b| < t.kind.size
  }

  /** A string that stays inside its field, though its NUL may not. */
  predicate Fitting(t: Token) {
    t.kind.COctet? && t.v.Octets? ==> |t.v.b| <= t.kind.size
  }

  // A structure is flattened along its schema

  function FlattenRecord(r: RecordKind, rec: Record, done: nat): seq<Token>
    requires done <= |rec|
    decreases |rec| - done
  {
    if done == |rec| then []
    else
      match RecordNext(r, rec[..done])
      case None => []
      case Some(k) => [MakeToken(k, LastNum(rec[..done]), rec[done])] + FlattenRecord(r, rec, done + 1)
  }

  function FlattenList(r: RecordKind, recs: seq<Record>): seq<Token> {
    if recs == [] then [] else FlattenRecord(r, recs[0], 0) + FlattenList(r, recs[1..])
  }

  function RecordKindOf(item: Item): RecordKind
    requires !item.Field?
  {
    if item.Counted? then item.record else TlvRecord(item.table)
  }

  function SlotNum(slot: Slot): nat {
    if slot.Leaf? && slot.v.Num? then slot.v.n else 0
  }

  /** The number held by slot i - 1 of a structure. */
  function PrevNum(s: Struct, i: nat): nat
    requires i <= |s|
  {
    if i == 0 then 0 else SlotNum(s[i - 1])
  }

  function FlattenSlot(item: Item, prev: nat, slot: Slot): seq<Token> {
    if item.Field? then (if slot.Leaf? then [MakeToken(item.kind, prev, slot.v)] else [])
    else if slot.List? then FlattenList(RecordKindOf(item), slot.records)
    else []
  }

  /** The tokens of slots i and after. */
  function Flatten(items: seq<Item>, s: Struct, i: nat): seq<Token>
    requires |s| == |items| && i <= |s|
    decreases |s| - i
  {
    if i == |s| then [] else FlattenSlot(items[i], PrevNum(s, i), s[i]) + Flatten(items, s, i + 1)
  }

  // The structures a C program can hold

  /** The record has exactly the fields its own values prescribe. */
  predicate RecordShape(r: RecordKind, rec: Record, done: nat)
    requires done <= |rec|
    decreases |rec| - done
  {
    if done == |rec| then RecordNext(r, rec).None?
    else RecordNext(r, rec[..done]).Some? && RecordShape(r, rec, done + 1)
  }

  predicate RecordTyped(r: RecordKind, rec: Record) {
    RecordShape(r, rec, 0) && forall t | t in FlattenRecord(r, rec, 0) :: Typed(t)
  }

  predicate SlotTyped(item: Item, prev: nat, slot: Slot) {
    if item.Field? then slot.Leaf? && Typed(MakeToken(item.kind, prev, slot.v))
    else slot.List? && forall rec | rec in slot.records :: RecordTyped(RecordKindOf(item), rec)
  }

  /** A list has as many records as the count before it says; the TLV tail is free. */
  predicate CountMatches(item: Item, prev: nat, slot: Slot) {
    item.Counted? && slot.List? ==> |slot.records| == prev
  }

  ghost predicate StructTyped(items: seq<Item>, s: Struct) {
    && |s| == |items|
    && forall i | 0 <= i < |s| :: SlotTyped(items[i], PrevNum(s, i), s[i])
  }

  ghost predicate CountsMatch(items: seq<Item>, s: Struct) {
    && |s| == |items|
    && forall i | 0 <= i < |s| :: CountMatches(items[i], PrevNum(s, i), s[i])
  }

  function Reverse<T>(s: seq<T>): seq<T> {
    if s == [] then [] else Reverse(s[1..]) + [s[0]]
  }

  // Facts about flattening

  predicate AllTyped(ts: seq<Token>) {
    forall t | t in ts :: Typed(t)
  }

  lemma TypedInTwo(a: seq<Token>, b: seq<Token>)
    ensures AllTyped(a + b) <==> AllTyped(a) && AllTyped(b)
  {
    forall t | t in a || t in b ensures t in a + b {}
    forall t | t in a + b ensures t in a || t in b {}
  }

  lemma {:induction false} ListTyped(r: RecordKind, recs: seq<Record>)
    requires forall rec | rec in recs :: RecordTyped(r, rec)
    ensures AllTyped(FlattenList(r, recs))
  {
    if recs != [] {
      ListTyped(r, recs[1..]);
      assert RecordTyped(r, recs[0]);
      TypedInTwo(FlattenRecord(r, recs[0], 0), FlattenList(r, recs[1..]));
    }
  }

  lemma SlotFlatTyped(item: Item, prev: nat, slot: Slot)
    requires SlotTyped(item, prev, slot)
    ensures AllTyped(FlattenSlot(item, prev, slot))
  {
    if !item.Field? {
      ListTyped(RecordKindOf(item), slot.records);
    }
  }

  lemma {:induction false} FlattenTyped(items: seq<Item>, s: Struct, i: nat)
    requires StructTyped(items, s) && i <= |s|
    ensures AllTyped(Flatten(items, s, i))
    decreases |s| - i
  {
    if i < |s| {
      FlattenTyped(items, s, i + 1);
      FirstSlotTyped(items, s, i);
    }
  }

  lemma FirstSlotTyped(items: seq<Item>, s: Struct, i: nat)
    requires i < |s| == |items| && SlotTyped(items[i], PrevNum(s, i), s[i]) && AllTyped(Flatten(items, s, i + 1))
    ensures AllTyped(Flatten(items, s, i))
  {
    SlotFlatTyped(items[i], PrevNum(s, i), s[i]);
    TypedInTwo(FlattenSlot(items[i], PrevNum(s, i), s[i]), Flatten(items, s, i + 1));
  }

  /** Every list of the structure in the opposite order. */
  function Reversed(s: Struct): (r: Struct)
    ensures |r| == |s|
    ensures forall i | 0 <= i < |s| :: r[i] == ReversedSlot(s[i])
  {
    seq(|s|, i requires 0 <= i < |s| => ReversedSlot(s[i]))
  }

  function ReversedSlot(slot: Slot): Slot {
    if slot.List? then List(Reverse(slot.records)) else slot
  }

  lemma {:induction false} ReverseAppend<T>(a: seq<T>, b: seq<T>)
    ensures Reverse(a + b) == Reverse(b) + Reverse(a)
  {
    if a == [] {
      assert a + b == b;
    } else {
      assert (a + b)[1..] == a[1..] + b;
      ReverseAppend(a[1..], b);
    }
  }

  /** Putting the records in front of a list one after the other. */
  lemma ReverseOnto<T>(a: seq<T>, list: seq<T>)
    requires a != []
    ensures Reverse(a) + list == Reverse(a[1..]) + ([a[0]] + list)
  {
  }

  lemma {:induction false} ReverseTwice<T>(a: seq<T>)
    ensures Reverse(Reverse(a)) == a && |Reverse(a)| == |a|
  {
    if a != [] {
      ReverseTwice(a[1..]);
      ReverseAppend(Reverse(a[1..]), [a[0]]);
    }
  }

  lemma {:induction false} ReverseContents<T>(a: seq<T>)
    ensures forall x :: x in Reverse(a) <==> x in a
  {
    if a != [] {
      ReverseContents(a[1..]);
      assert a == [a[0]] + a[1..];
    }
  }
}
