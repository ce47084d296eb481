/** The hand-written scanner of protobuf messages: fields in, fields out, and when it moves on. */
module WireScanning {
  import opened Core
  import opened Tso
  import opened Varints

  /** A key and the raw bytes of its value; `body` is `None` when the value is malformed. */
  datatype Item = Item(field: nat, wire: nat, body: Option<seq<Byte>>)

  /** `Panics` stands for a slice out of range or an arithmetic overflow. */
  datatype Scan = Done | Found(item: Item) | Panics

  const U32_LIMIT: nat := 0x1_0000_0000

  /** A slot of `size` bytes is sliced without looking at what is left. */
  function ScanSlot(bytes: seq<Byte>, pos: nat, field: nat, wire: nat, size: nat): (Scan, nat) {
    if pos + size > |bytes| then (Panics, pos + size)
    else (Found(Item(field, wire, Some(bytes[pos..pos + size]))), pos + size)
  }

  function ScanValue(bytes: seq<Byte>, pos: nat, field: nat, wire: nat): (Scan, nat)
    requires pos <= |bytes|
  {
    if wire == 0 then
      match ReadVarint(bytes[pos..])
      case None => (Found(Item(field, wire, None)), pos)
      case Some((_, n)) =>
        VarintReadsIff(bytes[pos..]);
        (Found(Item(field, wire, Some(bytes[pos..pos + n]))), pos + n)
    else if wire == 1 then ScanSlot(bytes, pos, field, wire, 8)
    else if wire == 2 then
      match ReadVarint(bytes[pos..])
      case None => (Found(Item(field, wire, None)), pos)
      case Some((len, n)) =>
        VarintReadsIff(bytes[pos..]);
        if pos + n + len >= U64_LIMIT then (Panics, pos + n)
        else if pos + n + len > |bytes| then (Found(Item(field, wire, None)), pos + n)
        else (Found(Item(field, wire, Some(bytes[pos + n..pos + n + len]))), pos + n + len)
    else if wire == 5 then ScanSlot(bytes, pos, field, wire, 4)
    else (Found(Item(field, wire, None)), pos)
  }

  /** One call of `next` at `pos`: what it returns and where it leaves the position. */
  function ScanNext(bytes: seq<Byte>, pos: nat): (Scan, nat) {
    if pos >= |bytes| then (Done, pos)
    else
      match ReadVarint(bytes[pos..])
      case None => (Found(Item(0, 0, None)), pos)
      case Some((tag, n)) =>
        VarintReadsIff(bytes[pos..]);
        ScanValue(bytes, pos + n, tag / 8 % U32_LIMIT, tag % 8)
  }

  class Scanner {
    const bytes: seq<Byte>
    var pos: nat

    constructor (bytes: seq<Byte>)
      ensures this.bytes == bytes && pos == 0
    {
      this.bytes, pos := bytes, 0;
    }

    method Next() returns (r: Scan)
      modifies this
      ensures (r, pos) == ScanNext(bytes, old(pos))
    {
      hide ReadVarint;
      if pos >= |bytes| { return Done; }
      VarintReadsIff(bytes[pos..]);
      var key := DecodeVarint(bytes[pos..]);
      if key.None? { return Found(Item(0, 0, None)); }
      pos := pos + key.value.1;
      var field, wire := key.value.0 / 8 % U32_LIMIT, key.value.0 % 8;
      VarintReadsIff(bytes[pos..]);
      var start := pos;
      match wire {
        case 0 =>
          var value := DecodeVarint(bytes[pos..]);
          if value.None? { return Found(Item(field, wire, None)); }
          pos := pos + value.value.1;
          return Found(Item(field, wire, Some(bytes[start..pos])));
        case 1 =>
          pos := pos + 8;
          if pos > |bytes| { return Panics; }
          return Found(Item(field, wire, Some(bytes[start..pos])));
        case 2 =>
          var len := DecodeVarint(bytes[pos..]);
          if len.None? { return Found(Item(field, wire, None)); }
          pos := pos + len.value.1;
          if pos + len.value.0 >= U64_LIMIT { return Panics; }
          var end := pos + len.value.0;
          if end > |bytes| { return Found(Item(field, wire, None)); }
          var body := bytes[pos..end];
          pos := end;
          return Found(Item(field, wire, Some(body)));
        case 5 =>
          pos := pos + 4;
          if pos > |bytes| { return Panics; }
          return Found(Item(field, wire, Some(bytes[start..pos])));
        case _ =>
          return Found(Item(field, wire, None));
      }
    }
  }

  // ----- Progress --------------------------------------------------------------------------------

  /** A call that returns a field moves the position exactly when the key could be read; a field with a
      value always moves it, and stays inside the message. */
  lemma NextMovesIff(bytes: seq<Byte>, pos: nat)
    requires pos < |bytes|
    ensures ScanNext(bytes, pos).1 > pos <==> ReadVarint(bytes[pos..]).Some?
    ensures var (r, next) := ScanNext(bytes, pos);
            r.Found? && r.item.body.Some? ==> pos < next <= |bytes|
  {
    VarintReadsIff(bytes[pos..]);
    hide ReadVarint;
    if ReadVarint(bytes[pos..]).Some? {
      VarintReadsIff(bytes[pos + ReadVarint(bytes[pos..]).value.1..]);
    }
  }

  /** The length of a delimited field can be read at `pos` and ends past the largest position. */
  predicate Overflows(bytes: seq<Byte>, pos: nat)
    requires pos <= |bytes|
  {
    ReadVarint(bytes[pos..]).Some?
    && pos + ReadVarint(bytes[pos..]).value.1 + ReadVarint(bytes[pos..]).value.0 >= U64_LIMIT
  }

  /** A call panics if and only if its key announces a fixed slot that runs past the end, or a length whose
      end does not fit 64 bits; a length that merely runs past the end is an error, not a panic. */
  lemma NextPanicsIff(bytes: seq<Byte>, pos: nat)
    ensures ScanNext(bytes, pos).0.Panics? <==>
            && pos < |bytes| && ReadVarint(bytes[pos..]).Some?
            && var (tag, n) := ReadVarint(bytes[pos..]).value;
               && pos + n <= |bytes|
               && ((tag % 8 == 1 && pos + n + 8 > |bytes|) || (tag % 8 == 5 && pos + n + 4 > |bytes|)
                   || (tag % 8 == 2 && Overflows(bytes, pos + n)))
  {
    if pos < |bytes| {
      VarintReadsIff(bytes[pos..]);
    }
    hide ReadVarint;
  }

  /** The length of a delimited field can be read at `pos` and ends past the message. */
  predicate Overruns(bytes: seq<Byte>, pos: nat)
    requires pos <= |bytes|
  {
    ReadVarint(bytes[pos..]).Some?
    && |bytes| < pos + ReadVarint(bytes[pos..]).value.1 + ReadVarint(bytes[pos..]).value.0 < U64_LIMIT
  }

  /** A call returns an error if and only if the key cannot be read, its wire type is none of the four, the varint
      after it cannot be read, or its length ends past the message; the error stands under the field of the key. */
  lemma NextFailsIff(bytes: seq<Byte>, pos: nat)
    ensures var r := ScanNext(bytes, pos).0;
            r.Found? && r.item.body.None? <==>
            && pos < |bytes|
            && (|| ReadVarint(bytes[pos..]).None?
                || var (tag, n) := ReadVarint(bytes[pos..]).value;
                   && pos + n <= |bytes|
                   && (|| tag % 8 in {3, 4, 6, 7}
                       || (tag % 8 in {0, 2} && ReadVarint(bytes[pos + n..]).None?)
                       || (tag % 8 == 2 && Overruns(bytes, pos + n))))
    ensures var r := ScanNext(bytes, pos).0;
            r.Found? && ReadVarint(bytes[pos..]).Some? ==>
              var tag := ReadVarint(bytes[pos..]).value.0;
              r.item.field == tag / 8 % 0x1_0000_0000 && r.item.wire == tag % 8
  {
    if pos < |bytes| {
      VarintReadsIff(bytes[pos..]);
    }
    hide ReadVarint;
  }

  // ----- A caller that looks at one field ----------------------------------------------------------

  /** The values on which the handling of a field fails. */
  type Refusing = seq<Byte> -> bool

  /** The item ends the loop: a value of `field` that is malformed or refused. */
  predicate Halts(item: Item, field: nat, refuses: Refusing) {
    item.field == field && (item.body.None? || refuses(item.body.value))
  }

  /** A loop over the scanner that stops at the end, at a panic, or at a malformed or refused value of
      `field`, has stopped within `k` calls. */
  predicate StopsWithin(bytes: seq<Byte>, pos: nat, field: nat, refuses: Refusing, k: nat)
    decreases k
  {
    k > 0 &&
    match ScanNext(bytes, pos)
    case (Found(item), next) => Halts(item, field, refuses) || StopsWithin(bytes, next, field, refuses, k - 1)
    case _ => true
  }

  ghost predicate Stops(bytes: seq<Byte>, pos: nat, field: nat, refuses: Refusing) {
    exists k: nat :: StopsWithin(bytes, pos, field, refuses, k)
  }

  /** Every key that the loop comes to before it stops can be read. */
  predicate KeysReadable(bytes: seq<Byte>, pos: nat, field: nat, refuses: Refusing)
    decreases |bytes| - pos
  {
    pos >= |bytes| ||
    (ReadVarint(bytes[pos..]).Some? &&
     match ScanNext(bytes, pos)
     case (Found(item), next) =>
       NextMovesIff(bytes, pos);
       Halts(item, field, refuses) || KeysReadable(bytes, next, field, refuses)
     case _ => true)
  }

  /** At a key that cannot be read a call returns an error under field 0 and stays where it is, so that a
      loop which looks at another field makes the same call for ever. */
  lemma {:induction false} UnreadableKeyRepeats(bytes: seq<Byte>, pos: nat, field: nat, refuses: Refusing, k: nat)
    requires pos < |bytes| && ReadVarint(bytes[pos..]).None? && field > 0
    ensures ScanNext(bytes, pos) == (Found(Item(0, 0, None)), pos)
    ensures !StopsWithin(bytes, pos, field, refuses, k)
  {
    if k > 0 {
      UnreadableKeyRepeats(bytes, pos, field, refuses, k - 1);
    }
  }

  /** For any message and any field but 0: the loop stops after some number of calls if and only if every
      key it comes to can be read. */
  lemma {:induction false} ScanStopsIff(bytes: seq<Byte>, pos: nat, field: nat, refuses: Refusing)
    requires field > 0
    ensures Stops(bytes, pos, field, refuses) <==> KeysReadable(bytes, pos, field, refuses)
    decreases |bytes| - pos
  {
    hide ScanValue, ReadVarint;
    if pos >= |bytes| {
      assert StopsWithin(bytes, pos, field, refuses, 1);
    } else if ReadVarint(bytes[pos..]).None? {
      forall k: nat ensures !StopsWithin(bytes, pos, field, refuses, k) {
        UnreadableKeyRepeats(bytes, pos, field, refuses, k);
      }
    } else {
      NextMovesIff(bytes, pos);
      var (r, next) := ScanNext(bytes, pos);
      if r.Found? && !Halts(r.item, field, refuses) {
        ScanStopsIff(bytes, next, field, refuses);
        StopsOneLater(bytes, pos, field, refuses, next);
      } else {
        assert StopsWithin(bytes, pos, field, refuses, 1);
      }
    }
  }

  lemma StopsOneLater(bytes: seq<Byte>, pos: nat, field: nat, refuses: Refusing, next: nat)
    requires ScanNext(bytes, pos).0.Found? && ScanNext(bytes, pos).1 == next
    requires !Halts(ScanNext(bytes, pos).0.item, field, refuses)
    ensures Stops(bytes, pos, field, refuses) <==> Stops(bytes, next, field, refuses)
  {
    hide ScanNext;
    if Stops(bytes, pos, field, refuses) {
      var k: nat :| StopsWithin(bytes, pos, field, refuses, k);
      assert StopsWithin(bytes, next, field, refuses, k - 1);
    }
    if Stops(bytes, next, field, refuses) {
      var k: nat :| StopsWithin(bytes, next, field, refuses, k);
      assert StopsWithin(bytes, pos, field, refuses, k + 1);
    }
  }

  /** What such a loop gathers: the bodies of `field` in order, or how it stops. */
  datatype Gathered = Bodies(bodies: seq<seq<Byte>>) | BadBody | RefusedBody | Panicked

  function Gather(bytes: seq<Byte>, pos: nat, field: nat, refuses: Refusing): Gathered
    requires KeysReadable(bytes, pos, field, refuses)
    decreases |bytes| - pos
  {
    match ScanNext(bytes, pos)
    case (Done, _) => Bodies([])
    case (Panics, _) => Panicked
    case (Found(item), next) =>
      if Halts(item, field, refuses) then if item.body.None? then BadBody else RefusedBody
      else
        NextMovesIff(bytes, pos);
        match Gather(bytes, next, field, refuses)
        case Bodies(rest) => Bodies((if item.field == field then [item.body.value] else []) + rest)
        case other => other
  }

  function Prepend(before: seq<seq<Byte>>, rest: Gathered): Gathered {
    match rest case Bodies(bodies) => Bodies(before + bodies) case other => other
  }

  lemma GatherEnds(bytes: seq<Byte>, pos: nat, field: nat, refuses: Refusing)
    requires KeysReadable(bytes, pos, field, refuses) && !ScanNext(bytes, pos).0.Found?
    ensures Gather(bytes, pos, field, refuses) == if ScanNext(bytes, pos).0.Done? then Bodies([]) else Panicked
  {
    hide ScanNext;
  }

  lemma GatherGoesOn(bytes: seq<Byte>, pos: nat, field: nat, refuses: Refusing, item: Item, next: nat)
    requires KeysReadable(bytes, pos, field, refuses) && ScanNext(bytes, pos) == (Found(item), next)
    ensures Halts(item, field, refuses) ==>
              Gather(bytes, pos, field, refuses) == if item.body.None? then BadBody else RefusedBody
    ensures !Halts(item, field, refuses) ==>
              && pos < next && pos < |bytes| && KeysReadable(bytes, next, field, refuses)
              && (item.field == field ==> item.body.Some?)
              && Gather(bytes, pos, field, refuses)
                 == Prepend(if item.field == field then [item.body.value] else [], Gather(bytes, next, field, refuses))
  {
    EndIsDone(bytes, pos);
    NextMovesIff(bytes, pos);
    hide ScanNext;
  }

  lemma PrependTwice(a: seq<seq<Byte>>, b: seq<seq<Byte>>, rest: Gathered)
    ensures Prepend(a, Prepend(b, rest)) == Prepend(a + b, rest)
  {
    if rest.Bodies? {
      assert a + (b + rest.bodies) == a + b + rest.bodies;
    }
  }

  lemma PrependNothing(a: seq<seq<Byte>>, rest: Gathered)
    ensures Prepend([], rest) == rest && Prepend(a, Bodies([])) == Bodies(a) && a + [] == a
  {
    if rest.Bodies? {
      assert [] + rest.bodies == rest.bodies;
    }
  }

  /** The loop of `scan_descriptor_set`, which looks at field 1 and at its errors only; `refuses` are the
      file descriptors on which `scan_file` fails. Where a key cannot be
      read it does not end, which `ScanStopsIff` says is exactly what the requirement shuts out. */
  method GatherField(bytes: seq<Byte>, field: nat, refuses: Refusing) returns (r: Gathered)
    requires field > 0 && KeysReadable(bytes, 0, field, refuses)
    ensures r == Gather(bytes, 0, field, refuses)
  {
    hide ScanNext, KeysReadable, Gather, Prepend;
    var scanner := new Scanner(bytes);
    var bodies: seq<seq<Byte>> := [];
    PrependNothing([], Gather(bytes, 0, field, refuses));
    while true
      invariant scanner.bytes == bytes && fresh(scanner)
      invariant KeysReadable(bytes, scanner.pos, field, refuses)
      invariant Gather(bytes, 0, field, refuses) == Prepend(bodies, Gather(bytes, scanner.pos, field, refuses))
      decreases |bytes| - scanner.pos
    {
      ghost var pos := scanner.pos;
      var next := scanner.Next();
      PrependNothing(bodies, BadBody);
      match next {
        case Done =>
          GatherEnds(bytes, pos, field, refuses);
          return Bodies(bodies);
        case Panics =>
          GatherEnds(bytes, pos, field, refuses);
          PrependFailure(bodies);
          return Panicked;
        case Found(item) =>
          GatherGoesOn(bytes, pos, field, refuses, item, scanner.pos);
          PrependFailure(bodies);
          if item.field == field {
            if item.body.None? { return BadBody; }
            if refuses(item.body.value) { return RefusedBody; }
            PrependTwice(bodies, [item.body.value], Gather(bytes, scanner.pos, field, refuses));
            bodies := bodies + [item.body.value];
          } else {
            PrependTwice(bodies, [], Gather(bytes, scanner.pos, field, refuses));
          }
      }
    }
  }

  lemma PrependFailure(a: seq<seq<Byte>>)
    ensures Prepend(a, BadBody) == BadBody && Prepend(a, RefusedBody) == RefusedBody && Prepend(a, Panicked) == Panicked
  {
  }

  // ----- Round trip ------------------------------------------------------------------------------

  datatype Field =
    | VarintField(num: nat, value: U64)
    | Fixed64Field(num: nat, slot: seq<Byte>)
    | BytesField(num: nat, body: seq<Byte>)
    | Fixed32Field(num: nat, slot: seq<Byte>)

  predicate FieldOk(f: Field) {
    && f.num < U32_LIMIT && (f.Fixed64Field? ==> |f.slot| == 8) && (f.Fixed32Field? ==> |f.slot| == 4)
  }

  function WireType(f: Field): nat {
    match f case VarintField(_, _) => 0 case Fixed64Field(_, _) => 1 case BytesField(_, _) => 2 case Fixed32Field(_, _) => 5
  }

  function ValueBytes(f: Field): seq<Byte> {
    match f
    case VarintField(_, v) => Encode(v)
    case Fixed64Field(_, slot) => slot
    case BytesField(_, body) => Encode(|body|) + body
    case Fixed32Field(_, slot) => slot
  }

  function EncodeField(f: Field): seq<Byte> {
    Encode(f.num * 8 + WireType(f)) + ValueBytes(f)
  }

  /** The fields of a message, one after the other. */
  function EncodeFields(fields: seq<Field>): seq<Byte> {
    if fields == [] then [] else EncodeField(fields[0]) + EncodeFields(fields[1..])
  }

  function ItemOf(f: Field): Item {
    Item(f.num, WireType(f), Some(match f case VarintField(_, v) => Encode(v) case BytesField(_, b) => b
                                          case Fixed64Field(_, slot) => slot case Fixed32Field(_, slot) => slot))
  }

  lemma ValueScans(before: seq<Byte>, f: Field, rest: seq<Byte>)
    requires FieldOk(f) && |before + ValueBytes(f) + rest| < U64_LIMIT
    ensures ScanValue(before + ValueBytes(f) + rest, |before|, f.num, WireType(f))
         == (Found(ItemOf(f)), |before + ValueBytes(f)|)
  {
    hide ReadVarint, Encode;
    var bytes := before + ValueBytes(f) + rest;
    assert bytes[|before|..] == ValueBytes(f) + rest;
    match f {
      case VarintField(_, v) => VarintRoundTrips(v, rest);
      case BytesField(_, body) =>
        VarintRoundTrips(|body|, body + rest);
        assert ValueBytes(f) + rest == Encode(|body|) + (body + rest);
        var start := |before| + |Encode(|body|)|;
        assert bytes == before + Encode(|body|) + body + rest;
        assert bytes[start..start + |body|] == body;
      case _ =>
    }
  }

  /** A field written anywhere in a message is returned as it was written, and the position moves to the
      byte after it. */
  lemma FieldScans(before: seq<Byte>, f: Field, rest: seq<Byte>)
    requires FieldOk(f) && |before + EncodeField(f) + rest| < U64_LIMIT
    ensures ScanNext(before + EncodeField(f) + rest, |before|) == (Found(ItemOf(f)), |before + EncodeField(f)|)
  {
    hide ReadVarint, Encode, ScanValue, ValueBytes;
    var bytes := before + EncodeField(f) + rest;
    var key := f.num * 8 + WireType(f);
    VarintRoundTrips(key, ValueBytes(f) + rest);
    assert bytes[|before|..] == Encode(key) + (ValueBytes(f) + rest);
    assert key / 8 % U32_LIMIT == f.num && key % 8 == WireType(f);
    ValueScans(before + Encode(key), f, rest);
    assert before + Encode(key) + ValueBytes(f) + rest == bytes;
    assert |before + Encode(key) + ValueBytes(f)| == |before + EncodeField(f)|;
  }

  /** What a loop that stops at the first error collects. */
  datatype Scanned = All(items: seq<Item>) | Malformed | Crashed

  function Items(bytes: seq<Byte>, pos: nat): Scanned
    decreases |bytes| - pos
  {
    match ScanNext(bytes, pos)
    case (Done, _) => All([])
    case (Panics, _) => Crashed
    case (Found(item), next) =>
      if item.body.None? then Malformed
      else
        NextMovesIff(bytes, pos);
        match Items(bytes, next)
        case All(items) => All([item] + items)
        case other => other
  }

  function ItemsOf(fields: seq<Field>): seq<Item> {
    if fields == [] then [] else [ItemOf(fields[0])] + ItemsOf(fields[1..])
  }

  lemma {:induction false} ItemsFrom(before: seq<Byte>, fields: seq<Field>)
    requires (forall f :: f in fields ==> FieldOk(f)) && |before + EncodeFields(fields)| < U64_LIMIT
    ensures Items(before + EncodeFields(fields), |before|) == All(ItemsOf(fields))
    decreases |fields|
  {
    hide ScanNext, EncodeField, ItemOf;
    var bytes := before + EncodeFields(fields);
    if fields == [] {
      EndIsDone(bytes, |before|);
    } else {
      assert fields[0] in fields;
      assert bytes == before + EncodeField(fields[0]) + EncodeFields(fields[1..]);
      FieldScans(before, fields[0], EncodeFields(fields[1..]));
      ItemsFrom(before + EncodeField(fields[0]), fields[1..]);
      ItemHasBody(fields[0]);
    }
  }

  lemma ItemHasBody(f: Field)
    ensures ItemOf(f).body.Some?
  {
  }

  lemma EndIsDone(bytes: seq<Byte>, pos: nat)
    ensures pos >= |bytes| ==> ScanNext(bytes, pos) == (Done, pos)
  {
  }

  /** Scanning the encoding of any list of fields gives back exactly that list. */
  lemma FieldsRoundTrip(fields: seq<Field>)
    requires (forall f :: f in fields ==> FieldOk(f)) && |EncodeFields(fields)| < U64_LIMIT
    ensures Items(EncodeFields(fields), 0) == All(ItemsOf(fields))
  {
    hide ScanNext, EncodeField, ItemOf;
    ItemsFrom([], fields);
    assert [] + EncodeFields(fields) == EncodeFields(fields);
  }
}
