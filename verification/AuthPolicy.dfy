/** The authorization policy of an RPC, decoded from the raw bytes of its method options. */
module AuthPolicy {
  import opened Core
  import opened Tso
  import opened Varints
  import opened WireScanning

  /** `AuthRequirementBytes`: the classes of caller and the scopes. */
  datatype Policy = Policy(allowed: seq<string>, scopes: seq<string>)

  /** An error return, or a panic. */
  datatype Decoded<+T> = Good(value: T) | Bad | Crash

  type Utf8 = seq<Byte> -> Option<string>

  /** `as i32`: the low 32 bits, read as a signed number. */
  function AsI32(v: U64): int {
    var low := v % U32_LIMIT;
    if low < U32_LIMIT / 2 then low else low - U32_LIMIT
  }

  function SubjectClassName(value: int): Option<string> {
    if value == 1 then Some("Anonymous")
    else if value == 2 then Some("UserSelf")
    else if value == 3 then Some("AccountSelf")
    else if value == 4 then Some("AccountOwnsResource")
    else if value == 5 then Some("System")
    else None
  }

  // ----- The decoder -----------------------------------------------------------------------------

  /** The names of the varints from `inner` up to `end`; the last one may read past `end`. */
  function PackedFrom(bytes: seq<Byte>, inner: nat, end: nat): Decoded<seq<string>>
    requires end <= |bytes|
    decreases |bytes| - inner
  {
    if inner >= end then Good([])
    else
      match ReadVarint(bytes[inner..])
      case None => Bad
      case Some((v, n)) =>
        VarintReadsIff(bytes[inner..]);
        match SubjectClassName(AsI32(v))
        case None => Bad
        case Some(name) =>
          match PackedFrom(bytes, inner + n, end)
          case Good(names) => Good([name] + names)
          case other => other
  }

  /** Where the reading of the varints from `inner` up to `end` stops. */
  function PackedStop(bytes: seq<Byte>, inner: nat, end: nat): nat
    requires end <= |bytes|
    decreases |bytes| - inner
  {
    if inner >= end || ReadVarint(bytes[inner..]).None? then inner
    else
      VarintReadsIff(bytes[inner..]);
      PackedStop(bytes, inner + ReadVarint(bytes[inner..]).value.1, end)
  }

  /** Names that are read stop at the end of the packed field, or past it if and only if the last byte of the
      field announces another one: then the last name is finished with bytes of the next field. */
  lemma {:induction false} PackedReadsPastIff(bytes: seq<Byte>, inner: nat, end: nat)
    requires inner <= end <= |bytes| && PackedFrom(bytes, inner, end).Good?
    ensures PackedStop(bytes, inner, end) >= end
    ensures PackedStop(bytes, inner, end) > end <==> inner < end && bytes[end - 1] >= 128
    decreases end - inner
  {
    if inner < end {
      var rest := bytes[inner..];
      VarintStopsAt(rest);
      var n := ReadVarint(rest).value.1;
      hide ReadVarint, SubjectClassName;
      if inner + n < end {
        PackedReadsPastIff(bytes, inner + n, end);
      } else {
        assert bytes[end - 1] == rest[end - 1 - inner];
      }
    }
  }

  /** Where the value after a key ends; fixed slots and lengths are not checked against what is left. */
  function SkipTo(bytes: seq<Byte>, cursor: nat, wire: nat): (r: Decoded<nat>)
    requires cursor <= |bytes|
    ensures r.Good? ==> r.value >= cursor
  {
    if wire == 0 then
      match ReadVarint(bytes[cursor..]) case None => Bad case Some((_, n)) => Good(cursor + n)
    else if wire == 1 then Good(cursor + 8)
    else if wire == 2 then
      match ReadVarint(bytes[cursor..])
      case None => Bad
      case Some((len, n)) => if cursor + n + len >= U64_LIMIT then Crash else Good(cursor + n + len)
    else if wire == 5 then Good(cursor + 4)
    else Bad
  }

  /** The value of one field: what it adds to the policy, and where it ends. */
  function FieldAt(utf8: Utf8, bytes: seq<Byte>, cursor: nat, field: nat, wire: nat): (r: Decoded<(Policy, nat)>)
    requires cursor <= |bytes|
    ensures r.Good? ==> r.value.1 >= cursor
  {
    if field == 1 && wire == 0 then
      match ReadVarint(bytes[cursor..])
      case None => Bad
      case Some((v, n)) =>
        match SubjectClassName(AsI32(v))
        case None => Bad
        case Some(name) => Good((Policy([name], []), cursor + n))
    else if (field == 1 || field == 2) && wire == 2 then
      match ReadVarint(bytes[cursor..])
      case None => Bad
      case Some((len, n)) =>
        if cursor + n + len >= U64_LIMIT then Crash
        else if cursor + n + len > |bytes| then Bad
        else if field == 1 then
          match PackedFrom(bytes, cursor + n, cursor + n + len)
          case Good(names) => Good((Policy(names, []), cursor + n + len))
          case Bad => Bad
          case Crash => Crash
        else
          match utf8(bytes[cursor + n..cursor + n + len])
          case None => Bad
          case Some(scope) => Good((Policy([], [scope]), cursor + n + len))
    else
      match SkipTo(bytes, cursor, wire)
      case Good(next) => Good((Policy([], []), next))
      case Bad => Bad
      case Crash => Crash
  }

  function Plus(p: Policy, q: Policy): Policy {
    Policy(p.allowed + q.allowed, p.scopes + q.scopes)
  }

  /** The policy in the bytes from `cursor` on. */
  function PolicyFrom(utf8: Utf8, bytes: seq<Byte>, cursor: nat): Decoded<Policy>
    decreases |bytes| - cursor
  {
    if cursor >= |bytes| then Good(Policy([], []))
    else
      match ReadVarint(bytes[cursor..])
      case None => Bad
      case Some((tag, n)) =>
        VarintReadsIff(bytes[cursor..]);
        match FieldAt(utf8, bytes, cursor + n, tag / 8 % U32_LIMIT, tag % 8)
        case Bad => Bad
        case Crash => Crash
        case Good((part, next)) =>
          match PolicyFrom(utf8, bytes, next)
          case Good(rest) => Good(Plus(part, rest))
          case other => other
  }

  /** What is still to come after `done` was collected. */
  function After(done: Policy, rest: Decoded<Policy>): Decoded<Policy> {
    if rest.Good? then Good(Plus(done, rest.value)) else rest
  }

  method SkipWireValue(bytes: seq<Byte>, start: nat, wire: nat) returns (r: Decoded<nat>)
    requires start <= |bytes|
    ensures r == SkipTo(bytes, start, wire)
  {
    var cursor := start;
    match wire {
      case 0 =>
        var v := DecodeVarint(bytes[cursor..]);
        if v.None? { return Bad; }
        cursor := cursor + v.value.1;
      case 1 => cursor := cursor + 8;
      case 2 =>
        var v := DecodeVarint(bytes[cursor..]);
        if v.None? { return Bad; }
        if cursor + v.value.1 + v.value.0 >= U64_LIMIT { return Crash; }
        cursor := cursor + v.value.1 + v.value.0;
      case 5 => cursor := cursor + 4;
      case _ => return Bad;
    }
    return Good(cursor);
  }

  method DecodePacked(bytes: seq<Byte>, start: nat, end: nat, before: seq<string>) returns (r: Decoded<seq<string>>)
    requires start <= end <= |bytes|
    ensures r == match PackedFrom(bytes, start, end) case Good(names) => Good(before + names) case other => other
  {
    hide ReadVarint, SubjectClassName, AsI32;
    var allowed := before;
    var inner := start;
    while inner < end
      invariant match PackedFrom(bytes, start, end)
                case Good(names) => PackedFrom(bytes, inner, end).Good?
                                    && before + names == allowed + PackedFrom(bytes, inner, end).value
                case other => PackedFrom(bytes, inner, end) == other
      decreases |bytes| - inner
    {
      VarintReadsIff(bytes[inner..]);
      var v := DecodeVarint(bytes[inner..]);
      if v.None? { return Bad; }
      var name := SubjectClassName(AsI32(v.value.0));
      if name.None? { return Bad; }
      inner := inner + v.value.1;
      allowed := allowed + [name.value];
    }
    assert allowed + [] == allowed;
    return Good(allowed);
  }

  /** One turn of the decoder's match on field number and wire type. */
  method DecodeField(utf8: Utf8, bytes: seq<Byte>, start: nat, field: nat, wire: nat, before: Policy)
    returns (r: Decoded<(Policy, nat)>)
    requires start <= |bytes|
    ensures r == match FieldAt(utf8, bytes, start, field, wire)
                 case Good((part, next)) => Good((Plus(before, part), next))
                 case Bad => Bad
                 case Crash => Crash
  {
    hide ReadVarint, PackedFrom, SubjectClassName, AsI32;
    var out, cursor := before, start;
    assert out.allowed + [] == out.allowed && out.scopes + [] == out.scopes;
    VarintReadsIff(bytes[cursor..]);
    if field == 1 && wire == 0 {
      var v := DecodeVarint(bytes[cursor..]);
      if v.None? { return Bad; }
      cursor := cursor + v.value.1;
      var name := SubjectClassName(AsI32(v.value.0));
      if name.None? { return Bad; }
      out := out.(allowed := out.allowed + [name.value]);
    } else if field == 1 && wire == 2 {
      var len := DecodeVarint(bytes[cursor..]);
      if len.None? { return Bad; }
      cursor := cursor + len.value.1;
      if cursor + len.value.0 >= U64_LIMIT { return Crash; }
      var end := cursor + len.value.0;
      if end > |bytes| { return Bad; }
      var packed := DecodePacked(bytes, cursor, end, out.allowed);
      match packed {
        case Good(allowed) => out := out.(allowed := allowed);
        case Bad => return Bad;
        case Crash => return Crash;
      }
      cursor := end;
    } else if field == 2 && wire == 2 {
      var len := DecodeVarint(bytes[cursor..]);
      if len.None? { return Bad; }
      cursor := cursor + len.value.1;
      if cursor + len.value.0 >= U64_LIMIT { return Crash; }
      var end := cursor + len.value.0;
      if end > |bytes| { return Bad; }
      var text := utf8(bytes[cursor..end]);
      if text.None? { return Bad; }
      out := out.(scopes := out.scopes + [text.value]);
      cursor := end;
    } else {
      var next := SkipWireValue(bytes, cursor, wire);
      match next {
        case Good(n) => cursor := n;
        case Bad => return Bad;
        case Crash => return Crash;
      }
    }
    return Good((out, cursor));
  }

  method DecodeAuthRequirementMessage(utf8: Utf8, bytes: seq<Byte>) returns (r: Decoded<Policy>)
    ensures r == PolicyFrom(utf8, bytes, 0)
  {
    hide ReadVarint, FieldAt, Plus;
    var out := Policy([], []);
    var cursor := 0;
    PlusNothing(PolicyFrom(utf8, bytes, 0));
    while cursor < |bytes|
      invariant PolicyFrom(utf8, bytes, 0) == After(out, PolicyFrom(utf8, bytes, cursor))
      decreases |bytes| - cursor
    {
      VarintReadsIff(bytes[cursor..]);
      var key := DecodeVarint(bytes[cursor..]);
      if key.None? { return Bad; }
      cursor := cursor + key.value.1;
      var field, wire := key.value.0 / 8 % U32_LIMIT, key.value.0 % 8;
      ghost var here := FieldAt(utf8, bytes, cursor, field, wire);
      ghost var before := out;
      var decoded := DecodeField(utf8, bytes, cursor, field, wire, out);
      match decoded {
        case Good(pair) => out, cursor := pair.0, pair.1;
        case Bad => return Bad;
        case Crash => return Crash;
      }
      PlusAssociates(before, here.value.0, PolicyFrom(utf8, bytes, cursor));
    }
    PlusEnd(out);
    return Good(out);
  }

  lemma PlusEnd(p: Policy)
    ensures Plus(p, Policy([], [])) == p
  {
  }

  lemma PlusNothing(p: Decoded<Policy>)
    ensures After(Policy([], []), p) == p
  {
    if p.Good? {
      assert [] + p.value.allowed == p.value.allowed && [] + p.value.scopes == p.value.scopes;
    }
  }

  lemma PlusAssociates(a: Policy, b: Policy, rest: Decoded<Policy>)
    ensures After(a, After(b, rest)) == After(Plus(a, b), rest)
  {
    if rest.Good? {
      assert a.allowed + (b.allowed + rest.value.allowed) == a.allowed + b.allowed + rest.value.allowed;
      assert a.scopes + (b.scopes + rest.value.scopes) == a.scopes + b.scopes + rest.value.scopes;
    }
  }

  // ----- What the decoder means ------------------------------------------------------------------

  /** The fields of an authorization requirement: single and packed classes, scopes, and any other field
      or a known number under another wire type. */
  datatype AuthField = Subject(value: U64) | Packed(values: seq<U64>) | Scope(text: seq<Byte>) | Extra(field: Field)

  predicate AuthFieldOk(a: AuthField) {
    a.Extra? ==>
      FieldOk(a.field) && !(a.field.num == 1 && WireType(a.field) in {0, 2})
      && !(a.field.num == 2 && WireType(a.field) == 2)
  }

  function EncodeAll(values: seq<U64>): seq<Byte> {
    if values == [] then [] else Encode(values[0]) + EncodeAll(values[1..])
  }

  function FieldOf(a: AuthField): Field {
    match a
    case Subject(v) => VarintField(1, v)
    case Packed(values) => BytesField(1, EncodeAll(values))
    case Scope(text) => BytesField(2, text)
    case Extra(f) => f
  }

  function EncodeAuth(fields: seq<AuthField>): seq<Byte> {
    if fields == [] then [] else EncodeField(FieldOf(fields[0])) + EncodeAuth(fields[1..])
  }

  function Names(values: seq<U64>): Option<seq<string>> {
    if values == [] then Some([])
    else
      match (SubjectClassName(AsI32(values[0])), Names(values[1..]))
      case (Some(name), Some(names)) => Some([name] + names)
      case _ => None
  }

  /** What one field says. */
  function Part(utf8: Utf8, a: AuthField): Option<Policy> {
    match a
    case Subject(v) => (match SubjectClassName(AsI32(v)) case Some(name) => Some(Policy([name], [])) case None => None)
    case Packed(values) => (match Names(values) case Some(names) => Some(Policy(names, [])) case None => None)
    case Scope(text) => (match utf8(text) case Some(scope) => Some(Policy([], [scope])) case None => None)
    case Extra(_) => Some(Policy([], []))
  }

  /** The parts of all fields in order; an unknown class or bad text anywhere refuses the whole. */
  function Meaning(utf8: Utf8, fields: seq<AuthField>): Option<Policy> {
    if fields == [] then Some(Policy([], []))
    else
      match (Part(utf8, fields[0]), Meaning(utf8, fields[1..]))
      case (Some(part), Some(rest)) => Some(Plus(part, rest))
      case _ => None
  }

  function ToDecoded<T>(o: Option<T>): Decoded<T> {
    match o case Some(v) => Good(v) case None => Bad
  }

  lemma {:induction false} PackedReads(before: seq<Byte>, values: seq<U64>, rest: seq<Byte>)
    ensures PackedFrom(before + EncodeAll(values) + rest, |before|, |before + EncodeAll(values)|) == ToDecoded(Names(values))
    decreases |values|
  {
    hide ReadVarint, SubjectClassName, AsI32, Encode;
    var bytes := before + EncodeAll(values) + rest;
    if values != [] {
      assert bytes[|before|..] == Encode(values[0]) + (EncodeAll(values[1..]) + rest);
      VarintRoundTrips(values[0], EncodeAll(values[1..]) + rest);
      PackedReads(before + Encode(values[0]), values[1..], rest);
      assert before + Encode(values[0]) + EncodeAll(values[1..]) + rest == bytes;
    }
  }

  lemma AuthFieldReads(utf8: Utf8, before: seq<Byte>, a: AuthField, rest: seq<Byte>)
    requires AuthFieldOk(a) && |before + ValueBytes(FieldOf(a)) + rest| < U64_LIMIT
    ensures FieldAt(utf8, before + ValueBytes(FieldOf(a)) + rest, |before|, FieldOf(a).num, WireType(FieldOf(a)))
         == match Part(utf8, a) case Some(p) => Good((p, |before + ValueBytes(FieldOf(a))|)) case None => Bad
  {
    hide ReadVarint, SubjectClassName, AsI32, Encode, PackedFrom, Names, EncodeAll;
    var f := FieldOf(a);
    var bytes := before + ValueBytes(f) + rest;
    assert bytes[|before|..] == ValueBytes(f) + rest;
    match f {
      case VarintField(_, v) => VarintRoundTrips(v, rest);
      case BytesField(_, body) =>
        BytesAt(before, body, rest);
        if a.Packed? {
          PackedReads(before + Encode(|body|), a.values, rest);
          assert before + Encode(|body|) + body + rest == bytes;
        }
      case _ =>
    }
  }

  lemma BytesAt(before: seq<Byte>, body: seq<Byte>, rest: seq<Byte>)
    requires |body| < U64_LIMIT
    ensures var bytes := before + (Encode(|body|) + body) + rest;
            var start := |before| + |Encode(|body|)|;
            && ReadVarint(bytes[|before|..]) == Some((|body|, |Encode(|body|)|))
            && start + |body| <= |bytes| && bytes[start..start + |body|] == body
  {
    hide ReadVarint, Encode;
    var bytes := before + (Encode(|body|) + body) + rest;
    VarintRoundTrips(|body|, body + rest);
    assert bytes[|before|..] == Encode(|body|) + (body + rest);
    assert bytes == before + Encode(|body|) + body + rest;
  }

  lemma {:induction false} PolicyReads(utf8: Utf8, before: seq<Byte>, fields: seq<AuthField>)
    requires (forall a :: a in fields ==> AuthFieldOk(a)) && |before + EncodeAuth(fields)| < U64_LIMIT
    ensures PolicyFrom(utf8, before + EncodeAuth(fields), |before|) == ToDecoded(Meaning(utf8, fields))
    decreases |fields|
  {
    hide ReadVarint, Encode, FieldAt, Part, ValueBytes, AuthFieldOk, FieldOf;
    var bytes := before + EncodeAuth(fields);
    if fields != [] {
      assert fields[0] in fields;
      var f := FieldOf(fields[0]);
      var key := f.num * 8 + WireType(f);
      var rest := EncodeAuth(fields[1..]);
      NumFits(fields[0]);
      VarintRoundTrips(key, ValueBytes(f) + rest);
      assert bytes[|before|..] == Encode(key) + (ValueBytes(f) + rest);
      assert key / 8 % U32_LIMIT == f.num && key % 8 == WireType(f);
      assert bytes == before + Encode(key) + ValueBytes(f) + rest;
      AuthFieldReads(utf8, before + Encode(key), fields[0], rest);
      assert bytes == before + Encode(key) + ValueBytes(f) + EncodeAuth(fields[1..]);
      PolicyReads(utf8, before + Encode(key) + ValueBytes(f), fields[1..]);
    }
  }

  lemma NumFits(a: AuthField)
    requires AuthFieldOk(a)
    ensures FieldOf(a).num < U32_LIMIT
  {
  }

  /** For any mix of single and packed classes, scopes and unknown fields the decoder returns the classes
      and the scopes of all fields in their order, or refuses when one of them is not known. */
  lemma DecoderConcatenates(utf8: Utf8, fields: seq<AuthField>)
    requires (forall a :: a in fields ==> AuthFieldOk(a)) && |EncodeAuth(fields)| < U64_LIMIT
    ensures PolicyFrom(utf8, EncodeAuth(fields), 0) == ToDecoded(Meaning(utf8, fields))
  {
    hide PolicyFrom, Meaning;
    PolicyReads(utf8, [], fields);
    assert [] + EncodeAuth(fields) == EncodeAuth(fields);
  }

  /** A class is known by its low 32 bits alone: larger numbers name the same five classes. */
  lemma ClassIsKnownIff(v: U64)
    ensures SubjectClassName(AsI32(v)).Some? <==> 1 <= v % U32_LIMIT <= 5
    ensures 1 <= v % U32_LIMIT <= 5 ==>
              SubjectClassName(AsI32(v))
              == Some(["Anonymous", "UserSelf", "AccountSelf", "AccountOwnsResource", "System"][v % U32_LIMIT - 1])
  {
  }

  function NumbersIn(a: AuthField): seq<U64> {
    match a case Subject(v) => [v] case Packed(values) => values case _ => []
  }

  /** The class numbers of all fields, in order. */
  function Numbers(fields: seq<AuthField>): seq<U64> {
    if fields == [] then [] else NumbersIn(fields[0]) + Numbers(fields[1..])
  }

  function TextsIn(a: AuthField): seq<seq<Byte>> {
    if a.Scope? then [a.text] else []
  }

  /** The raw scopes of all fields, in order. */
  function Texts(fields: seq<AuthField>): seq<seq<Byte>> {
    if fields == [] then [] else TextsIn(fields[0]) + Texts(fields[1..])
  }

  predicate AllKnown(numbers: seq<U64>) {
    forall v :: v in numbers ==> 1 <= v % 0x1_0000_0000 <= 5
  }

  predicate AllText(utf8: Utf8, texts: seq<seq<Byte>>) {
    forall t :: t in texts ==> utf8(t).Some?
  }

  /** Each number stands for its class. */
  predicate Named(numbers: seq<U64>, names: seq<string>) {
    && |names| == |numbers|
    && forall i :: 0 <= i < |numbers| ==>
         && 1 <= numbers[i] % 0x1_0000_0000 <= 5
         && names[i] == ["Anonymous", "UserSelf", "AccountSelf", "AccountOwnsResource", "System"]
                        [numbers[i] % 0x1_0000_0000 - 1]
  }

  predicate Read(utf8: Utf8, texts: seq<seq<Byte>>, scopes: seq<string>) {
    |scopes| == |texts| && forall i :: 0 <= i < |texts| ==> utf8(texts[i]) == Some(scopes[i])
  }

  lemma KnownSplits(a: seq<U64>, b: seq<U64>)
    ensures AllKnown(a + b) <==> AllKnown(a) && AllKnown(b)
  {
    forall v ensures v in a + b <==> v in a || v in b {
    }
  }

  lemma TextSplits(utf8: Utf8, a: seq<seq<Byte>>, b: seq<seq<Byte>>)
    ensures AllText(utf8, a + b) <==> AllText(utf8, a) && AllText(utf8, b)
  {
    forall t ensures t in a + b <==> t in a || t in b {
    }
  }

  lemma {:induction false} NamesAreNamed(values: seq<U64>)
    ensures Names(values).Some? <==> AllKnown(values)
    ensures Names(values).Some? ==> Named(values, Names(values).value)
  {
    hide SubjectClassName, AsI32;
    if values != [] {
      NamesAreNamed(values[1..]);
      ClassIsKnownIff(values[0]);
      assert values == [values[0]] + values[1..];
      KnownSplits([values[0]], values[1..]);
      assert values[0] in [values[0]];
    }
  }

  lemma PlusIsNamed(utf8: Utf8, a: seq<U64>, b: seq<U64>, s: seq<seq<Byte>>, t: seq<seq<Byte>>, p: Policy, q: Policy)
    requires Named(a, p.allowed) && Named(b, q.allowed) && Read(utf8, s, p.scopes) && Read(utf8, t, q.scopes)
    ensures Named(a + b, Plus(p, q).allowed) && Read(utf8, s + t, Plus(p, q).scopes)
  {
  }

  lemma PartIsNamed(utf8: Utf8, a: AuthField)
    ensures Part(utf8, a).Some? <==> AllKnown(NumbersIn(a)) && AllText(utf8, TextsIn(a))
    ensures Part(utf8, a).Some? ==>
              Named(NumbersIn(a), Part(utf8, a).value.allowed) && Read(utf8, TextsIn(a), Part(utf8, a).value.scopes)
  {
    hide SubjectClassName, AsI32;
    match a {
      case Subject(v) =>
        ClassIsKnownIff(v);
        assert v in [v];
      case Packed(values) => NamesAreNamed(values);
      case Scope(text) => assert text in [text];
      case Extra(_) =>
    }
  }

  lemma {:induction false} MeaningIsNamed(utf8: Utf8, fields: seq<AuthField>)
    ensures Meaning(utf8, fields).Some? <==> AllKnown(Numbers(fields)) && AllText(utf8, Texts(fields))
    ensures Meaning(utf8, fields).Some? ==>
              var p := Meaning(utf8, fields).value;
              Named(Numbers(fields), p.allowed) && Read(utf8, Texts(fields), p.scopes)
    decreases |fields|
  {
    if fields != [] {
      hide AllKnown, AllText, Named, Read, Part, Plus, NumbersIn, TextsIn;
      var a, rest := fields[0], fields[1..];
      PartIsNamed(utf8, a);
      MeaningIsNamed(utf8, rest);
      KnownSplits(NumbersIn(a), Numbers(rest));
      TextSplits(utf8, TextsIn(a), Texts(rest));
      if Meaning(utf8, fields).Some? {
        PlusIsNamed(utf8, NumbersIn(a), Numbers(rest), TextsIn(a), Texts(rest),
                    Part(utf8, a).value, Meaning(utf8, rest).value);
      }
    }
  }

  /** From bytes to names: however the fields of a requirement are split and mixed, its classes are the names that
      its numbers stand for and its scopes the texts, both in order; it is refused if and only if some number
      stands for none of the five classes or some scope is not text. */
  lemma PolicyNamesClasses(utf8: Utf8, fields: seq<AuthField>)
    requires (forall a :: a in fields ==> AuthFieldOk(a)) && |EncodeAuth(fields)| < U64_LIMIT
    ensures var r := PolicyFrom(utf8, EncodeAuth(fields), 0);
            if AllKnown(Numbers(fields)) && AllText(utf8, Texts(fields)) then
              r.Good? && Named(Numbers(fields), r.value.allowed) && Read(utf8, Texts(fields), r.value.scopes)
            else r.Bad?
  {
    hide PolicyFrom, Meaning, AllKnown, AllText, Named, Read, EncodeAuth;
    DecoderConcatenates(utf8, fields);
    MeaningIsNamed(utf8, fields);
  }

  /** The short form, byte for byte: after the key of field 1 a byte from 1 to 5 names its class. */
  lemma ShortClass(utf8: Utf8, number: Byte)
    requires 1 <= number <= 5
    ensures PolicyFrom(utf8, [8, number], 0)
         == Good(Policy([["Anonymous", "UserSelf", "AccountSelf", "AccountOwnsResource", "System"][number - 1]], []))
  {
    hide PolicyFrom, Encode, Named, AllKnown;
    var fields := [Subject(number)];
    assert fields[1..] == [];
    assert EncodeAuth(fields) == Encode(8) + Encode(number);
    ShortEncodings(number);
    assert EncodeAuth(fields) == [8, number];
    PolicyNamesClasses(utf8, fields);
    assert Numbers(fields) == [number] && Texts(fields) == [];
    var r := PolicyFrom(utf8, [8, number], 0);
    OneIsNamed(number, if r.Good? then r.value.allowed else []);
  }

  lemma ShortEncodings(n: Byte)
    requires n < 128
    ensures Encode(n) == [n] && Encode(8) == [8] && Encode(18) == [18]
  {
  }

  lemma OneIsNamed(number: U64, names: seq<string>)
    requires 1 <= number <= 5
    ensures AllKnown([number])
    ensures Named([number], names)
         <==> names == [["Anonymous", "UserSelf", "AccountSelf", "AccountOwnsResource", "System"][number - 1]]
  {
  }

  lemma OneIsRead(utf8: Utf8, text: seq<Byte>, names: seq<string>, scopes: seq<string>)
    ensures AllKnown([]) && (Named([], names) <==> names == [])
    ensures AllText(utf8, [text]) <==> utf8(text).Some?
    ensures Read(utf8, [text], scopes) <==> utf8(text).Some? && scopes == [utf8(text).value]
  {
    assert text in [text];
    if Read(utf8, [text], scopes) {
      assert utf8([text][0]) == Some(scopes[0]);
    }
  }

  /** After the key of field 2 and a length below 128 stands a scope. */
  lemma ShortScope(utf8: Utf8, text: seq<Byte>)
    requires |text| < 128
    ensures PolicyFrom(utf8, [18, |text|] + text, 0)
         == match utf8(text) case Some(scope) => Good(Policy([], [scope])) case None => Bad
  {
    hide PolicyFrom, Encode, Named, Read, AllKnown, AllText;
    var fields := [Scope(text)];
    assert fields[1..] == [];
    ShortEncodings(|text|);
    assert EncodeAuth(fields) == [18, |text|] + text;
    PolicyNamesClasses(utf8, fields);
    assert Numbers(fields) == [] && Texts(fields) == [text];
    var r := PolicyFrom(utf8, [18, |text|] + text, 0);
    OneIsRead(utf8, text, if r.Good? then r.value.allowed else [], if r.Good? then r.value.scopes else []);
  }

  // ----- The method options around it ------------------------------------------------------------

  const AUTH_REQUIREMENT_FIELD: nat := 50001

  /** The body of the last requirement among the items of a message. */
  function LastRequirement(items: seq<Item>): Option<seq<Byte>> {
    if items == [] then None
    else
      LastRequirement(items[1..]).Or(if items[0].field == AUTH_REQUIREMENT_FIELD then items[0].body else None)
  }

  /** The policy of raw method options: none, or that of the last requirement in them. */
  function OptionsPolicy(utf8: Utf8, bytes: seq<Byte>): Decoded<Option<Policy>> {
    match Items(bytes, 0)
    case Malformed => Bad
    case Crashed => Crash
    case All(items) =>
      match LastRequirement(items)
      case None => Good(None)
      case Some(body) =>
        match PolicyFrom(utf8, body, 0)
        case Good(policy) => Good(Some(policy))
        case Bad => Bad
        case Crash => Crash
  }

  /** What the loop still has to do at `pos` when it holds `found`. */
  function Rest(bytes: seq<Byte>, pos: nat, found: Option<seq<Byte>>): Decoded<Option<seq<Byte>>> {
    match Items(bytes, pos)
    case Malformed => Bad
    case Crashed => Crash
    case All(items) => Good(LastRequirement(items).Or(found))
  }

  method ScanMethodOptionsForAuth(utf8: Utf8, bytes: seq<Byte>) returns (r: Decoded<Option<Policy>>)
    ensures r == OptionsPolicy(utf8, bytes)
  {
    hide ScanNext, PolicyFrom;
    var found: Option<seq<Byte>> := None;
    var scanner := new Scanner(bytes);
    while true
      invariant scanner.bytes == bytes && fresh(scanner)
      invariant Rest(bytes, scanner.pos, found) == Rest(bytes, 0, None)
      decreases |bytes| - scanner.pos
    {
      ghost var pos := scanner.pos;
      var next := scanner.Next();
      match next {
        case Done =>
          assert Rest(bytes, pos, found) == Good(found);
          break;
        case Panics => return Crash;
        case Found(item) =>
          if item.body.None? { return Bad; }
          FoundIsInside(bytes, pos);
          NextMovesIff(bytes, pos);
          if item.field == AUTH_REQUIREMENT_FIELD {
            found := item.body;
          }
      }
    }
    if found.None? { return Good(None); }
    var policy := DecodeAuthRequirementMessage(utf8, found.value);
    match policy {
      case Good(p) => return Good(Some(p));
      case Bad => return Bad;
      case Crash => return Crash;
    }
  }

  lemma FoundIsInside(bytes: seq<Byte>, pos: nat)
    requires ScanNext(bytes, pos).0.Found?
    ensures pos < |bytes|
  {
  }

  lemma {:induction false} LastOfFields(before: seq<Field>, body: seq<Byte>, after: seq<Field>)
    requires forall f :: f in after ==> f.num != AUTH_REQUIREMENT_FIELD
    ensures LastRequirement(ItemsOf(before + [BytesField(AUTH_REQUIREMENT_FIELD, body)] + after)) == Some(body)
  {
    var fields := before + [BytesField(AUTH_REQUIREMENT_FIELD, body)] + after;
    if before == [] {
      assert fields[1..] == after;
      NoRequirement(after);
    } else {
      assert fields[1..] == before[1..] + [BytesField(AUTH_REQUIREMENT_FIELD, body)] + after;
      LastOfFields(before[1..], body, after);
    }
  }

  lemma {:induction false} NoRequirement(fields: seq<Field>)
    requires forall f :: f in fields ==> f.num != AUTH_REQUIREMENT_FIELD
    ensures LastRequirement(ItemsOf(fields)) == None
  {
    if fields != [] {
      assert fields[0] in fields;
      NoRequirement(fields[1..]);
    }
  }

  /** From the written options to the policy: whatever options stand before and after it, the last
      requirement alone decides, under the number of the extension, and it means the concatenation of its fields. */
  lemma OptionsMeanLastRequirement(utf8: Utf8, before: seq<Field>, policy: seq<AuthField>, after: seq<Field>)
    requires forall f :: f in before + after ==> FieldOk(f)
    requires forall f :: f in after ==> f.num != 50001
    requires forall a :: a in policy ==> AuthFieldOk(a)
    requires |EncodeFields(before + [BytesField(50001, EncodeAuth(policy))] + after)| < U64_LIMIT
    requires |EncodeAuth(policy)| < U64_LIMIT
    ensures OptionsPolicy(utf8, EncodeFields(before + [BytesField(50001, EncodeAuth(policy))] + after))
         == match Meaning(utf8, policy) case Some(p) => Good(Some(p)) case None => Bad
  {
    hide Items, ItemsOf, PolicyFrom, Meaning, EncodeFields, EncodeAuth, LastRequirement;
    var requirement := BytesField(50001, EncodeAuth(policy));
    var fields := before + [requirement] + after;
    forall f | f in fields ensures FieldOk(f) {
      if f != requirement {
        assert f in before + after;
      }
    }
    FieldsRoundTrip(fields);
    LastOfFields(before, EncodeAuth(policy), after);
    DecoderConcatenates(utf8, policy);
  }

  /** Options without a requirement have no policy, which stops the build. */
  lemma OptionsWithoutRequirement(utf8: Utf8, fields: seq<Field>)
    requires forall f :: f in fields ==> FieldOk(f) && f.num != 50001
    requires |EncodeFields(fields)| < U64_LIMIT
    ensures OptionsPolicy(utf8, EncodeFields(fields)) == Good(None)
  {
    FieldsRoundTrip(fields);
    NoRequirement(fields);
  }
}
