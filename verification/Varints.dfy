/** Base 128 varints of the protobuf wire format, as the build script reads them. */
module Varints {
  import opened Core
  import opened Tso

  /** 128 to the power `i`. */
  function Scale(i: nat): nat {
    if i == 0 then 1 else 128 * Scale(i - 1)
  }

  /** The groups of seven bits of `bytes`, least significant first, without any width. */
  function Groups(bytes: seq<Byte>): nat {
    if bytes == [] then 0 else bytes[0] % 128 + 128 * Groups(bytes[1..])
  }

  /** The bytes up to and including the first one below 128. */
  function Head(bytes: seq<Byte>): seq<Byte> {
    if bytes == [] then [] else if bytes[0] < 128 then [bytes[0]] else [bytes[0]] + Head(bytes[1..])
  }

  /** The value of the bytes up to the first one below 128, cut to 64 bits, and their number; `None` when
      the first ten bytes hold no such byte. */
  function ReadVarint(bytes: seq<Byte>): Option<(U64, nat)> {
    var head := Head(bytes);
    if head != [] && head[|head| - 1] < 128 && |head| <= 10 then Some((Groups(head) % U64_LIMIT, |head|)) else None
  }

  // ----- Machine words as numbers ------------------------------------------------------------------

  function PowerOfTwo(k: nat): nat {
    if k == 0 then 1 else 2 * PowerOfTwo(k - 1)
  }

  /** `|`, binary digit by binary digit. */
  function Or(a: nat, b: nat): nat
    decreases a + b
  {
    if a == 0 && b == 0 then 0
    else (if a % 2 == 1 || b % 2 == 1 then 1 else 0) + 2 * Or(a / 2, b / 2)
  }

  /** `<<` on a u64: the digits above the 64th are dropped. */
  function ShiftLeft(a: nat, shift: nat): U64 {
    a * PowerOfTwo(shift) % U64_LIMIT
  }

  lemma {:induction false} OrWithZero(b: nat)
    ensures Or(0, b) == b
  {
    if b > 0 {
      OrWithZero(b / 2);
    }
  }

  lemma HalfOfShifted(m: nat, p: nat)
    ensures m * (2 * p) % 2 == 0 && m * (2 * p) / 2 == m * p
  {
    assert m * (2 * p) == 2 * (m * p);
  }

  /** Digits at position `k` and above do not touch a number that is shorter, so `|` adds. */
  lemma {:induction false} OrAdds(a: nat, m: nat, k: nat)
    requires a < PowerOfTwo(k)
    ensures Or(a, m * PowerOfTwo(k)) == a + m * PowerOfTwo(k)
    decreases k
  {
    if k == 0 {
      OrWithZero(m);
    } else {
      var half := PowerOfTwo(k - 1);
      HalfOfShifted(m, half);
      OrAdds(a / 2, m, k - 1);
      OrStep(a, m * PowerOfTwo(k));
    }
  }

  lemma OrStep(a: nat, b: nat)
    requires b % 2 == 0
    ensures Or(a, b) == a % 2 + 2 * Or(a / 2, b / 2)
  {
  }

  lemma {:induction false} ScaleIsPower(i: nat)
    ensures Scale(i) == PowerOfTwo(7 * i)
  {
    if i > 0 {
      ScaleIsPower(i - 1);
      var k := 7 * (i - 1);
      assert PowerOfTwo(k + 2) == 2 * PowerOfTwo(k + 1) == 4 * PowerOfTwo(k);
      assert PowerOfTwo(k + 4) == 2 * PowerOfTwo(k + 3) == 4 * PowerOfTwo(k + 2);
      assert PowerOfTwo(k + 7) == 2 * PowerOfTwo(k + 6) == 4 * PowerOfTwo(k + 5) == 8 * PowerOfTwo(k + 4);
    }
  }

  // ----- Reading -----------------------------------------------------------------------------------

  lemma {:induction false} HeadLength(bytes: seq<Byte>)
    ensures |Head(bytes)| <= |bytes| && Head(bytes) == bytes[..|Head(bytes)|]
    ensures forall i :: 0 <= i < |Head(bytes)| - 1 ==> bytes[i] >= 128
    ensures Head(bytes) == [] || Head(bytes)[|Head(bytes)| - 1] >= 128 ==> Head(bytes) == bytes
  {
    if bytes != [] && bytes[0] >= 128 {
      HeadLength(bytes[1..]);
      assert bytes == [bytes[0]] + bytes[1..];
    }
  }

  lemma Scale0()
    ensures Scale(0) == 1 && Groups([]) == 0
  {
  }

  lemma ScaleNext(i: nat)
    ensures Scale(i + 1) == Scale(i) * 128
  {
  }

  lemma Distribute(g: nat, d: nat, scale: nat)
    ensures 128 * (g + d * scale) == 128 * g + d * (scale * 128)
  {
  }

  lemma {:induction false} GroupsAppend(bytes: seq<Byte>, b: Byte)
    ensures Groups(bytes + [b]) == Groups(bytes) + b % 128 * Scale(|bytes|)
    ensures Groups(bytes) < Scale(|bytes|)
  {
    if bytes == [] {
      assert [b][1..] == [];
    } else {
      GroupsAppend(bytes[1..], b);
      assert (bytes + [b])[1..] == bytes[1..] + [b];
      hide Scale;
      ScaleNext(|bytes| - 1);
      Distribute(Groups(bytes[1..]), b % 128, Scale(|bytes| - 1));
    }
  }

  lemma Scale9()
    ensures Scale(9) == 0x8000_0000_0000_0000
  {
    assert Scale(3) == 0x20_0000;
    assert Scale(6) == Scale(3) * 0x20_0000;
    assert Scale(9) == Scale(6) * 0x20_0000;
  }

  lemma {:induction false} ScaleGrows(i: nat, j: nat)
    requires i <= j
    ensures 1 <= Scale(i) <= Scale(j)
  {
    if i < j {
      ScaleGrows(i, j - 1);
    } else if i > 0 {
      ScaleGrows(i - 1, j - 1);
    }
  }

  lemma HeadIs(bytes: seq<Byte>, n: nat)
    requires n < |bytes| && bytes[n] < 128 && forall i :: 0 <= i < n ==> bytes[i] >= 128
    ensures Head(bytes) == bytes[..n + 1]
  {
    if n > 0 {
      HeadIs(bytes[1..], n - 1);
      assert bytes[..n + 1] == [bytes[0]] + bytes[1..][..n];
    }
  }

  /** The seven low bits of each byte in turn, shifted above those already read. */
  method DecodeVarint(bytes: seq<Byte>) returns (r: Option<(U64, nat)>)
    ensures r == ReadVarint(bytes)
  {
    hide ReadVarint, Groups, Head, Scale, Or, ShiftLeft;
    Scale0();
    var value: U64 := 0;
    var i, shift := 0, 0;
    while i < |bytes| && i < 10
      invariant 0 <= i <= |bytes| && i <= 10 && shift == 7 * i
      invariant forall k :: 0 <= k < i ==> bytes[k] >= 128
      invariant value == Groups(bytes[..i]) % U64_LIMIT && (i < 10 ==> value < Scale(i))
    {
      GroupsAppend(bytes[..i], bytes[i]);
      assert bytes[..i + 1] == bytes[..i] + [bytes[i]];
      OrReadsGroup(value, bytes[i], i, Groups(bytes[..i]));
      value := Or(value, ShiftLeft(bytes[i] % 128, shift));
      if bytes[i] < 128 {
        Stops(bytes, i);
        return Some((value, i + 1));
      }
      if i < 9 {
        GroupsAppend(bytes[..i + 1], 0);
        NextScale(value, Groups(bytes[..i + 1]), i);
      }
      shift := shift + 7;
      i := i + 1;
    }
    TooLong(bytes, i);
    return None;
  }

  lemma OrReadsGroup(value: U64, b: Byte, i: nat, groups: nat)
    requires i < 10 && value < Scale(i) && groups < Scale(i) && value == groups % U64_LIMIT
    ensures Or(value, ShiftLeft(b % 128, 7 * i)) == (groups + b % 128 * Scale(i)) % U64_LIMIT
  {
    hide Scale, Or;
    var g := b % 128;
    GroupFits(value, b, i, groups);
    ScaleIsPower(i);
    if i == 9 {
      Scale9();
      LastGroup(g);
      OrAdds(value, g % 2, 7 * i);
    } else {
      ScaleGrows(i, 8);
      ScaleNext(8);
      Scale9();
      ShortShift(g, Scale(i));
      OrAdds(value, g, 7 * i);
    }
  }

  lemma ShortShift(g: nat, scale: nat)
    requires g < 128 && 128 * scale <= U64_LIMIT / 2
    ensures g * scale % U64_LIMIT == g * scale
  {
    assert 0 <= g * scale <= 127 * scale;
  }

  lemma GroupFits(value: U64, b: Byte, i: nat, groups: nat)
    requires i < 10 && value < Scale(i) && groups < Scale(i) && value == groups % U64_LIMIT
    ensures value + b % 128 * Scale(i) % U64_LIMIT < U64_LIMIT
    ensures value + b % 128 * Scale(i) % U64_LIMIT == (groups + b % 128 * Scale(i)) % U64_LIMIT
  {
    hide Scale;
    Scale9();
    ScaleGrows(i, 9);
    if i == 9 {
      LastGroupFits(value, b % 128);
      assert value == groups;
    } else {
      ScaleGrows(i, 8);
      ScaleNext(8);
      EarlyGroupFits(value, b % 128, Scale(i));
      assert value == groups;
    }
  }

  lemma EarlyGroupFits(value: nat, g: nat, scale: nat)
    requires g < 128 && value < scale && 128 * scale <= U64_LIMIT / 2
    ensures value + g * scale % U64_LIMIT < U64_LIMIT
    ensures value + g * scale % U64_LIMIT == (value + g * scale) % U64_LIMIT
  {
    assert 0 <= g * scale <= 127 * scale;
    SmallSum(value, g * scale);
  }

  lemma SmallSum(a: nat, b: nat)
    requires a + b < U64_LIMIT
    ensures a + b % U64_LIMIT < U64_LIMIT && a + b % U64_LIMIT == (a + b) % U64_LIMIT
  {
  }

  lemma LastGroupFits(value: nat, g: nat)
    requires g < 128 && value < U64_LIMIT / 2
    ensures value + g * 0x8000_0000_0000_0000 % U64_LIMIT < U64_LIMIT
    ensures value + g * 0x8000_0000_0000_0000 % U64_LIMIT == (value + g * 0x8000_0000_0000_0000) % U64_LIMIT
  {
    LastGroup(g);
    assert value + g * 0x8000_0000_0000_0000 == value + g % 2 * 0x8000_0000_0000_0000 + g / 2 * U64_LIMIT;
  }

  lemma LastGroup(g: nat)
    ensures g * 0x8000_0000_0000_0000 % U64_LIMIT == g % 2 * 0x8000_0000_0000_0000
  {
    assert g * 0x8000_0000_0000_0000 == g % 2 * 0x8000_0000_0000_0000 + g / 2 * U64_LIMIT;
  }

  lemma NextScale(value: U64, groups: nat, i: nat)
    requires i < 9 && value == groups % U64_LIMIT && groups < Scale(i + 1)
    ensures value < Scale(i + 1)
  {
    Scale9();
    ScaleGrows(i + 1, 9);
  }

  lemma Stops(bytes: seq<Byte>, i: nat)
    requires i < |bytes| && i < 10 && bytes[i] < 128 && forall k :: 0 <= k < i ==> bytes[k] >= 128
    ensures ReadVarint(bytes) == Some((Groups(bytes[..i + 1]) % U64_LIMIT, i + 1))
  {
    HeadIs(bytes, i);
  }

  lemma TooLong(bytes: seq<Byte>, i: nat)
    requires i <= |bytes| && (i == |bytes| || i == 10) && forall k :: 0 <= k < i ==> bytes[k] >= 128
    ensures ReadVarint(bytes).None?
  {
    HeadLength(bytes);
  }

  // ----- Round trip ------------------------------------------------------------------------------

  function Encode(n: nat): seq<Byte> {
    if n < 128 then [n] else [n % 128 + 128] + Encode(n / 128)
  }

  lemma {:induction false} EncodedLength(n: nat, width: nat)
    requires width >= 1 && n < Scale(width)
    ensures 1 <= |Encode(n)| <= width
  {
    hide Scale;
    if n >= 128 {
      Scale0();
      ScaleNext(width - 1);
      ScaleNext(0);
      EncodedLength(n / 128, width - 1);
    }
  }

  lemma {:induction false} EncodedGroups(n: nat)
    ensures Groups(Encode(n)) == n
  {
    if n >= 128 {
      EncodedGroups(n / 128);
      assert Encode(n)[1..] == Encode(n / 128);
    } else {
      assert Encode(n)[1..] == [];
    }
  }

  lemma {:induction false} EncodedHead(n: nat, rest: seq<Byte>)
    ensures Head(Encode(n) + rest) == Encode(n)
    ensures Encode(n) != [] && Encode(n)[|Encode(n)| - 1] < 128
  {
    if n >= 128 {
      EncodedHead(n / 128, rest);
      assert (Encode(n) + rest)[1..] == Encode(n / 128) + rest;
    }
  }

  /** Every 64-bit number has an encoding of one to ten bytes, which is read back whatever follows. */
  lemma VarintRoundTrips(n: U64, rest: seq<Byte>)
    ensures 1 <= |Encode(n)| <= 10
    ensures ReadVarint(Encode(n) + rest) == Some((n, |Encode(n)|))
  {
    hide Scale, Encode, Head, Groups;
    Scale9();
    ScaleNext(9);
    EncodedLength(n, 10);
    EncodedGroups(n);
    EncodedHead(n, rest);
  }

  /** The reader accepts exactly when one of the first ten bytes is below 128; it then has used the bytes
      up to that one and never looks at those after it. */
  lemma VarintReadsIff(bytes: seq<Byte>)
    ensures ReadVarint(bytes).Some? <==> exists i :: 0 <= i < |bytes| && i < 10 && bytes[i] < 128
    ensures ReadVarint(bytes).Some? ==>
              var n := ReadVarint(bytes).value.1;
              1 <= n <= |bytes| && n <= 10 && ReadVarint(bytes[..n]) == ReadVarint(bytes)
  {
    HeadLength(bytes);
    var head := Head(bytes);
    if ReadVarint(bytes).Some? {
      assert head[|head| - 1] == bytes[|head| - 1];
      HeadIs(bytes[..|head|], |head| - 1);
      assert bytes[..|head|][..|head|] == bytes[..|head|];
    }
  }

  /** Of the bytes that are used only the last is below 128. */
  lemma VarintStopsAt(bytes: seq<Byte>)
    requires ReadVarint(bytes).Some?
    ensures var n := ReadVarint(bytes).value.1;
            && 1 <= n <= |bytes| && bytes[n - 1] < 128
            && forall i :: 0 <= i < n - 1 ==> bytes[i] >= 128
  {
    HeadLength(bytes);
    assert Head(bytes)[|Head(bytes)| - 1] == bytes[|Head(bytes)| - 1];
  }
}
