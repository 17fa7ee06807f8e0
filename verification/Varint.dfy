/**
 Base 128 varints: the writer and the readers of the library, step by step, against their meaning.
 */
module Varint {
  import opened Bits
  import opened Framing
  import opened Options

  const TWO32: nat := 0x1_0000_0000

  /** The bytes of a number: seven bits each, low ones first, with a flag on all but the last. */
  function Encode(value: nat): (bytes: seq<Byte>)
    ensures |bytes| >= 1
  {
    if value < 128 then [value] else [value % 128 + 128] + Encode(value / 128)
  }

  /** The number at the front of `s`, of at most `limit` bytes, and how many bytes it takes. */
  function Decode(s: seq<Byte>, limit: nat): (r: Option<(nat, nat)>)
    ensures r.Some? ==> 0 < r.value.1 <= |s| && r.value.1 <= limit
  {
    if |s| == 0 || limit == 0 then None
    else if s[0] < 128 then Some((s[0], 1))
    else
      match Decode(s[1..], limit - 1)
      case None => None
      case Some((value, n)) => Some((s[0] - 128 + 128 * value, n + 1))
  }

  /** Read into 32 bits. */
  function Decode32(s: seq<Byte>, limit: nat): (r: Option<(nat, nat)>)
    ensures r.Some? ==> 0 < r.value.1 <= |s| && r.value.0 < TWO32
  {
    match Decode(s, limit)
    case None => None
    case Some((value, n)) => Some((value % TWO32, n))
  }

  lemma {:induction false} DecodeEncode(value: nat, more: seq<Byte>, limit: nat)
    requires |Encode(value)| <= limit
    ensures Decode(Encode(value) + more, limit) == Some((value, |Encode(value)|))
  {
    if value >= 128 {
      var s := Encode(value) + more;
      assert s[1..] == Encode(value / 128) + more;
      DecodeEncode(value / 128, more, limit - 1);
    }
  }

  lemma Decode32Encode(value: nat, more: seq<Byte>, limit: nat)
    requires value < TWO32 && |Encode(value)| <= limit
    ensures Decode32(Encode(value) + more, limit) == Some((value, |Encode(value)|))
  {
    DecodeEncode(value, more, limit);
  }

  // ----- Sizes ----------------------------------------------------------------------------------

  /** value | 0x1 */
  function OrOne(value: nat): (r: nat)
    ensures r >= 1
  {
    if value % 2 == 0 then value + 1 else value
  }

  /** CodedOutputStream::VarintSize32. */
  function VarintSize32(value: nat): nat { (Log2Floor(OrOne(value)) * 9 + 73) / 64 }

  /** CodedOutputStream::VarintSize32PlusOne. */
  function VarintSize32PlusOne(value: nat): nat { (Log2Floor(OrOne(value)) * 9 + 73 + 64) / 64 }

  lemma Log2OfOrOne(value: nat)
    requires value >= 1
    ensures Log2Floor(OrOne(value)) == Log2Floor(value)
  {
    Log2Is(OrOne(value), Log2Floor(value));
  }

  lemma Log2Of128th(value: nat)
    requires value >= 128
    ensures Log2Floor(value) == Log2Floor(value / 128) + 7
  {
    var k := Log2Floor(value / 128);
    assert Pow2(k + 7) == 128 * Pow2(k) by {
      assert Pow2(k + 1) == 2 * Pow2(k) && Pow2(k + 2) == 4 * Pow2(k) && Pow2(k + 3) == 8 * Pow2(k);
      assert Pow2(k + 4) == 16 * Pow2(k) && Pow2(k + 5) == 32 * Pow2(k) && Pow2(k + 6) == 64 * Pow2(k);
    }
    Log2Is(value, k + 7);
  }

  lemma {:induction false} EncodeLength(value: nat)
    requires value >= 1
    ensures |Encode(value)| == Log2Floor(value) / 7 + 1
  {
    if value < 128 {
      assert Pow2(0) == 1 && Pow2(1) == 2 && Pow2(2) == 4 && Pow2(3) == 8 && Pow2(4) == 16 && Pow2(5) == 32;
      assert Pow2(6) == 64 && Pow2(7) == 128;
      if Log2Floor(value) >= 7 {
        Pow2Monotone(7, Log2Floor(value));
      }
    } else {
      EncodeLength(value / 128);
      Log2Of128th(value);
    }
  }

  lemma Log2Below32(value: nat)
    requires 1 <= value < TWO32
    ensures Log2Floor(value) <= 31
  {
    Pow2Of32();
    if Log2Floor(value) >= 32 {
      Pow2Monotone(32, Log2Floor(value));
    }
  }

  lemma Pow2Of32()
    ensures Pow2(32) == TWO32
  {
    assert Pow2(1) == 2 && Pow2(2) == 4 && Pow2(3) == 8 && Pow2(4) == 16;
    Pow2Adds(4, 4);
    Pow2Adds(8, 8);
    Pow2Adds(16, 16);
  }

  /** The multiplication that stands for a division by seven gives the number of bytes written. */
  lemma SizeIsLength(value: nat)
    requires value < TWO32
    ensures VarintSize32(value) == |Encode(value)| <= 5
    ensures VarintSize32PlusOne(value) == |Encode(value)| + 1
  {
    if value == 0 {
      Log2Is(1, 0);
    } else {
      EncodeLength(value);
      Log2OfOrOne(value);
      Log2Below32(value);
    }
  }

  // ----- The writer -----------------------------------------------------------------------------

  /** static_cast<uint8_t> */
  function LowByte(v: nat): Byte { v % 256 }

  /** byte | 0x80 */
  function Flagged(byte: Byte): Byte { byte % 128 + 128 }

  lemma FlaggedLowByte(v: nat)
    ensures Flagged(LowByte(v)) == v % 128 + 128
  {
    var q, low := v / 256, v % 256;
    assert v == 128 * (2 * q) + low;
  }

  /** A byte written, and then flagged because more follow. */
  lemma EncodeMore(done: seq<Byte>, v: nat)
    requires v >= 128
    ensures done + Encode(v) == done + [Flagged(LowByte(v))] + Encode(v / 128)
  {
    FlaggedLowByte(v);
    assert Encode(v) == [Flagged(LowByte(v))] + Encode(v / 128);
  }

  lemma EncodeLast(v: nat)
    requires v < 128
    ensures Encode(v) == [LowByte(v)]
  {
  }

  /** EpsCopyOutputStream::UnsafeVarint, on the bytes from its pointer on: each flag is set when the
      next byte turns out to be needed. */
  method UnsafeVarint(value: nat) returns (bytes: seq<Byte>)
    ensures bytes == Encode(value)
  {
    bytes := [LowByte(value)];
    if value < 0x80 {
      EncodeLast(value);
      return;
    }
    EncodeMore([], value);
    bytes := bytes[0 := Flagged(bytes[0])];
    var v: nat := value / 128;
    ghost var done := bytes;
    assert Encode(value) == done + Encode(v);
    bytes := bytes + [LowByte(v)];
    if v < 0x80 {
      EncodeLast(v);
      return;
    }
    while v >= 0x80
      invariant bytes == done + [LowByte(v)]
      invariant Encode(value) == done + Encode(v)
    {
      var last := |bytes| - 1;
      EncodeMore(done, v);
      bytes := bytes[last := Flagged(bytes[last])];
      done := bytes;
      v := v / 128;
      bytes := bytes + [LowByte(v)];
    }
    EncodeLast(v);
  }

  /** EpsCopyOutputStream::UnsafeWriteSize: the flag is set as the byte is written. */
  method UnsafeWriteSize(value: nat) returns (bytes: seq<Byte>)
    ensures bytes == Encode(value)
  {
    var v := value;
    bytes := [];
    while v >= 0x80
      invariant Encode(value) == bytes + Encode(v)
    {
      EncodeMore(bytes, v);
      bytes := bytes + [Flagged(LowByte(v))];
      v := v / 128;
    }
    EncodeLast(v);
    bytes := bytes + [LowByte(v)];
  }

  // ----- The readers ----------------------------------------------------------------------------

  function Pow128(i: nat): (p: nat)
    ensures p > 0
  {
    if i == 0 then 1 else 128 * Pow128(i - 1)
  }

  /** The low seven bits of the first i bytes. */
  function LowBits(s: seq<Byte>, i: nat): nat
    requires i <= |s|
  {
    if i == 0 then 0 else LowBits(s, i - 1) + (s[i - 1] % 128) * Pow128(i - 1)
  }

  predicate Continues(s: seq<Byte>, i: nat)
    requires i < |s|
  {
    s[i] >= 128
  }

  lemma {:induction false} LowBitsTail(s: seq<Byte>, i: nat)
    requires 0 < i <= |s|
    ensures LowBits(s, i) == s[0] % 128 + 128 * LowBits(s[1..], i - 1)
  {
    if i == 1 {
      assert LowBits(s, 0) == 0 && Pow128(0) == 1;
    } else {
      LowBitsTail(s, i - 1);
      var low := s[i - 1] % 128;
      assert s[1..][i - 2] == s[i - 1];
      assert Pow128(i - 1) == 128 * Pow128(i - 2);
      assert low * (128 * Pow128(i - 2)) == 128 * (low * Pow128(i - 2));
    }
  }

  /** A number ends at its first byte without the flag. */
  lemma {:induction false} DecodeAt(s: seq<Byte>, i: nat, limit: nat)
    requires i < |s| && i < limit && !Continues(s, i) && forall j | 0 <= j < i :: Continues(s, j)
    ensures Decode(s, limit) == Some((LowBits(s, i + 1), i + 1))
  {
    LowBitsTail(s, i + 1);
    if i > 0 {
      assert Continues(s, 0);
      forall j | 0 <= j < i - 1 ensures Continues(s[1..], j) {
        assert Continues(s, j + 1);
      }
      assert !Continues(s[1..], i - 1);
      DecodeAt(s[1..], i - 1, limit - 1);
    } else {
      assert LowBits(s[1..], 0) == 0;
    }
  }

  lemma {:induction false} DecodeNone(s: seq<Byte>, limit: nat)
    requires forall j | 0 <= j < limit && j < |s| :: Continues(s, j)
    ensures Decode(s, limit) == None
  {
    if |s| > 0 && limit > 0 {
      assert Continues(s, 0);
      forall j | 0 <= j < limit - 1 && j < |s[1..]| ensures Continues(s[1..], j) {
        assert Continues(s, j + 1);
      }
      DecodeNone(s[1..], limit - 1);
    }
  }

  /** What is written: the number in groups of seven bits, with the flag on all bytes but the last. */
  lemma {:induction false} EncodeIs(value: nat)
    ensures var s := Encode(value); var n := |s|;
            && LowBits(s, n) == value
            && (forall j | 0 <= j < n - 1 :: Continues(s, j))
            && !Continues(s, n - 1)
            && (n > 1 ==> s[n - 1] > 0)
  {
    var s := Encode(value);
    LowBitsTail(s, |s|);
    if value < 128 {
      assert LowBits(s[1..], 0) == 0;
    } else {
      EncodeIs(value / 128);
      assert s[1..] == Encode(value / 128);
      forall j | 0 < j < |s| - 1 ensures Continues(s, j) {
        assert Continues(s[1..], j - 1);
      }
      assert !Continues(s[1..], |s| - 2);
    }
  }

  /** For instance. */
  lemma EncodeExamples()
    ensures Encode(0) == [0] && Encode(127) == [127] && Encode(128) == [128, 1] && Encode(300) == [172, 2]
    ensures Encode(0xFFFF_FFFF) == [255, 255, 255, 255, 15]
  {
    assert Encode(0xF) == [15] && Encode(0x7FF) == [255, 15] && Encode(0x3_FFFF) == [255, 255, 15];
    assert Encode(0x1FF_FFFF) == [255, 255, 255, 15];
  }

  /** res += (byte - 1) << (7 * i), in 32 bits. */
  function AddByte(res: nat, byte: int, i: nat): nat { (res + (byte - 1) * Pow128(i)) % TWO32 }

  /** The flags of the bytes before, added with them, are what byte - 1 takes away. */
  lemma AddByteIs(s: seq<Byte>, i: nat, res: nat)
    requires 0 < i < |s| && res == (LowBits(s, i) + Pow128(i)) % TWO32
    ensures AddByte(res, s[i], i) ==
            (LowBits(s, i + 1) + if Continues(s, i) then Pow128(i + 1) else 0) % TWO32
  {
    var b: int, p := s[i], Pow128(i);
    AddModulo(LowBits(s, i) + p, (b - 1) * p);
    TakeAwayFlag(b, p);
  }

  lemma TakeAwayFlag(b: int, p: nat)
    requires 0 <= b < 256
    ensures p + (b - 1) * p == (b % 128) * p + if b >= 128 then 128 * p else 0
  {
    var low := b % 128;
    if b >= 128 {
      assert b == low + 128;
      assert (low + 128) * p == low * p + 128 * p;
    } else {
      assert b == low;
    }
  }

  lemma AddModulo(a: nat, b: int)
    ensures (a % TWO32 + b) % TWO32 == (a + b) % TWO32
  {
    var q := a / TWO32;
    assert a == q * TWO32 + a % TWO32;
    ModuloOfMultiple(a % TWO32 + b, q);
  }

  lemma ModuloOfMultiple(x: int, q: nat)
    ensures (x + q * TWO32) % TWO32 == x % TWO32
  {
    var y, r := x / TWO32, x % TWO32;
    assert x + q * TWO32 == (y + q) * TWO32 + r;
    ModuloUnique(x + q * TWO32, y + q, r);
  }

  lemma ModuloUnique(x: int, q: int, r: int)
    requires x == q * TWO32 + r && 0 <= r < TWO32
    ensures x % TWO32 == r
  {
  }

  /** Bytes from the sixth on lie above the 32 bits. */
  lemma HighBytesVanish(s: seq<Byte>, i: nat)
    requires 5 <= i < |s|
    ensures LowBits(s, i + 1) % TWO32 == LowBits(s, i) % TWO32
  {
    var k := Pow128Multiple(i);
    var low: nat := s[i] % 128;
    assert low * (k * TWO32) == (low * k) * TWO32;
    ModuloOfMultiple(LowBits(s, i), low * k);
  }

  lemma {:induction false} Pow128Multiple(i: nat) returns (k: nat)
    requires i >= 5
    ensures Pow128(i) == k * TWO32
  {
    if i == 5 {
      assert Pow128(1) == 128 && Pow128(2) == 16384 && Pow128(3) == 2097152 && Pow128(4) == 268435456;
      k := 8;
    } else {
      var j := Pow128Multiple(i - 1);
      k := 128 * j;
    }
  }

  /** VarintParse for 32-bit numbers, with its slow path: the value wraps to 32 bits. */
  method VarintParse(s: seq<Byte>) returns (r: Option<(nat, nat)>)
    ensures r == Decode32(s, 10)
  {
    if |s| == 0 {
      return None;
    }
    var res: nat := s[0];
    if res < 0x80 {
      return Some((res, 1));
    }
    assert Pow128(0) == 1 && Pow128(1) == 128 && LowBits(s, 1) == s[0] % 128 + LowBits(s, 0);
    assert Continues(s, 0);
    for i := 1 to 5
      invariant forall j | 0 <= j < i && j < |s| :: Continues(s, j)
      invariant i <= |s| && res == (LowBits(s, i) + Pow128(i)) % TWO32
    {
      if i == |s| {
        DecodeNone(s, 10);
        return None;
      }
      AddByteIs(s, i, res);
      res := AddByte(res, s[i], i);
      if s[i] < 128 {
        DecodeAt(s, i, 10);
        return Some((res, i + 1));
      }
    }
    ghost var k := Pow128Multiple(5);
    ModuloOfMultiple(LowBits(s, 5), k);
    for i := 5 to 10
      invariant forall j | 0 <= j < i && j < |s| :: Continues(s, j)
      invariant i <= |s| && res == LowBits(s, i) % TWO32
    {
      if i == |s| {
        DecodeNone(s, 10);
        return None;
      }
      HighBytesVanish(s, i);
      if s[i] < 128 {
        DecodeAt(s, i, 10);
        return Some((res, i + 1));
      }
    }
    DecodeNone(s, 10);
    return None;
  }

  /** ReadTag: at most five bytes. */
  method ReadTag(s: seq<Byte>) returns (r: Option<(nat, nat)>)
    ensures r == Decode32(s, 5)
  {
    if |s| == 0 {
      return None;
    }
    var res: nat := s[0];
    if res < 128 {
      return Some((res, 1));
    }
    assert Pow128(0) == 1 && Pow128(1) == 128 && LowBits(s, 1) == s[0] % 128 + LowBits(s, 0);
    assert Continues(s, 0);
    for i := 1 to 5
      invariant forall j | 0 <= j < i && j < |s| :: Continues(s, j)
      invariant i <= |s| && res == (LowBits(s, i) + Pow128(i)) % TWO32
    {
      if i == |s| {
        DecodeNone(s, 5);
        return None;
      }
      AddByteIs(s, i, res);
      res := AddByte(res, s[i], i);
      if s[i] < 128 {
        DecodeAt(s, i, 5);
        return Some((res, i + 1));
      }
    }
    DecodeNone(s, 5);
    return None;
  }

  const SLOP_BYTES := 16
  const INT_MAX := 0x7FFF_FFFF

  /** The sizes that ReadSize takes: at most five bytes, below two gigabytes, and not close to INT_MAX
      when they take all five. */
  function DecodeSize(s: seq<Byte>): Option<(nat, nat)> {
    match Decode(s, 5)
    case None => None
    case Some((value, n)) => if n == 5 && (s[4] >= 8 || value > INT_MAX - SLOP_BYTES) then None else Some((value, n))
  }

  /** A written size is taken exactly when it is at most 2147483631. */
  lemma DecodeSizeExactly(size: nat, more: seq<Byte>)
    requires size < TWO32
    ensures var n: nat := |Encode(size)|;
            DecodeSize(Encode(size) + more) == if size <= 2147483631 then Some((size, n)) else None
  {
    var s, n := Encode(size), |Encode(size)|;
    SizeIsLength(size);
    DecodeEncode(size, more, 5);
    EncodeIs(size);
    LowBitsSmall(s, n);
    if n < 5 {
      Pow128Below(n);
    } else {
      Pow128Below(4);
      assert (s + more)[4] == s[4];
      if size < 0x8000_0000 {
        FifthByte(s, size);
      }
    }
  }

  lemma FifthByte(s: seq<Byte>, size: nat)
    requires |s| == 5 && LowBits(s, 5) == size < 0x8000_0000 && s[4] < 128
    ensures s[4] < 8
  {
    assert Pow128(0) == 1 && Pow128(1) == 128 && Pow128(2) == 16384 && Pow128(3) == 2097152 && Pow128(4) == 268435456;
    var last: nat := s[4];
    assert LowBits(s, 5) == LowBits(s, 4) + last * 268435456;
  }

  method ReadSize(s: seq<Byte>) returns (r: Option<(nat, nat)>)
    ensures r == DecodeSize(s)
  {
    if |s| == 0 {
      return None;
    }
    var res: nat := s[0];
    if res < 128 {
      return Some((res, 1));
    }
    assert Pow128(0) == 1 && Pow128(1) == 128 && LowBits(s, 1) == s[0] % 128 + LowBits(s, 0);
    assert Continues(s, 0);
    for i := 1 to 4
      invariant forall j | 0 <= j < i && j < |s| :: Continues(s, j)
      invariant i <= |s| && res == (LowBits(s, i) + Pow128(i)) % TWO32
    {
      if i == |s| {
        DecodeNone(s, 5);
        return None;
      }
      AddByteIs(s, i, res);
      res := AddByte(res, s[i], i);
      if s[i] < 128 {
        DecodeAt(s, i, 5);
        LowBitsBelow(s, i + 1);
        return Some((res, i + 1));
      }
    }
    if |s| == 4 {
      DecodeNone(s, 5);
      return None;
    }
    r := ReadFifth(s, res);
  }

  /** The last byte of a size, after four with flags. */
  method ReadFifth(s: seq<Byte>, res: nat) returns (r: Option<(nat, nat)>)
    requires |s| >= 5 && (forall j | 0 <= j < 4 :: Continues(s, j)) && res == (LowBits(s, 4) + Pow128(4)) % TWO32
    ensures r == DecodeSize(s)
  {
    if s[4] >= 8 {
      if s[4] >= 128 {
        assert Continues(s, 4);
        DecodeNone(s, 5);
      } else {
        DecodeAt(s, 4, 5);
      }
      return None;
    }
    AddByteIs(s, 4, res);
    DecodeAt(s, 4, 5);
    LowBitsBelow(s, 5);
    var size := AddByte(res, s[4], 4);
    r := if size > INT_MAX - SLOP_BYTES then None else Some((size, 5));
  }

  /** Up to four bytes, or five with a small last one, do not wrap. */
  lemma LowBitsBelow(s: seq<Byte>, i: nat)
    requires i <= |s| && (i <= 4 || (i == 5 && s[4] < 8))
    ensures LowBits(s, i) < TWO32
    ensures LowBits(s, i) % TWO32 == LowBits(s, i)
  {
    if i == 5 {
      LowBitsSmall(s, 4);
      Pow128Below(4);
      TimesMonotone(s[4] % 128, 7, Pow128(4));
    } else {
      LowBitsSmall(s, i);
      Pow128Below(i);
    }
  }

  lemma Pow128Below(i: nat)
    requires i <= 4
    ensures Pow128(i) <= 268435456
  {
    assert Pow128(0) == 1 && Pow128(1) == 128 && Pow128(2) == 16384 && Pow128(3) == 2097152 && Pow128(4) == 268435456;
  }

  lemma {:induction false} LowBitsSmall(s: seq<Byte>, i: nat)
    requires i <= |s|
    ensures LowBits(s, i) < Pow128(i)
  {
    if i > 0 {
      LowBitsSmall(s, i - 1);
      var low: nat := s[i - 1] % 128;
      TimesMonotone(low, 127, Pow128(i - 1));
    }
  }

  lemma TimesMonotone(a: nat, b: nat, p: nat)
    requires a <= b
    ensures a * p <= b * p
  {
  }
}
