/**
 * The LEB128 readers (DWARF 4 section 7.6) against the base-128 value of the bytes, and against the standard
 * encoders.
 */
module Leb128 {
  import opened Common

  datatype Read = Read(value: int, size: nat)

  function Pow2(n: nat): (p: nat)
    ensures p > 0
  {
    if n == 0 then 1 else 2 * Pow2(n - 1)
  }

  /** The base-128 value of the low seven bits of the bytes, least significant first. */
  function Base128(bytes: seq<uint8>): nat {
    if bytes == [] then 0 else bytes[0] % 0x80 + 0x80 * Base128(bytes[1..])
  }

  /** Its signed reading: bit 6 of the last byte is the sign. */
  function SignedBase128(bytes: seq<uint8>): int {
    if bytes != [] && bytes[|bytes| - 1] % 0x80 >= 0x40
    then Base128(bytes) - Pow2(7 * |bytes|)
    else Base128(bytes)
  }

  /** The position of the first byte that does not announce another one, or the length if there is none. */
  function Last(bytes: seq<uint8>): (n: nat)
    ensures n <= |bytes|
    ensures forall i :: 0 <= i < n ==> bytes[i] >= 0x80
    ensures n < |bytes| ==> bytes[n] < 0x80
  {
    if bytes == [] || bytes[0] < 0x80 then 0 else 1 + Last(bytes[1..])
  }

  /** The bytes of the encoding that `bytes` starts with, or why a 64-bit reader refuses it. */
  function Encoding(bytes: seq<uint8>): (r: Result<seq<uint8>>)
    ensures r.Ok? ==> 0 < |r.value| <= 10 && r.value <= bytes
  {
    var n := Last(bytes);
    if n < |bytes| && n < 10 then Ok(bytes[..n + 1])
    else if n >= 10 then Err(ENOTSUP)
    else Err(EINVAL)
  }

  function Unsigned(bytes: seq<uint8>): (r: Result<Read>)
    ensures r.Ok? ==> 0 <= r.value.value < TWO_TO_64
  {
    match Encoding(bytes)
    case Ok(e) => Ok(Read(Base128(e) % TWO_TO_64, |e|))
    case Err(error) => Err(error)
  }

  function Signed(bytes: seq<uint8>): Result<Read> {
    match Encoding(bytes)
    case Ok(e) => Ok(Read(ToSigned64(SignedBase128(e)), |e|))
    case Err(error) => Err(error)
  }

  /** ENOTSUP exactly when ten readable bytes all continue, EINVAL exactly when the range ends before the encoding. */
  lemma EncodingErrors(bytes: seq<uint8>)
    ensures Encoding(bytes) == Err(ENOTSUP) <==> |bytes| >= 10 && forall i :: 0 <= i < 10 ==> bytes[i] >= 0x80
    ensures Encoding(bytes) == Err(EINVAL) <==> |bytes| < 10 && forall i :: 0 <= i < |bytes| ==> bytes[i] >= 0x80
    ensures Encoding(bytes).Ok? <==> exists n :: 0 <= n < 10 && n < |bytes| && bytes[n] < 0x80
  {
    assert Last(bytes) < |bytes| ==> bytes[Last(bytes)] < 0x80;
  }

  lemma {:induction false} LastIs(bytes: seq<uint8>, n: nat)
    requires n <= |bytes| && (forall i :: 0 <= i < n ==> bytes[i] >= 0x80) && (n < |bytes| ==> bytes[n] < 0x80)
    ensures Last(bytes) == n
  {
  }

  /** Bitwise or of natural numbers. */
  function Or(a: nat, b: nat): nat
    decreases a + b
  {
    if a == 0 && b == 0 then 0 else (if a % 2 == 1 || b % 2 == 1 then 1 else 0) + 2 * Or(a / 2, b / 2)
  }

  lemma {:induction false} OrZero(b: nat)
    ensures Or(0, b) == b
  {
    if b > 0 {
      OrZero(b / 2);
    }
  }

  /** Or-ing in bits above the ones in use is addition. */
  lemma {:induction false} OrAbove(a: nat, b: nat, n: nat)
    requires a < Pow2(n)
    ensures Or(a, b * Pow2(n)) == a + b * Pow2(n)
  {
    if n == 0 {
      OrZero(b);
    } else {
      var c := b * Pow2(n - 1);
      assert b * Pow2(n) == 2 * c;
      OrAbove(a / 2, b, n - 1);
      assert (2 * c) % 2 == 0 && (2 * c) / 2 == c;
    }
  }

  lemma Pow2Next(n: nat)
    ensures Pow2(n + 1) == 2 * Pow2(n) && Pow2(0) == 1
  {
  }

  lemma TwiceProduct(a: nat, b: nat)
    ensures (2 * a) * b == 2 * (a * b)
  {
  }

  lemma {:induction false} Pow2Plus(m: nat, n: nat)
    ensures Pow2(m + n) == Pow2(m) * Pow2(n)
  {
    hide Pow2;
    Pow2Next(0);
    if m > 0 {
      Pow2Plus(m - 1, n);
      Pow2Next(m - 1);
      Pow2Next(m - 1 + n);
      TwiceProduct(Pow2(m - 1), Pow2(n));
      assert m + n == m - 1 + n + 1;
    }
  }

  lemma Pow2Is64()
    ensures Pow2(64) == TWO_TO_64 && Pow2(63) == OFF_MAX + 1 && Pow2(7) == 0x80
  {
    assert Pow2(7) == 0x80;
    assert Pow2(14) == 0x80 * 0x80 by { Pow2Plus(7, 7); }
    assert Pow2(28) == 0x1000_0000 by { Pow2Plus(14, 14); }
    assert Pow2(56) == 0x1000_0000 * 0x1000_0000 by { Pow2Plus(28, 28); }
    assert Pow2(63) == 0x1000_0000 * 0x1000_0000 * 0x80 by { Pow2Plus(56, 7); }
  }

  /** The weight of byte `n`. */
  function Weight(n: nat): (w: nat)
    ensures w > 0
  {
    Pow2(7 * n)
  }

  lemma WeightNext(n: nat)
    ensures Weight(n + 1) == 0x80 * Weight(n)
  {
    Pow2Is64();
    Pow2Plus(7, 7 * n);
  }

  lemma {:induction false} WeightGrows(m: nat, n: nat)
    requires m <= n
    ensures Weight(m) <= Weight(n)
    decreases n - m
  {
    if m < n {
      WeightNext(m);
      WeightGrows(m + 1, n);
    }
  }

  lemma Factor(x: nat, v: nat, w: nat)
    ensures 0x80 * (x + v * w) == 0x80 * x + v * (0x80 * w)
  {
  }

  /** Appending a byte adds its seven bits at the top. */
  lemma {:induction false} Base128Snoc(bytes: seq<uint8>, b: uint8)
    ensures Base128(bytes + [b]) == Base128(bytes) + b % 0x80 * Weight(|bytes|)
  {
    if bytes == [] {
      assert ([b])[1..] == [];
    } else {
      var t := bytes[1..];
      assert (bytes + [b])[1..] == t + [b];
      Base128Snoc(t, b);
      WeightNext(|t|);
      Factor(Base128(t), b % 0x80, Weight(|t|));
    }
  }

  lemma {:induction false} Base128Bound(bytes: seq<uint8>)
    ensures Base128(bytes) < Weight(|bytes|)
  {
    if bytes != [] {
      Base128Bound(bytes[1..]);
      WeightNext(|bytes| - 1);
    }
  }

  lemma ModMultiple(k: nat, r: nat)
    requires r < TWO_TO_64
    ensures (k * TWO_TO_64 + r) % TWO_TO_64 == r
  {
  }

  lemma AtMost(v: nat, w: nat)
    requires v < 0x80
    ensures v * w <= 0x7F * w
  {
  }

  /** The tenth byte has room for one bit only. */
  lemma TenthByte(a: nat, v: nat)
    requires a < OFF_MAX + 1 && v < 0x80
    ensures Or(a, v * (OFF_MAX + 1) % TWO_TO_64) == (a + v * (OFF_MAX + 1)) % TWO_TO_64
  {
    hide Or, Pow2;
    var top := OFF_MAX + 1;
    var high := v % 2 * top;
    assert v * top == v / 2 * TWO_TO_64 + high;
    assert high <= top;
    ModMultiple(v / 2, high);
    Pow2Is64();
    OrAbove(a, v % 2, 63);
    assert a + v * top == v / 2 * TWO_TO_64 + (a + high);
    ModMultiple(v / 2, a + high);
  }

  /** The seven bits of a byte, shifted to their place in 64 bits. */
  function Group(b: uint8, weight: nat): nat {
    b % 0x80 * weight % TWO_TO_64
  }

  /** One round of the loop: or-ing the shifted bits into 64 bits keeps the value modulo 2^64. */
  lemma OrRound(bytes: seq<uint8>, b: uint8)
    requires |bytes| <= 9
    ensures Base128(bytes) < TWO_TO_64
    ensures Or(Base128(bytes), Group(b, Weight(|bytes|))) == Base128(bytes + [b]) % TWO_TO_64
  {
    hide Or, Base128, Weight, Pow2;
    var n := |bytes|;
    Base128Snoc(bytes, b);
    Base128Bound(bytes);
    WeightAt9();
    WeightGrows(n, 9);
    if n == 9 {
      TenthByte(Base128(bytes), b % 0x80);
    } else {
      EarlierByte(Base128(bytes), b % 0x80, n);
    }
  }

  lemma EarlierByte(a: nat, v: nat, n: nat)
    requires n < 9 && a < Weight(n) && v < 0x80
    ensures a < TWO_TO_64 && Or(a, v * Weight(n) % TWO_TO_64) == (a + v * Weight(n)) % TWO_TO_64
  {
    hide Or, Weight, Pow2;
    WeightAt9();
    WeightNext(n);
    WeightGrows(n + 1, 9);
    AtMost(v, Weight(n));
    OrWeight(a, v, n);
    ModSmall(v * Weight(n));
    ModSmall(a + v * Weight(n));
  }

  lemma ModSmall(x: nat)
    requires x < TWO_TO_64
    ensures x % TWO_TO_64 == x
  {
  }

  lemma WeightAt9()
    ensures Weight(9) == OFF_MAX + 1
  {
    Pow2Is64();
  }

  lemma OrWeight(a: nat, v: nat, n: nat)
    requires a < Weight(n)
    ensures Or(a, v * Weight(n)) == a + v * Weight(n)
  {
    OrAbove(a, v, 7 * n);
  }

  /** The readable bytes from a position of a memory object on. */
  function From(mem: seq<uint8>, start: nat): seq<uint8> {
    if start <= |mem| then mem[start..] else []
  }

  /** What the loop finds of an encoding in the first `n` bytes. */
  lemma EncodingFound(bytes: seq<uint8>, n: nat)
    requires n <= 10 && n <= |bytes| && forall i :: 0 <= i < n - 1 ==> bytes[i] >= 0x80
    ensures n > 0 && bytes[n - 1] < 0x80 ==> Encoding(bytes) == Ok(bytes[..n])
    ensures n == 10 && bytes[n - 1] >= 0x80 ==> Encoding(bytes) == Err(ENOTSUP)
    ensures n < 10 && n == |bytes| && (n > 0 ==> bytes[n - 1] >= 0x80) ==> Encoding(bytes) == Err(EINVAL)
  {
    if n > 0 && bytes[n - 1] < 0x80 {
      LastIs(bytes, n - 1);
    } else if n == |bytes| {
      LastIs(bytes, |bytes|);
    } else if n == 10 {
      EncodingErrors(bytes);
    }
  }

  /** One round keeps the value of the groups, up to 64 bits. */
  lemma RoundOf(bytes: seq<uint8>, position: nat, last: uint8)
    requires position < |bytes| && position <= 9 && bytes[position] == last
    ensures
      var result := Or(Base128(bytes[..position]), Group(last, Pow2(7 * position)));
      && result == Base128(bytes[..position + 1]) % TWO_TO_64
      && (position < 9 ==> result == Base128(bytes[..position + 1]))
  {
    hide Or, Weight, Base128, Pow2, Group;
    OrRound(bytes[..position], last);
    WeightIsShift(position);
    assert bytes[..position + 1] == bytes[..position] + [last];
    if position < 9 {
      OrRound(bytes[..position + 1], 0);
      ModSmall(Base128(bytes[..position + 1]));
    }
  }

  /** The loop both readers share: or-s the seven-bit groups together. */
  method ReadGroups(mem: seq<uint8>, start: nat)
    returns (error: Option<Error>, result: nat, shift: nat, last: uint8, position: nat)
    ensures
      var e := Encoding(From(mem, start));
      if e.Err? then error == Some(e.error)
      else
        && error == None && result == Base128(e.value) % TWO_TO_64 && position == |e.value|
        && shift == 7 * |e.value| && last == e.value[|e.value| - 1]
  {
    hide Or, Weight, Base128, Pow2, Group, Encoding;
    ghost var bytes := From(mem, start);
    shift, position, result, last := 0, 0, 0, 0;
    Base128Empty();
    while start + position < |mem|
      invariant position <= |bytes| && position <= 9 && shift == 7 * position
      invariant forall i :: 0 <= i < position ==> bytes[i] >= 0x80
      invariant result == Base128(bytes[..position])
      decreases |bytes| - position
    {
      last := mem[start + position];
      assert last == bytes[position];
      RoundOf(bytes, position, last);
      result := Or(result, Group(last, Pow2(shift)));
      shift := shift + 7;
      position := position + 1;
      EncodingFound(bytes, position);
      if last < 0x80 {
        return None, result, shift, last, position;
      }
      if shift >= 64 {
        return Some(ENOTSUP), result, shift, last, position;
      }
    }
    EncodingFound(bytes, position);
    return Some(EINVAL), result, shift, last, position;
  }

  lemma Base128Empty()
    ensures Base128([]) == 0
  {
  }

  lemma WeightIsShift(n: nat)
    ensures Weight(n) == Pow2(7 * n)
  {
  }

  /** `plcrash_async_dwarf_read_uleb128`. */
  method ReadUleb128(mem: seq<uint8>, start: nat) returns (r: Result<Read>)
    ensures r == Unsigned(From(mem, start))
  {
    var error, result, shift, last, position := ReadGroups(mem, start);
    if error.Some? {
      return Err(error.value);
    }
    return Ok(Read(result, position));
  }

  /** `plcrash_async_dwarf_read_sleb128`: or-s the sign into the bits above the ones read, if there are any. */
  method ReadSleb128(mem: seq<uint8>, start: nat) returns (r: Result<Read>)
    ensures r == Signed(From(mem, start))
  {
    hide Or, Base128, Pow2;
    var error, result, shift, last, position := ReadGroups(mem, start);
    if error.Some? {
      return Err(error.value);
    }
    ghost var e := Encoding(From(mem, start)).value;
    SignBits(e);
    if shift < 64 && last % 0x80 >= 0x40 {
      result := Or(result, TWO_TO_64 - Pow2(shift));
    }
    return Ok(Read(ToSigned64(result), position));
  }

  lemma SameResidue(a: int, b: int, k: int)
    requires a == b + k * TWO_TO_64
    ensures ToSigned64(a) == ToSigned64(b)
  {
    assert a % TWO_TO_64 == b % TWO_TO_64;
  }

  /** Or-ing the bits above weight `w` in, where 2^64 is `k` times `w`. */
  lemma SignOr(b: nat, n: nat, w: nat, k: nat)
    requires w == Pow2(n) && b < w && k > 0 && k * w == TWO_TO_64
    ensures w <= TWO_TO_64 && Or(b, TWO_TO_64 - w) == b + TWO_TO_64 - w
  {
    hide Or, Pow2;
    assert (k - 1) * w == TWO_TO_64 - w;
    OrAbove(b, k - 1, n);
  }

  lemma SmallWeight(n: nat)
    requires n < 10
    ensures Weight(n) < TWO_TO_64 && Pow2(64 - 7 * n) * Weight(n) == TWO_TO_64
  {
    hide Pow2;
    WeightAt9();
    WeightGrows(n, 9);
    WeightIsShift(n);
    Pow2Is64();
    Pow2Plus(64 - 7 * n, 7 * n);
  }

  /** The sign bits that the reader or-s in. */
  lemma SignBits(e: seq<uint8>)
    requires 0 < |e| <= 10
    ensures |e| < 10 ==> Pow2(7 * |e|) < TWO_TO_64
    ensures
      var u := Base128(e) % TWO_TO_64;
      ToSigned64(SignedBase128(e)) ==
        if |e| < 10 && e[|e| - 1] % 0x80 >= 0x40 then ToSigned64(Or(u, TWO_TO_64 - Pow2(7 * |e|))) else ToSigned64(u)
  {
    hide Or, Base128, Pow2, Weight, ToSigned64;
    var n := |e|;
    var b := Base128(e);
    Base128Bound(e);
    WeightIsShift(n);
    if n < 10 {
      SmallWeight(n);
      SignOr(b, 7 * n, Weight(n), Pow2(64 - 7 * n));
      SameResidue(b + TWO_TO_64 - Weight(n), b - Weight(n), 1);
    } else {
      TenBytes(e);
    }
    SameResidue(b, b % TWO_TO_64, b / TWO_TO_64);
  }

  lemma TenBytes(e: seq<uint8>)
    requires |e| == 10
    ensures ToSigned64(SignedBase128(e)) == ToSigned64(Base128(e))
  {
    hide Base128, Pow2, ToSigned64;
    Pow2Is64();
    Pow2Is6();
    Pow2Plus(64, 6);
    SameResidue(Base128(e), Base128(e) - Pow2(70), 64);
  }

  lemma Pow2Is6()
    ensures Pow2(6) == 64
  {
  }

  /** The two readings of one encoding: equal unless the signed one is negative, and then further apart than 32 bits. */
  lemma TwoReadings(e: seq<uint8>)
    requires 0 < |e| <= 10
    ensures
      var u, s := Base128(e) % TWO_TO_64, ToSigned64(SignedBase128(e));
      && (s >= 0 ==> s == u)
      && (s < 0 ==> u >= 0x8000_0000 || s >= -0x8000_0000)
      && (s < 0 <==> if |e| < 10 then e[|e| - 1] % 0x80 >= 0x40 else u > OFF_MAX)
  {
    hide Base128, Pow2, Weight, ToSigned64;
    var n, b := |e|, Base128(e);
    Base128Bound(e);
    WeightIsShift(n);
    WeightAt9();
    if n == 10 {
      TenBytes(e);
      SignedOf(b);
    } else {
      WeightGrows(n, 9);
      SignedOf(b);
      SignedOf(b - Weight(n));
      if n >= 5 {
        HighGroup(e);
        WeightGrows(4, n - 1);
        WeightAt4();
      } else {
        WeightGrows(n, 4);
        WeightAt4();
      }
    }
  }

  function SignedGroup(b: uint8): int {
    if b < 0x40 then b else b - 0x80
  }

  lemma ReadOneGroup(bytes: seq<uint8>)
    requires bytes != [] && bytes[0] < 0x80
    ensures Unsigned(bytes) == Ok(Read(bytes[0], 1)) && Signed(bytes) == Ok(Read(SignedGroup(bytes[0]), 1))
  {
    hide Pow2;
    var e := bytes[..1];
    assert e[1..] == [];
    Base128Empty();
    assert Base128(e) == bytes[0];
    Pow2Is64();
    assert Encoding(bytes) == Ok(e);
    SignedOf(SignedBase128(e));
  }

  lemma SignedOf(x: int)
    ensures ToSigned64(x) == if x % TWO_TO_64 <= OFF_MAX then x % TWO_TO_64 else x % TWO_TO_64 - TWO_TO_64
    ensures -OFF_MAX - 1 <= x <= OFF_MAX ==> ToSigned64(x) == x
  {
  }

  lemma WeightAt4()
    ensures Weight(4) == 0x1000_0000
  {
    WeightOne();
    WeightNext(1);
    WeightNext(2);
    WeightNext(3);
  }

  lemma HighGroup(e: seq<uint8>)
    requires e != []
    ensures e[|e| - 1] % 0x80 >= 0x40 ==> Base128(e) >= 0x40 * Weight(|e| - 1)
  {
    hide Base128, Weight;
    var n := |e| - 1;
    assert e == e[..n] + [e[n]];
    Base128Snoc(e[..n], e[n]);
    if e[n] % 0x80 >= 0x40 {
      TimesAtLeast(0x40, e[n] % 0x80, Weight(n));
    }
  }

  lemma TimesAtLeast(a: nat, b: nat, w: nat)
    requires a <= b
    ensures a * w <= b * w
  {
  }

  /** The standard encoders of DWARF 4, appendix C. */
  function EncodeUnsigned(v: nat): (e: seq<uint8>)
    ensures e != []
  {
    if v < 0x80 then [v] else [v % 0x80 + 0x80] + EncodeUnsigned(v / 0x80)
  }

  function EncodeSigned(v: int): (e: seq<uint8>)
    ensures e != []
    decreases if v < 0 then -v else v
  {
    if -0x40 <= v < 0x40 then [v % 0x80] else [v % 0x80 + 0x80] + EncodeSigned(v / 0x80)
  }

  /** An encoding announces its end, and nothing after it matters. */
  lemma {:induction false} EncodedUnsigned(v: nat, n: nat, tail: seq<uint8>)
    requires n > 0 && v < Weight(n)
    ensures
      var e := EncodeUnsigned(v);
      |e| <= n && Last(e + tail) == |e| - 1 && Base128(e) == v
    decreases n
  {
    var e := EncodeUnsigned(v);
    WeightOne();
    if v >= 0x80 {
      var rest := EncodeUnsigned(v / 0x80);
      assert n > 1;
      WeightNext(n - 1);
      EncodedUnsigned(v / 0x80, n - 1, tail);
      assert (e + tail)[1..] == rest + tail;
      assert e[1..] == rest;
    } else {
      assert e[1..] == [];
    }
  }

  lemma SignedCons(b: uint8, rest: seq<uint8>)
    requires rest != []
    ensures SignedBase128([b] + rest) == b % 0x80 + 0x80 * SignedBase128(rest)
  {
    hide Pow2;
    var e := [b] + rest;
    assert e[1..] == rest && e[|e| - 1] == rest[|rest| - 1];
    WeightNext(|rest|);
    WeightIsShift(|e|);
    WeightIsShift(|rest|);
  }

  /** A number of `n` groups that needs more than one leaves one of `n - 1` groups. */
  lemma SignedRest(v: int, n: nat, w: nat)
    requires 0 <= 2 * v + 0x80 * w < 2 * (0x80 * w) && w % 2 == 0
    ensures 0 <= 2 * (v / 0x80) + w < 2 * w
    ensures v % 0x80 + 0x80 * (v / 0x80) == v
  {
  }

  lemma SignedGroups(v: int, n: nat)
    requires n > 0 && 0 <= 2 * v + Weight(n) < 2 * Weight(n) && !(-0x40 <= v < 0x40)
    ensures n >= 2 && 0 <= 2 * (v / 0x80) + Weight(n - 1) < 2 * Weight(n - 1)
    ensures v % 0x80 + 0x80 * (v / 0x80) == v
  {
    hide Weight;
    WeightOne();
    if n >= 2 {
      WeightNext(n - 1);
      WeightNext(n - 2);
      SignedRest(v, n, Weight(n - 1));
    }
  }

  lemma {:induction false} EncodedSigned(v: int, n: nat, tail: seq<uint8>)
    requires n > 0 && 0 <= 2 * v + Weight(n) < 2 * Weight(n)
    ensures
      var e := EncodeSigned(v);
      |e| <= n && Last(e + tail) == |e| - 1 && SignedBase128(e) == v
    decreases n
  {
    hide Pow2, SignedBase128, Weight;
    var e := EncodeSigned(v);
    if -0x40 <= v < 0x40 {
      SignedByte(v);
    } else {
      var rest := EncodeSigned(v / 0x80);
      SignedGroups(v, n);
      EncodedSigned(v / 0x80, n - 1, tail);
      MoreGroups(v % 0x80 + 0x80, rest, tail);
      SignedCons(v % 0x80 + 0x80, rest);
    }
  }

  lemma MoreGroups(b: uint8, rest: seq<uint8>, tail: seq<uint8>)
    requires b >= 0x80 && Last(rest + tail) == |rest| - 1
    ensures Last([b] + rest + tail) == |rest|
  {
    assert ([b] + rest + tail)[1..] == rest + tail;
  }

  lemma SignedByte(v: int)
    requires -0x40 <= v < 0x40
    ensures SignedBase128([v % 0x80]) == v
  {
    var e: seq<uint8> := [v % 0x80];
    OneGroup(v % 0x80);
    Pow2Is64();
    assert e[0] % 0x80 == if v < 0 then v + 0x80 else v;
  }

  lemma OneGroup(b: uint8)
    ensures Base128([b]) == b % 0x80
  {
    assert [b][1..] == [];
  }

  lemma WeightOne()
    ensures Weight(0) == 1 && Weight(1) == 0x80
  {
    WeightNext(0);
  }

  /** Reading inverts the standard encoders on every 64-bit value, whatever follows the encoding. */
  lemma EncodingOf(e: seq<uint8>, tail: seq<uint8>)
    requires 0 < |e| <= 10 && Last(e + tail) == |e| - 1
    ensures Encoding(e + tail) == Ok(e)
  {
    assert (e + tail)[..|e|] == e;
  }

  lemma UnsignedRoundTrip(v: nat, tail: seq<uint8>)
    requires v < TWO_TO_64
    ensures Unsigned(EncodeUnsigned(v) + tail) == Ok(Read(v, |EncodeUnsigned(v)|))
  {
    hide Weight, Base128, Encoding, Last, EncodeUnsigned;
    WeightAt9();
    WeightNext(9);
    EncodedUnsigned(v, 10, tail);
    EncodingOf(EncodeUnsigned(v), tail);
    ModSmall(v);
  }

  lemma SignedRoundTrip(v: int, tail: seq<uint8>)
    requires -OFF_MAX - 1 <= v <= OFF_MAX
    ensures Signed(EncodeSigned(v) + tail) == Ok(Read(v, |EncodeSigned(v)|))
  {
    hide Weight, Base128, SignedBase128, Encoding, Last, EncodeSigned, ToSigned64;
    WeightAt9();
    WeightNext(9);
    EncodedSigned(v, 10, tail);
    EncodingOf(EncodeSigned(v), tail);
    SignedIsItself(v);
  }

  lemma SignedIsItself(v: int)
    requires -OFF_MAX - 1 <= v <= OFF_MAX
    ensures ToSigned64(v) == v
  {
  }
}
