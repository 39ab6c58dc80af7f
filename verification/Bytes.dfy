/** Fixed-size fields of bytes in both byte orders. */
module Bytes {
  import opened Common

  function LittleEndian(bytes: seq<uint8>): nat {
    if bytes == [] then 0 else bytes[0] + 0x100 * LittleEndian(bytes[1..])
  }

  function BigEndian(bytes: seq<uint8>): nat {
    if bytes == [] then 0 else 0x100 * BigEndian(bytes[..|bytes| - 1]) + bytes[|bytes| - 1]
  }

  /** The bytes of a field that holds `v`. */
  function Field(v: nat, size: nat, big: bool): (r: seq<uint8>)
    ensures |r| == size
  {
    if size == 0 then []
    else if big then Field(v / 0x100, size - 1, big) + [v % 0x100]
    else [v % 0x100] + Field(v / 0x100, size - 1, big)
  }

  function Power(n: nat): nat {
    if n == 0 then 1 else 0x100 * Power(n - 1)
  }

  /** Reading inverts writing for every value that fits. */
  lemma {:induction false} FieldRead(v: nat, size: nat, big: bool)
    requires v < Power(size)
    ensures (if big then BigEndian(Field(v, size, big)) else LittleEndian(Field(v, size, big))) == v
  {
    if size > 0 {
      FieldRead(v / 0x100, size - 1, big);
      var f := Field(v, size, big);
      if big {
        assert f[..|f| - 1] == Field(v / 0x100, size - 1, big);
      } else {
        assert f[1..] == Field(v / 0x100, size - 1, big);
      }
    }
  }

  /** A field holds no more than its size allows. */
  lemma {:induction false} FieldBound(bytes: seq<uint8>)
    ensures LittleEndian(bytes) < Power(|bytes|) && BigEndian(bytes) < Power(|bytes|)
  {
    if bytes != [] {
      FieldBound(bytes[1..]);
      FieldBound(bytes[..|bytes| - 1]);
    }
  }

  lemma PowerIsLimit(size: nat)
    requires size in {1, 2, 4, 8}
    ensures Power(size) == FieldLimit(size)
  {
    assert Power(2) == 0x1_0000;
    assert Power(4) == 0x1_0000 * Power(2);
    assert Power(8) == 0x1_0000_0000 * Power(4) by { assert Power(6) == 0x1_0000 * Power(4); }
  }

  /** The number of values of a field. */
  function FieldLimit(size: nat): nat {
    match size
    case 1 => 0x100
    case 2 => 0x1_0000
    case 4 => 0x1_0000_0000
    case _ => TWO_TO_64
  }

  /** The signed reading of a field of `size` bytes. */
  function SignExtended(v: int, size: nat): int {
    match size
    case 1 => if v < 0x80 then v else v - 0x100
    case 2 => if v < 0x8000 then v else v - 0x1_0000
    case 4 => if v < 0x8000_0000 then v else v - 0x1_0000_0000
    case _ => if v <= OFF_MAX then v else v - TWO_TO_64
  }

  /** `part` stands at `pos` in the program. */
  ghost predicate Stands(bytes: seq<uint8>, pos: nat, part: seq<uint8>) {
    pos + |part| <= |bytes| && bytes[pos..pos + |part|] == part
  }

  lemma StandsParts(bytes: seq<uint8>, pos: nat, a: seq<uint8>, b: seq<uint8>)
    requires Stands(bytes, pos, a + b)
    ensures Stands(bytes, pos, a) && Stands(bytes, pos + |a|, b)
  {
    var s := bytes[pos..pos + |a + b|];
    assert s[..|a|] == a && s[|a|..] == b;
    assert bytes[pos..pos + |a|] == s[..|a|];
    assert bytes[pos + |a|..pos + |a| + |b|] == s[|a|..];
  }

  lemma StandsByte(bytes: seq<uint8>, pos: nat, b: uint8)
    requires Stands(bytes, pos, [b])
    ensures pos < |bytes| && bytes[pos] == b
  {
    assert bytes[pos..pos + 1][0] == b;
  }

  lemma StandsWithin(bytes: seq<uint8>, start: nat, part: seq<uint8>, pos: nat, inner: seq<uint8>)
    requires Stands(bytes, start, part) && Stands(part, pos, inner)
    ensures Stands(bytes, start + pos, inner)
  {
    forall k | 0 <= k < |inner| ensures bytes[start + pos + k] == inner[k] {
      assert bytes[start..start + |part|][pos + k] == part[pos + k];
      assert part[pos..pos + |inner|][k] == inner[k];
    }
  }
}
