/** `dwarf_opstream`: a cursor over the opcode bytes inside a memory object. */
module OpStreamClass {
  import opened Bytes
  import opened Common
  import opened Leb128

  datatype Operand = Operand(value: int, next: nat)

  /** A fixed-size unsigned value at a position, and the position behind it. */
  function UintAt(bytes: seq<uint8>, pos: nat, size: nat, big: bool): (r: Option<Operand>)
    ensures r.Some? ==> pos + size == r.value.next <= |bytes| && r.value.value >= 0
  {
    if pos + size <= |bytes| then
      var field := bytes[pos..pos + size];
      Some(Operand(if big then BigEndian(field) else LittleEndian(field), pos + size))
    else None
  }

  function LebAt(r: Result<Read>, pos: nat): Option<Operand> {
    if r.Ok? then Some(Operand(r.value.value, pos + r.value.size)) else None
  }

  function UlebAt(bytes: seq<uint8>, pos: nat): (r: Option<Operand>)
    ensures r.Some? ==> pos < r.value.next <= |bytes| && 0 <= r.value.value < TWO_TO_64
  {
    if pos <= |bytes| then LebAt(Unsigned(bytes[pos..]), pos) else None
  }

  function SlebAt(bytes: seq<uint8>, pos: nat): (r: Option<Operand>)
    ensures r.Some? ==> pos < r.value.next <= |bytes|
  {
    if pos <= |bytes| then LebAt(Signed(bytes[pos..]), pos) else None
  }

  lemma OneByte(bytes: seq<uint8>, pos: nat, big: bool)
    requires pos < |bytes|
    ensures UintAt(bytes, pos, 1, big) == Some(Operand(bytes[pos], pos + 1))
  {
    var field := bytes[pos..pos + 1];
    assert field == [bytes[pos]];
    assert LittleEndian(field[1..]) == 0 && BigEndian(field[..|field| - 1]) == 0;
  }

  /** A field that stands in the stream is read. */
  lemma UintStands(bytes: seq<uint8>, pos: nat, v: nat, size: nat, big: bool)
    requires size in {1, 2, 4, 8} && v < FieldLimit(size) && Stands(bytes, pos, Field(v, size, big))
    ensures UintAt(bytes, pos, size, big) == Some(Operand(v, pos + size))
  {
    hide LittleEndian, BigEndian, Field, Power, FieldLimit;
    PowerIsLimit(size);
    FieldRead(v, size, big);
  }

  lemma UlebStands(bytes: seq<uint8>, pos: nat, v: nat)
    requires v < TWO_TO_64 && Stands(bytes, pos, EncodeUnsigned(v))
    ensures UlebAt(bytes, pos) == Some(Operand(v, pos + |EncodeUnsigned(v)|))
  {
    hide Unsigned, EncodeUnsigned;
    var code := EncodeUnsigned(v);
    assert bytes[pos..] == code + bytes[pos + |code|..];
    UnsignedRoundTrip(v, bytes[pos + |code|..]);
  }

  lemma SlebStands(bytes: seq<uint8>, pos: nat, v: int)
    requires -OFF_MAX - 1 <= v <= OFF_MAX && Stands(bytes, pos, EncodeSigned(v))
    ensures SlebAt(bytes, pos) == Some(Operand(v, pos + |EncodeSigned(v)|))
  {
    hide Signed, EncodeSigned;
    var code := EncodeSigned(v);
    assert bytes[pos..] == code + bytes[pos + |code|..];
    SignedRoundTrip(v, bytes[pos + |code|..]);
  }

  /** Where `skip` moves to: positions outside the stream leave the cursor alone. */
  function Skipped(bytes: seq<uint8>, pos: nat, offset: int): nat {
    if 0 <= pos + offset <= |bytes| then pos + offset else pos
  }

  /** Reading past the end of the stream and then refusing to move there is the same as reading the stream alone. */
  lemma EncodingOfPrefix(mem: seq<uint8>, n: nat)
    requires n <= |mem|
    ensures Encoding(mem[..n]).Ok? <==> Encoding(mem).Ok? && |Encoding(mem).value| <= n
    ensures Encoding(mem[..n]).Ok? ==> Encoding(mem[..n]) == Encoding(mem)
  {
    if Last(mem) < n {
      LastIs(mem[..n], Last(mem));
      assert mem[..n][..Last(mem) + 1] == mem[..Last(mem) + 1];
    } else {
      LastIs(mem[..n], n);
    }
  }

  lemma SliceOfSlice(s: seq<uint8>, start: nat, length: nat, pos: nat, size: nat)
    requires start + length <= |s| && pos + size <= length
    ensures s[start..start + length][pos..pos + size] == s[start + pos..start + pos + size]
  {
    var b := s[start..start + length];
    assert s[start..][..length] == b;
    assert b[pos..][..size] == s[start + pos..][..size];
  }

  /** The part of the memory object that holds the opcodes, as `dwarf_opstream::init` checks it. */
  function StreamStart(base: nat, size: nat, address: nat, offset: int, length: nat): (r: Result<nat>)
    requires base + size <= ADDRESS_MAX && address <= ADDRESS_MAX
    ensures r.Ok? <==> length <= OFF_MAX && base <= address + offset && address + offset + length <= base + size
    ensures if r.Ok? then r.value == address + offset else r.error == EINVAL
  {
    match ApplyOffset(address, offset)
    case None => Err(EINVAL)
    case Some(start) =>
      if length > OFF_MAX || ApplyOffset(start, length) == None then Err(EINVAL)
      else if start < base || base + size < start + length then Err(EINVAL)
      else Ok(start)
  }

  class OpStream {
    const mem: seq<uint8>
    const start: nat
    const length: nat
    var pos: nat

    ghost predicate Valid()
      reads this
    {
      start + length <= |mem| && pos <= length
    }

    ghost function Bytes(): (b: seq<uint8>)
      requires start + length <= |mem|
      ensures |b| == length
    {
      mem[start..start + length]
    }

    constructor (mem: seq<uint8>, start: nat, length: nat)
      requires start + length <= |mem|
      ensures Valid() && pos == 0 && this.mem == mem && this.start == start && this.length == length
    {
      this.mem, this.start, this.length := mem, start, length;
      pos := 0;
    }

    method ReadUint(size: nat, big: bool) returns (r: Option<nat>)
      requires Valid()
      modifies this
      ensures Valid()
      ensures
        var spec := UintAt(Bytes(), old(pos), size, big);
        r.Some? == spec.Some? && (if r.Some? then spec.value == Operand(r.value, pos) else pos == old(pos))
    {
      if length - pos < size {
        return None;
      }
      var field := mem[start + pos..start + pos + size];
      SliceOfSlice(mem, start, length, pos, size);
      pos := pos + size;
      return Some(if big then BigEndian(field) else LittleEndian(field));
    }

    method Skip(offset: int) returns (ok: bool)
      requires Valid()
      modifies this
      ensures Valid()
      ensures ok == (0 <= old(pos) + offset <= length)
      ensures pos == if ok then old(pos) + offset else old(pos)
      ensures pos == Skipped(Bytes(), old(pos), offset)
    {
      if pos + offset < 0 || pos + offset > length {
        return false;
      }
      pos := pos + offset;
      return true;
    }

    method ReadUleb() returns (r: Option<nat>)
      requires Valid()
      modifies this
      ensures Valid()
      ensures
        var spec := UlebAt(Bytes(), old(pos));
        r.Some? == spec.Some? && (r.Some? ==> spec.value == Operand(r.value, pos))
    {
      var leb := ReadUleb128(mem, start + pos);
      EncodingOfPrefix(mem[start + pos..], length - pos);
      assert mem[start + pos..][..length - pos] == Bytes()[pos..];
      if leb.Err? {
        return None;
      }
      var ok := Skip(leb.value.size);
      return if ok then Some(leb.value.value) else None;
    }

    method ReadSleb() returns (r: Option<int>)
      requires Valid()
      modifies this
      ensures Valid()
      ensures
        var spec := SlebAt(Bytes(), old(pos));
        r.Some? == spec.Some? && (r.Some? ==> spec.value == Operand(r.value, pos))
    {
      var leb := ReadSleb128(mem, start + pos);
      EncodingOfPrefix(mem[start + pos..], length - pos);
      assert mem[start + pos..][..length - pos] == Bytes()[pos..];
      if leb.Err? {
        return None;
      }
      var ok := Skip(leb.value.size);
      return if ok then Some(leb.value.value) else None;
    }
  }
}
