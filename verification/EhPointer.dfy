/**
 * `gnu_ehptr_reader::read`: the pointer encodings of the Linux Standard Base Core Specification 4.1, section 10.5,
 * and an encoder that it inverts.
 */
module EhPointer {
  import Arithmetic
  import opened Bytes
  import opened Common
  import opened Leb128
  import opened OpStreamClass

  const OMIT: uint8 := 0xff
  const INDIRECT: uint8 := 0x80

  /** Where the frame section is mapped, and where it is loaded. */
  datatype FrameBase = FrameBase(mapped: nat, vmAddress: nat)

  /** A reader over memory that is mapped at `base`. `target` reads a pointer anywhere in the task. */
  datatype Reader = Reader(
    base: nat,
    bytes: seq<uint8>,
    bigEndian: bool,
    wide: bool,
    text: Option<nat>,
    data: Option<nat>,
    func: Option<nat>,
    frame: Option<FrameBase>,
    target: nat -> Result<nat>)
  {
    function PointerSize(): (n: nat)
      ensures n in {4, 8}
    {
      if wide then 8 else 4
    }

    /** The number of values of the target's pointers. */
    function Modulus(): nat {
      FieldLimit(PointerSize())
    }
  }

  datatype Pointer = Pointer(value: nat, size: nat)

  /** What is added to the value, and how many bytes are left out before it. */
  datatype Relative = Relative(base: nat, skip: nat)

  function OrUnsupported(base: Option<nat>): Result<Relative> {
    if base.Some? then Ok(Relative(base.value, 0)) else Err(ENOTSUP)
  }

  function BaseOf(r: Reader, location: nat, offset: nat, encoding: uint8): Result<Relative> {
    match encoding / 0x10 % 8
    case 0 => Ok(Relative(0, 0))
    case 1 => Ok(Relative(location + offset, 0))
    case 2 => OrUnsupported(r.text)
    case 3 => OrUnsupported(r.data)
    case 4 => OrUnsupported(r.func)
    case 5 =>
      if r.frame.None? then Err(ENOTSUP)
      else Ok(Relative(0, -(r.frame.value.vmAddress + location - r.frame.value.mapped) % r.PointerSize()))
    case _ => Err(ENOTSUP)
  }

  datatype Format = Fixed(size: nat, signed: bool) | Leb(signed: bool)

  /** The low four bits of an encoding. */
  function FormatOf(r: Reader, encoding: uint8): (f: Option<Format>)
    ensures f.Some? && f.value.Fixed? ==> f.value.size in {2, 4, 8}
  {
    match encoding % 0x10
    case 0x0 => Some(Fixed(r.PointerSize(), false))
    case 0x1 => Some(Leb(false))
    case 0x2 => Some(Fixed(2, false))
    case 0x3 => Some(Fixed(4, false))
    case 0x4 => Some(Fixed(8, false))
    case 0x9 => Some(Leb(true))
    case 0xa => Some(Fixed(2, true))
    case 0xb => Some(Fixed(4, true))
    case 0xc => Some(Fixed(8, true))
    case _ => None
  }

  function LebOf(r: Reader, pos: int, signed: bool): Result<Read> {
    if pos < 0 || pos > |r.bytes| then Err(EINVAL)
    else if signed then Signed(r.bytes[pos..]) else Unsigned(r.bytes[pos..])
  }

  function ValueAt(r: Reader, pos: int, f: Format): Result<Read> {
    match f
    case Leb(signed) => LebOf(r, pos, signed)
    case Fixed(size, signed) =>
      if pos < 0 || UintAt(r.bytes, pos, size, r.bigEndian).None? then Err(EINVAL)
      else
        var v := UintAt(r.bytes, pos, size, r.bigEndian).value.value;
        Ok(Read(if signed then SignExtended(v, size) else v, size))
  }

  /** `read`. The sum goes over the width of a pointer without notice. */
  function ReadPointer(r: Reader, location: nat, offset: nat, encoding: uint8): Result<Pointer> {
    if encoding == OMIT then Err(ENOTFOUND)
    else
      match BaseOf(r, location, offset, encoding)
      case Err(e) => Err(e)
      case Ok(b) =>
        match FormatOf(r, encoding)
        case None => Err(ENOTSUP)
        case Some(f) =>
          match ValueAt(r, location + b.skip + offset - r.base, f)
          case Err(e) => Err(e)
          case Ok(v) =>
            var value := (v.value + b.base) % r.Modulus();
            if encoding < INDIRECT then Ok(Pointer(value, b.skip + v.size))
            else
              match r.target(value)
              case Err(e) => Err(e)
              case Ok(t) => Ok(Pointer(t, b.skip + v.size))
  }

  // Pointers as they are written (section 10.5 of the Linux Standard Base Core Specification 4.1)

  /** The number of pointers of the target. */
  function Range(wide: bool): nat {
    if wide then TWO_TO_64 else 0x1_0000_0000
  }

  /** How many bytes the low four bits of an encoding stand for; none for a LEB128 number. */
  function FixedSize(wide: bool, encoding: uint8): Option<nat> {
    var f := encoding % 0x10;
    if f == 0x00 then Some(if wide then 8 else 4)
    else if f == 0x02 || f == 0x0a then Some(2)
    else if f == 0x03 || f == 0x0b then Some(4)
    else if f == 0x04 || f == 0x0c then Some(8)
    else None
  }

  /** The numbers of `size` bytes. */
  predicate InBytes(d: int, size: nat, signed: bool) {
    if signed then 0 - Power(size) <= 2 * d < Power(size) else 0 <= d < Power(size)
  }

  /** The value has an encoding. The formats from 8 on are signed. */
  predicate Writable(wide: bool, encoding: uint8, d: int) {
    var f := encoding % 0x10;
    if f == 0x01 then 0 <= d < TWO_TO_64
    else if f == 0x09 then -OFF_MAX - 1 <= d <= OFF_MAX
    else FixedSize(wide, encoding).Some? && InBytes(d, FixedSize(wide, encoding).value, f >= 0x08)
  }

  function Written(wide: bool, encoding: uint8, d: int, big: bool): seq<uint8>
    requires Writable(wide, encoding, d)
  {
    var f := encoding % 0x10;
    if f == 0x01 then EncodeUnsigned(d)
    else if f == 0x09 then EncodeSigned(d)
    else
      var size := FixedSize(wide, encoding).value;
      Field(if d < 0 then d + Power(size) else d, size, big)
  }

  /** The three bits of an encoding that say what a value is relative to. */
  function Application(encoding: uint8): nat {
    encoding / 0x10 % 8
  }

  /** What a value is relative to is known: nothing, the pointer itself, or one of the given addresses. */
  predicate HasBase(r: Reader, encoding: uint8) {
    var a := Application(encoding);
    a < 2 || (a == 2 && r.text.Some?) || (a == 3 && r.data.Some?) || (a == 4 && r.func.Some?)
      || (a == 5 && r.frame.Some?)
  }

  /** The base of a pointer that stands at `address`. */
  function BaseAddress(r: Reader, address: nat, encoding: uint8): nat
    requires HasBase(r, encoding)
  {
    var a := Application(encoding);
    if a == 1 then address
    else if a == 2 then r.text.value
    else if a == 3 then r.data.value
    else if a == 4 then r.func.value
    else 0
  }

  /** The bytes that DW_EH_PE_aligned leaves out; see AlignedReads. */
  function Padding(r: Reader, location: nat, encoding: uint8): nat {
    if Application(encoding) != 5 || r.frame.None? then 0
    else (r.frame.value.mapped - r.frame.value.vmAddress - location) % (if r.wide then 8 else 4)
  }

  lemma BaseIs(r: Reader, location: nat, offset: nat, encoding: uint8)
    ensures BaseOf(r, location, offset, encoding) ==
            if HasBase(r, encoding)
            then Ok(Relative(BaseAddress(r, location + offset, encoding), Padding(r, location, encoding)))
            else Err(ENOTSUP)
  {
    if r.frame.Some? && Application(encoding) == 5 {
      NegatedSum(r.frame.value.vmAddress + location - r.frame.value.mapped);
    }
  }

  lemma NegatedSum(x: int)
    ensures -x % 4 == (0 - x) % 4 && -x % 8 == (0 - x) % 8
  {
  }

  lemma ValueRead(r: Reader, pos: nat, encoding: uint8, d: int)
    requires Writable(r.wide, encoding, d) && Stands(r.bytes, pos, Written(r.wide, encoding, d, r.bigEndian))
    ensures
      var f := FormatOf(r, encoding);
      f.Some? && ValueAt(r, pos, f.value) == Ok(Read(d, |Written(r.wide, encoding, d, r.bigEndian)|))
  {
    hide Unsigned, Signed, EncodeUnsigned, EncodeSigned, UintAt, Field, Power;
    var code := Written(r.wide, encoding, d, r.bigEndian);
    var f := encoding % 0x10;
    if f == 0x01 || f == 0x09 {
      assert r.bytes[pos..] == code + r.bytes[pos + |code|..];
      if f == 0x09 {
        SignedRoundTrip(d, r.bytes[pos + |code|..]);
      } else {
        UnsignedRoundTrip(d, r.bytes[pos + |code|..]);
      }
    } else {
      var size := FixedSize(r.wide, encoding).value;
      PowerIsLimit(size);
      UintStands(r.bytes, pos, if d < 0 then d + Power(size) else d, size, r.bigEndian);
    }
  }

  /** The bits of the encoding that ask for a pointer through which the value is read. */
  predicate IsDirect(encoding: uint8) {
    encoding < 0x80
  }

  /**
   * Reading inverts the encoding, for every format, byte order and base: it gives the value plus the base, in a
   * pointer of the target, and the number of bytes it has taken.
   */
  lemma PointerRoundTrip(r: Reader, location: nat, offset: nat, encoding: uint8, d: int)
    requires IsDirect(encoding) && HasBase(r, encoding) && Writable(r.wide, encoding, d) && r.base <= location
    requires Stands(r.bytes, location + offset + Padding(r, location, encoding) - r.base,
                    Written(r.wide, encoding, d, r.bigEndian))
    ensures
      var base := BaseAddress(r, location + offset, encoding);
      var size := Padding(r, location, encoding) + |Written(r.wide, encoding, d, r.bigEndian)|;
      ReadPointer(r, location, offset, encoding) == Ok(Pointer((base + d) % Range(r.wide), size))
  {
    hide ValueAt, Written, Writable, FormatOf, BaseOf, Stands;
    BaseIs(r, location, offset, encoding);
    ValueRead(r, location + offset + Padding(r, location, encoding) - r.base, encoding, d);
  }

  /** The same, base by base. */
  lemma PointerByBase(r: Reader, location: nat, offset: nat, encoding: uint8, d: int)
    requires IsDirect(encoding) && HasBase(r, encoding) && Writable(r.wide, encoding, d) && r.base <= location
    requires Application(encoding) != 5
    requires Stands(r.bytes, location + offset - r.base, Written(r.wide, encoding, d, r.bigEndian))
    ensures
      var size := |Written(r.wide, encoding, d, r.bigEndian)|;
      var p := ReadPointer(r, location, offset, encoding);
      && (Application(encoding) == 0 ==> p == Ok(Pointer(d % Range(r.wide), size)))
      && (Application(encoding) == 1 ==> p == Ok(Pointer((location + offset + d) % Range(r.wide), size)))
      && (Application(encoding) == 2 ==> p == Ok(Pointer((r.text.value + d) % Range(r.wide), size)))
      && (Application(encoding) == 3 ==> p == Ok(Pointer((r.data.value + d) % Range(r.wide), size)))
      && (Application(encoding) == 4 ==> p == Ok(Pointer((r.func.value + d) % Range(r.wide), size)))
  {
    hide Written, Writable, ReadPointer, Stands, Application;
    PointerRoundTrip(r, location, offset, encoding, d);
  }

  /** What is refused before the value is read, and that the others read it. */
  lemma PointerRefused(r: Reader, location: nat, offset: nat, encoding: uint8)
    ensures encoding == 0xff ==> ReadPointer(r, location, offset, encoding) == Err(ENOTFOUND)
    ensures encoding != 0xff
            && (!HasBase(r, encoding) || (encoding % 0x10 !in {0x01, 0x09} && FixedSize(r.wide, encoding).None?)) ==>
              ReadPointer(r, location, offset, encoding) == Err(ENOTSUP)
    ensures
      var size, at := FixedSize(r.wide, encoding), location + offset + Padding(r, location, encoding) - r.base;
      encoding != 0xff && HasBase(r, encoding) && size.Some? && (at < 0 || at + size.value > |r.bytes|) ==>
        ReadPointer(r, location, offset, encoding) == Err(EINVAL)
    ensures
      var at := location + offset + Padding(r, location, encoding) - r.base;
      encoding != 0xff && HasBase(r, encoding) && encoding % 0x10 in {0x01, 0x09} ==>
        && (at < 0 || at > |r.bytes| ==> ReadPointer(r, location, offset, encoding) == Err(EINVAL))
        && (0 <= at <= |r.bytes| && Encoding(r.bytes[at..]).Err? ==>
              ReadPointer(r, location, offset, encoding) == Err(Encoding(r.bytes[at..]).error))
  {
    hide BaseOf, Encoding;
    BaseIs(r, location, offset, encoding);
  }

  /** An indirect pointer is the one that stands where the direct one leads. */
  lemma IndirectReads(r: Reader, location: nat, offset: nat, encoding: uint8)
    requires 0x80 <= encoding < 0xff
    ensures
      var direct, indirect := ReadPointer(r, location, offset, encoding - 0x80), ReadPointer(r, location, offset, encoding);
      if direct.Err? then indirect == direct
      else
        var t := r.target(direct.value.value);
        indirect == if t.Err? then Err(t.error) else Ok(Pointer(t.value, direct.value.size))
  {
    hide ValueAt;
    SameLowBits(encoding);
  }

  lemma SameLowBits(encoding: uint8)
    requires 0x80 <= encoding
    ensures (encoding - 0x80) % 0x10 == encoding % 0x10
    ensures (encoding - 0x80) / 0x10 % 8 == encoding / 0x10 % 8
  {
  }

  /** The value that leads from a base to an address, in the width of a pointer. */
  function Distance(wide: bool, base: nat, address: nat): (d: nat)
    ensures d < Range(wide)
  {
    if wide then (address - base) % TWO_TO_64 else (address - base) % 0x1_0000_0000
  }

  function AddressCode(r: Reader, base: nat, address: nat): (c: seq<uint8>)
    ensures |c| == if r.wide then 8 else 4
  {
    Field(Distance(r.wide, base, address), if r.wide then 8 else 4, r.bigEndian)
  }

  /**
   * Every address can be reached from every base in the target's own pointer format, because the sum goes over without
   * notice.
   */
  lemma AddressRoundTrip(r: Reader, location: nat, offset: nat, encoding: uint8, address: nat)
    requires IsDirect(encoding) && encoding % 0x10 == 0 && HasBase(r, encoding) && Application(encoding) != 5
    requires r.base <= location && address < Range(r.wide)
    requires Stands(r.bytes, location + offset - r.base,
                    AddressCode(r, BaseAddress(r, location + offset, encoding), address))
    ensures ReadPointer(r, location, offset, encoding) == Ok(Pointer(address, if r.wide then 8 else 4))
  {
    hide ReadPointer, Field, Distance, Stands, Power;
    var base := BaseAddress(r, location + offset, encoding);
    var d := Distance(r.wide, base, address);
    PowerIsLimit(if r.wide then 8 else 4);
    assert Written(r.wide, encoding, d, r.bigEndian) == AddressCode(r, base, address);
    PointerRoundTrip(r, location, offset, encoding, d);
    ResidueSum(base, address, Range(r.wide));
    DistanceIs(r.wide, base, address);
  }

  lemma DistanceIs(wide: bool, base: nat, address: nat)
    ensures Distance(wide, base, address) == (address - base) % Range(wide)
  {
  }

  lemma ResidueSum(base: nat, address: nat, m: nat)
    requires address < m && (m == 0x1_0000_0000 || m == TWO_TO_64)
    ensures 0 <= (address - base) % m < m && (base + (address - base) % m) % m == address
  {
    if m == 0x1_0000_0000 {
      assert (base + (address - base) % 0x1_0000_0000) % 0x1_0000_0000 == address;
    }
  }

  lemma Skip4(x: int)
    ensures 0 <= -x % 4 < 4 && (x + -x % 4) % 4 == 0
  {
  }

  lemma Skip8(x: int)
    ensures 0 <= -x % 8 < 8 && (x + -x % 8) % 8 == 0
  {
  }

  lemma SkipAligns(x: int, n: nat)
    requires n in {4, 8}
    ensures 0 <= -x % n < n && (x + -x % n) % n == 0
  {
    if n == 4 {
      Skip4(x);
    } else {
      Skip8(x);
    }
  }

  /**
   * DW_EH_PE_aligned reads where the load address of the section is aligned, less than a pointer further on, and
   * relative to nothing.
   */
  lemma AlignedReads(r: Reader, location: nat, offset: nat)
    requires r.frame.Some? && r.frame.value.mapped <= location
    ensures
      var size := if r.wide then 8 else 4;
      var b := BaseOf(r, location, offset, 0x50);
      && b.Ok? && b.value.base == 0 && 0 <= b.value.skip < size && b.value.skip == Padding(r, location, 0x50)
      && (r.frame.value.vmAddress + location - r.frame.value.mapped + b.value.skip) % size == 0
  {
    BaseIs(r, location, offset, 0x50);
    SkipAligns(r.frame.value.vmAddress + location - r.frame.value.mapped, if r.wide then 8 else 4);
  }
}
