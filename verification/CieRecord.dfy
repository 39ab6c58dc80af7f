/**
 * `cie_info_init`: CIE records with the augmentations of the Linux Standard Base Core Specification 4.1, section
 * 10.6.1.1.1. Positions are relative to the section's base address.
 */
module CieRecord {
  import opened Bytes
  import opened Common
  import opened EhPointer
  import opened FdeScan
  import opened Leb128
  import opened OpStreamClass

  const CHAR_z: uint8 := 0x7a
  const CHAR_L: uint8 := 0x4c
  const CHAR_P: uint8 := 0x50
  const CHAR_R: uint8 := 0x52
  const CHAR_S: uint8 := 0x53

  /** What the augmentation data says: each field is there if its flag has been met. */
  datatype Augmentation =
    Augmentation(lsda: Option<uint8>, personality: Option<nat>, pointer: Option<uint8>, signal: bool)

  const NONE: Augmentation := Augmentation(None, None, None, false)

  /** The fields between the augmentation string and data. The sizes are there in version 4 only. */
  datatype Factors = Factors(
    addressSize: uint8,
    segmentSize: uint8,
    codeAlignment: nat,
    dataAlignment: int,
    returnRegister: nat)

  /** What has been read, and the position behind it. */
  datatype Located<T> = Located(value: T, next: nat)

  datatype Cie = Cie(
    offset: nat,
    length: nat,
    id: nat,
    version: uint8,
    factors: Factors,
    augmentation: Option<Augmentation>,
    instructionsOffset: nat,
    instructionsLength: nat)

  function ByteAt(s: Section, pos: nat): Result<uint8> {
    if pos < |s.bytes| then Ok(s.bytes[pos]) else Err(EINVAL)
  }

  /** The bytes up to and with the next zero. */
  function StringAt(s: Section, pos: nat): (r: Result<seq<uint8>>)
    ensures r.Ok? ==> r.value != []
    decreases |s.bytes| - pos
  {
    match ByteAt(s, pos)
    case Err(e) => Err(e)
    case Ok(c) =>
      if c == 0 then Ok([c])
      else
        match StringAt(s, pos + 1)
        case Err(e) => Err(e)
        case Ok(rest) => Ok([c] + rest)
  }

  /** The augmentation string with its end. Only an empty one and one that begins with 'z' can be read. */
  function AugmentationStringAt(s: Section, pos: nat): (r: Result<seq<uint8>>)
    ensures r.Ok? ==> r.value != []
  {
    match ByteAt(s, pos)
    case Err(e) => Err(e)
    case Ok(c) => if c != 0 && c != CHAR_z then Err(ENOTSUP) else StringAt(s, pos)
  }

  /** The three LEB128 numbers, and the position behind them. */
  function NumbersAt(s: Section, pos: nat, addressSize: uint8, segmentSize: uint8): (r: Result<Located<Factors>>)
    ensures r.Ok? ==> pos <= r.value.next
  {
    match Unsigned(From(s.bytes, pos))
    case Err(e) => Err(e)
    case Ok(code) =>
      match Signed(From(s.bytes, pos + code.size))
      case Err(e) => Err(e)
      case Ok(data) =>
        match Unsigned(From(s.bytes, pos + code.size + data.size))
        case Err(e) => Err(e)
        case Ok(ra) =>
          Ok(Located(Factors(addressSize, segmentSize, code.value, data.value, ra.value),
                     pos + code.size + data.size + ra.size))
  }

  function FactorsAt(s: Section, pos: nat, version: uint8): (r: Result<Located<Factors>>)
    ensures r.Ok? ==> pos <= r.value.next
  {
    if version == 4 then
      match ByteAt(s, pos)
      case Err(e) => Err(e)
      case Ok(addressSize) =>
        match ByteAt(s, pos + 1)
        case Err(e) => Err(e)
        case Ok(segmentSize) => NumbersAt(s, pos + 2, addressSize, segmentSize)
    else NumbersAt(s, pos, 0, 0)
  }

  /** One flag, and the position of the data of the next one; none if the flag is unknown. */
  function FlagAt(s: Section, flag: uint8, at: nat, a: Augmentation): Result<Option<Located<Augmentation>>> {
    if flag == CHAR_L then
      match ByteAt(s, at)
      case Err(e) => Err(e)
      case Ok(encoding) => Ok(Some(Located(a.(lsda := Some(encoding)), at + 1)))
    else if flag == CHAR_P then
      match ByteAt(s, at)
      case Err(e) => Err(e)
      case Ok(encoding) =>
        match s.pointerAt(at + 1, encoding)
        case Err(e) => Err(e)
        case Ok(p) => Ok(Some(Located(a.(personality := Some(p.value)), at + 1 + p.size)))
    else if flag == CHAR_R then
      match ByteAt(s, at)
      case Err(e) => Err(e)
      case Ok(encoding) => Ok(Some(Located(a.(pointer := Some(encoding)), at + 1)))
    else if flag == CHAR_S then Ok(Some(Located(a.(signal := true), at)))
    else if flag == 0 then Ok(Some(Located(a, at)))
    else Ok(None)
  }

  /** The flags in their order, up to an unknown one. */
  function Flags(s: Section, flags: seq<uint8>, at: nat, a: Augmentation): Result<Augmentation> {
    if flags == [] then Ok(a)
    else
      match FlagAt(s, flags[0], at, a)
      case Err(e) => Err(e)
      case Ok(None) => Ok(a)
      case Ok(Some(Located(a', at'))) => Flags(s, flags[1..], at', a')
  }

  predicate IsCieId(wordSize: nat, id: nat) {
    id == 0 || (wordSize == 4 && id == UINT32_MAX) || (wordSize == 8 && id == UINT64_MAX)
  }

  /** The record with its instructions from `end` on; the sizes are 64-bit numbers and go over without notice. */
  function WithInitial(pos: nat, h: Header, id: nat, version: uint8, f: Factors, a: Option<Augmentation>, end: nat)
    : Result<Cie>
  {
    var read := (end - pos - h.lengthSize) % TWO_TO_64;
    if h.length < read then Err(EINVAL)
    else
      Ok(Cie(pos + h.lengthSize, h.length, id, version, f, a, (pos + h.lengthSize + read) % TWO_TO_64, h.length - read))
  }

  /** The CIE from its augmentation string on. */
  function AugmentedAt(s: Section, pos: nat, h: Header, id: nat, version: uint8): Result<Cie> {
    var at := pos + h.lengthSize + h.wordSize + 1;
    match AugmentationStringAt(s, at)
    case Err(e) => Err(e)
    case Ok(str) =>
      match FactorsAt(s, at + |str|, version)
      case Err(e) => Err(e)
      case Ok(Located(f, next)) =>
        if str[0] != CHAR_z then WithInitial(pos, h, id, version, f, None, next)
        else
          match Unsigned(From(s.bytes, next))
          case Err(e) => Err(e)
          case Ok(size) =>
            match Flags(s, str[1..], next + size.size, NONE)
            case Err(e) => Err(e)
            case Ok(a) => WithInitial(pos, h, id, version, f, Some(a), next + size.size + size.value)
  }

  /** The CIE at `pos`. */
  function CieAt(s: Section, pos: nat): Result<Cie> {
    match HeaderAt(s, pos)
    case Err(e) => Err(e)
    case Ok(h) =>
      match s.Uint(pos + h.lengthSize, h.wordSize)
      case Err(e) => Err(e)
      case Ok(id) =>
        if !IsCieId(h.wordSize, id) then Err(EINVAL)
        else
          match ByteAt(s, pos + h.lengthSize + h.wordSize)
          case Err(e) => Err(e)
          case Ok(version) =>
            if version !in {1, 3, 4} then Err(EINVAL) else AugmentedAt(s, pos, h, id, version)
  }

  lemma StringGrows(s: Section, pos: nat, n: nat, rest: seq<uint8>)
    requires pos + n <= |s.bytes| && forall i :: pos <= i < pos + n ==> s.bytes[i] != 0
    requires StringAt(s, pos + n) == Ok(rest)
    ensures StringAt(s, pos) == Ok(s.bytes[pos..pos + n] + rest)
    decreases n
  {
    if n > 0 {
      StringGrows(s, pos + 1, n - 1, rest);
      assert s.bytes[pos..pos + n] + rest == [s.bytes[pos]] + (s.bytes[pos + 1..pos + n] + rest);
    } else {
      assert s.bytes[pos..pos] + rest == rest;
    }
  }

  lemma StringFails(s: Section, pos: nat)
    requires pos <= |s.bytes| && forall i :: pos <= i < |s.bytes| ==> s.bytes[i] != 0
    ensures StringAt(s, pos) == Err(EINVAL)
    decreases |s.bytes| - pos
  {
    if pos < |s.bytes| {
      StringFails(s, pos + 1);
    }
  }

  /** The loop over the characters: finds the size of the string, its end included. */
  method ReadAugmentationString(s: Section, pos: nat) returns (r: Result<seq<uint8>>)
    ensures r == AugmentationStringAt(s, pos)
  {
    var size := 0;
    var c := ByteAt(s, pos + size);
    while c.Ok?
      invariant c == ByteAt(s, pos + size)
      invariant pos + size <= |s.bytes| || size == 0
      invariant size > 0 ==> s.bytes[pos] == CHAR_z && forall i :: pos <= i < pos + size ==> s.bytes[i] != 0
      decreases |s.bytes| - (pos + size)
    {
      if size == 0 && c.value != CHAR_z && c.value != 0 {
        return Err(ENOTSUP);
      }
      size := size + 1;
      if c.value == 0 {
        assert StringAt(s, pos + (size - 1)) == Ok([0]);
        StringGrows(s, pos, size - 1, [0]);
        assert s.bytes[pos..pos + size] == s.bytes[pos..pos + (size - 1)] + [0];
        return Ok(s.bytes[pos..pos + size]);
      }
      c := ByteAt(s, pos + size);
    }
    if size > 0 {
      StringFails(s, pos);
    }
    return Err(c.error);
  }

  /** The loop over the flags; `at` is where the data of the next flag stands. */
  method ReadFlags(s: Section, flags: seq<uint8>, start: nat) returns (r: Result<Augmentation>)
    ensures r == Flags(s, flags, start, NONE)
  {
    var a, at: nat, i := NONE, start, 0;
    while i < |flags|
      invariant i <= |flags|
      invariant Flags(s, flags, start, NONE) == Flags(s, flags[i..], at, a)
    {
      assert flags[i..][1..] == flags[i + 1..];
      var flag := flags[i];
      if flag == CHAR_L {
        var encoding := ByteAt(s, at);
        if encoding.Err? {
          return Err(encoding.error);
        }
        a := a.(lsda := Some(encoding.value));
        at := at + 1;
      } else if flag == CHAR_P {
        var encoding := ByteAt(s, at);
        if encoding.Err? {
          return Err(encoding.error);
        }
        var p := s.pointerAt(at + 1, encoding.value);
        if p.Err? {
          return Err(p.error);
        }
        a := a.(personality := Some(p.value.value));
        at := at + 1 + p.value.size;
      } else if flag == CHAR_R {
        var encoding := ByteAt(s, at);
        if encoding.Err? {
          return Err(encoding.error);
        }
        a := a.(pointer := Some(encoding.value));
        at := at + 1;
      } else if flag == CHAR_S {
        a := a.(signal := true);
      } else if flag != 0 {
        return Ok(a);
      }
      i := i + 1;
    }
    return Ok(a);
  }

  method ReadNumbers(s: Section, pos: nat, addressSize: uint8, segmentSize: uint8) returns (r: Result<Located<Factors>>)
    ensures r == NumbersAt(s, pos, addressSize, segmentSize)
  {
    hide Unsigned, Signed;
    var code := ReadUleb128(s.bytes, pos);
    if code.Err? {
      return Err(code.error);
    }
    var offset := pos + code.value.size;
    var data := ReadSleb128(s.bytes, offset);
    if data.Err? {
      return Err(data.error);
    }
    offset := offset + data.value.size;
    var ra := ReadUleb128(s.bytes, offset);
    if ra.Err? {
      return Err(ra.error);
    }
    offset := offset + ra.value.size;
    return Ok(Located(Factors(addressSize, segmentSize, code.value.value, data.value.value, ra.value.value), offset));
  }

  method ReadFactors(s: Section, pos: nat, version: uint8) returns (r: Result<Located<Factors>>)
    ensures r == FactorsAt(s, pos, version)
  {
    hide NumbersAt;
    var offset := pos;
    var addressSize: uint8, segmentSize: uint8 := 0, 0;
    if version == 4 {
      var size := ByteAt(s, offset);
      if size.Err? {
        return Err(size.error);
      }
      addressSize := size.value;
      offset := offset + 1;
      size := ByteAt(s, offset);
      if size.Err? {
        return Err(size.error);
      }
      segmentSize := size.value;
      offset := offset + 1;
    }
    r := ReadNumbers(s, offset, addressSize, segmentSize);
  }

  /** The record from its augmentation string on, of which `offset` is the place in the record. */
  method ReadAugmented(s: Section, pos: nat, h: Header, id: nat, version: uint8) returns (r: Result<Cie>)
    requires h.lengthSize <= 12
    ensures r == AugmentedAt(s, pos, h, id, version)
  {
    hide AugmentationStringAt, FactorsAt, Flags, Unsigned, Signed;
    var offset := h.lengthSize + h.wordSize + 1;
    var str := ReadAugmentationString(s, pos + offset);
    if str.Err? {
      return Err(str.error);
    }
    offset := offset + |str.value|;
    var factors := ReadFactors(s, pos + offset, version);
    if factors.Err? {
      return Err(factors.error);
    }
    offset := factors.value.next - pos;
    var augmentation := None;
    if str.value[0] == CHAR_z {
      var size := ReadUleb128(s.bytes, pos + offset);
      if size.Err? {
        return Err(size.error);
      }
      offset := offset + size.value.size;
      var flags := ReadFlags(s, str.value[1..], pos + offset);
      if flags.Err? {
        return Err(flags.error);
      }
      augmentation := Some(flags.value);
      SumGoesOver(offset + size.value.value, h.lengthSize);
      offset := (offset + size.value.value) % TWO_TO_64;
    }
    var read := (offset - h.lengthSize) % TWO_TO_64;
    if h.length < read {
      return Err(EINVAL);
    }
    return Ok(Cie(pos + h.lengthSize, h.length, id, version, factors.value.value, augmentation,
                  (pos + h.lengthSize + read) % TWO_TO_64, h.length - read));
  }

  lemma SumGoesOver(x: nat, y: nat)
    ensures (x % TWO_TO_64 - y) % TWO_TO_64 == (x - y) % TWO_TO_64
  {
  }

  /** `cie_info_init` */
  method CieInfoInit(s: Section, pos: nat) returns (r: Result<Cie>)
    ensures r == CieAt(s, pos)
  {
    hide Section.Uint, AugmentedAt;
    var length32 := s.Uint(pos, 4);
    if length32.Err? {
      return Err(EINVAL);
    }
    var h := Header(length32.value, 4, 4);
    if length32.value == UINT32_MAX {
      var length64 := s.Uint(pos + 4, 8);
      if length64.Err? {
        return Err(length64.error);
      }
      h := Header(length64.value, 12, 8);
    }
    var offset := h.lengthSize;
    var id := s.Uint(pos + offset, h.wordSize);
    if id.Err? {
      return Err(id.error);
    }
    offset := offset + h.wordSize;
    if id.value != 0
       && ((h.wordSize == 4 && id.value != UINT32_MAX) || (h.wordSize == 8 && id.value != UINT64_MAX)) {
      return Err(EINVAL);
    }
    var version := ByteAt(s, pos + offset);
    if version.Err? {
      return Err(version.error);
    }
    if version.value != 1 && version.value != 3 && version.value != 4 {
      return Err(EINVAL);
    }
    r := ReadAugmented(s, pos, h, id.value, version.value);
  }

  // What is refused

  /** The id is neither 0 nor all ones, the version is not 1, 3 or 4, or one of them is not there. */
  lemma HeadRefused(s: Section, pos: nat)
    ensures HeaderAt(s, pos).Err? ==> CieAt(s, pos) == Err(EINVAL)
    ensures HeaderAt(s, pos).Ok? ==>
      var wide := HeaderAt(s, pos).value.lengthSize == 12;
      var at, size := pos + (if wide then 12 else 4), if wide then 8 else 4;
      var id := s.Uint(at, size);
      && (id.Err? ==> CieAt(s, pos) == Err(EINVAL))
      && (id.Ok? && id.value != 0 && id.value != (if wide then UINT64_MAX else UINT32_MAX) ==>
            CieAt(s, pos) == Err(EINVAL))
      && (at + size >= |s.bytes| || s.bytes[at + size] !in {1, 3, 4} ==> CieAt(s, pos) == Err(EINVAL))
  {
    hide AugmentedAt, Section.Uint;
    HeaderForms(s, pos);
  }

  lemma HeaderForms(s: Section, pos: nat)
    ensures
      var h := HeaderAt(s, pos);
      if h.Err? then h.error == EINVAL
      else (h.value.lengthSize == 12 && h.value.wordSize == 8) || (h.value.lengthSize == 4 && h.value.wordSize == 4)
  {
    hide UintAt;
  }

  /** The augmentation string has to be empty or begin with 'z', and it has to end. */
  lemma StringRefused(s: Section, pos: nat, h: Header, id: nat, version: uint8)
    ensures
      var at := pos + h.lengthSize + h.wordSize + 1;
      var r := AugmentedAt(s, pos, h, id, version);
      && (at >= |s.bytes| ==> r == Err(EINVAL))
      && (at < |s.bytes| && s.bytes[at] != 0 && s.bytes[at] != CHAR_z ==> r == Err(ENOTSUP))
      && (at < |s.bytes| && s.bytes[at] == CHAR_z && (forall i :: at <= i < |s.bytes| ==> s.bytes[i] != 0) ==>
            r == Err(EINVAL))
  {
    hide FactorsAt, Unsigned, Flags, WithInitial;
    var at := pos + h.lengthSize + h.wordSize + 1;
    if at < |s.bytes| && forall i :: at <= i < |s.bytes| ==> s.bytes[i] != 0 {
      StringFails(s, at);
    }
  }

  /**
   * An unknown flag ends the reading of the flags, with what has been read before it; data that is missing is an
   * error.
   */
  lemma FlagRefused(s: Section, flags: seq<uint8>, at: nat, a: Augmentation)
    requires flags != []
    ensures flags[0] !in {CHAR_L, CHAR_P, CHAR_R, CHAR_S, 0} ==> Flags(s, flags, at, a) == Ok(a)
    ensures flags[0] in {CHAR_L, CHAR_P, CHAR_R} && at >= |s.bytes| ==> Flags(s, flags, at, a) == Err(EINVAL)
    ensures flags[0] == CHAR_P && at < |s.bytes| && s.pointerAt(at + 1, s.bytes[at]).Err? ==>
      Flags(s, flags, at, a) == Err(s.pointerAt(at + 1, s.bytes[at]).error)
  {
  }

  /** A number that cannot be read is refused with the error of its encoding. */
  lemma NumbersRefused(s: Section, pos: nat, addressSize: uint8, segmentSize: uint8)
    ensures
      var code := Encoding(From(s.bytes, pos));
      var r := NumbersAt(s, pos, addressSize, segmentSize);
      if code.Err? then r == Err(code.error)
      else
        var data := Encoding(From(s.bytes, pos + |code.value|));
        if data.Err? then r == Err(data.error)
        else
          var ra := Encoding(From(s.bytes, pos + |code.value| + |data.value|));
          if ra.Err? then r == Err(ra.error)
          else r.Ok? && r.value.next == pos + |code.value| + |data.value| + |ra.value|
  {
    hide Base128, SignedBase128, Encoding, ToSigned64;
  }
}
