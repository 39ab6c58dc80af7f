/**
 * CIE records laid out as DWARF 4 section 6.4.1 and the Linux Standard Base Core Specification 4.1, section 10.6.1.1
 * say, and that `cie_info_init` and `fde_info_init` read them back together.
 */
module CieLayout {
  import opened Bytes
  import opened Common
  import opened EhPointer
  import opened FdeScan
  import opened FdeRecord
  import opened CieRecord
  import opened Leb128
  import opened OpStreamClass

  /** A flag of the augmentation string with its data; a personality is given before a base is added. */
  datatype Flag = Lsda(encoding: uint8) | Personality(encoding: uint8, value: int) | PointerEncoding(encoding: uint8) | Signal

  /**
   * `flags` is absent without augmentation. `declared` is what the record says the augmentation data takes, and
   * `rest` is what stands behind the data of the flags: more augmentation data, if any, and the instructions.
   */
  datatype Source = Source(
    wide: bool,
    id: nat,
    version: uint8,
    flags: Option<seq<Flag>>,
    factors: Factors,
    declared: nat,
    rest: seq<uint8>)

  predicate FlagFits(r: Reader, f: Flag) {
    f.Personality? ==>
      && IsDirect(f.encoding) && HasBase(r, f.encoding) && Writable(r.wide, f.encoding, f.value)
  }

  predicate Encodable(r: Reader, c: Source) {
    && IsCieId(WordSizeOf(c.wide), c.id) && c.version in {1, 3, 4}
    && (c.version != 4 ==> c.factors.addressSize == 0 && c.factors.segmentSize == 0)
    && c.factors.codeAlignment < TWO_TO_64 && c.factors.returnRegister < TWO_TO_64
    && -OFF_MAX - 1 <= c.factors.dataAlignment <= OFF_MAX
    && c.declared < TWO_TO_64
    && (c.flags.Some? ==> forall f <- c.flags.value :: FlagFits(r, f))
  }

  function FlagChar(f: Flag): (c: uint8)
    ensures c != 0
  {
    match f
    case Lsda(_) => CHAR_L
    case Personality(_, _) => CHAR_P
    case PointerEncoding(_) => CHAR_R
    case Signal => CHAR_S
  }

  function FlagData(r: Reader, f: Flag): seq<uint8>
    requires FlagFits(r, f)
  {
    match f
    case Lsda(encoding) => [encoding]
    case Personality(encoding, value) => [encoding] + PointerCode(r, encoding, value)
    case PointerEncoding(encoding) => [encoding]
    case Signal => []
  }

  function Chars(flags: seq<Flag>): seq<uint8> {
    if flags == [] then [0] else [FlagChar(flags[0])] + Chars(flags[1..])
  }

  function Data(r: Reader, flags: seq<Flag>): seq<uint8>
    requires forall f <- flags :: FlagFits(r, f)
  {
    if flags == [] then [] else FlagData(r, flags[0]) + Data(r, flags[1..])
  }

  function WithFlag(r: Reader, f: Flag, at: nat, a: Augmentation): Augmentation
    requires FlagFits(r, f)
  {
    match f
    case Lsda(encoding) => a.(lsda := Some(encoding))
    case Personality(encoding, value) => a.(personality := Some(PersonalityAt(r, at + 1, encoding, value)))
    case PointerEncoding(encoding) => a.(pointer := Some(encoding))
    case Signal => a.(signal := true)
  }

  /** What the flags say whose data stands from `at` on: of several flags of one kind, the last one counts. */
  function Meaning(r: Reader, flags: seq<Flag>, at: nat, a: Augmentation): Augmentation
    requires forall f <- flags :: FlagFits(r, f)
  {
    if flags == [] then a
    else
      var f := flags[0];
      assert FlagFits(r, f);
      Meaning(r, flags[1..], at + |FlagData(r, f)|, WithFlag(r, f, at, a))
  }

  function PersonalityAt(r: Reader, at: nat, encoding: uint8, value: int): nat
    requires HasBase(r, encoding)
  {
    (BaseAddress(r, r.base + at, encoding) + value) % Range(r.wide)
  }

  function String(c: Source): seq<uint8> {
    if c.flags.Some? then [CHAR_z] + Chars(c.flags.value) else [0]
  }

  function Sizes(c: Source): seq<uint8> {
    if c.version == 4 then [c.factors.addressSize, c.factors.segmentSize] else []
  }

  function Numbers(r: Reader, c: Source): seq<uint8>
    requires Encodable(r, c)
  {
    EncodeUnsigned(c.factors.codeAlignment)
    + (EncodeSigned(c.factors.dataAlignment) + EncodeUnsigned(c.factors.returnRegister))
  }

  function Augmented(r: Reader, c: Source): seq<uint8>
    requires Encodable(r, c)
  {
    if c.flags.Some? then EncodeUnsigned(c.declared) + Data(r, c.flags.value) else []
  }

  /** What stands before the augmentation data's size, or without one before the instructions. */
  function Head(r: Reader, c: Source): seq<uint8>
    requires Encodable(r, c)
  {
    Field(c.id, WordSizeOf(c.wide), r.bigEndian) + ([c.version] + (String(c) + (Sizes(c) + Numbers(r, c))))
  }

  function Body(r: Reader, c: Source): seq<uint8>
    requires Encodable(r, c)
  {
    Head(r, c) + (Augmented(r, c) + c.rest)
  }

  ghost predicate LaidOut(r: Reader, pos: nat, c: Source) {
    && Encodable(r, c) && LengthFits(c.wide, |Body(r, c)|)
    && Stands(r.bytes, pos, LengthCode(c.wide, |Body(r, c)|, r.bigEndian) + Body(r, c))
  }

  // The string

  lemma {:induction false} CharsRead(s: Section, pos: nat, flags: seq<Flag>)
    requires Stands(s.bytes, pos, Chars(flags))
    ensures StringAt(s, pos) == Ok(Chars(flags))
    decreases flags
  {
    hide Stands;
    if flags == [] {
      StandsByte(s.bytes, pos, 0);
    } else {
      StandsParts(s.bytes, pos, [FlagChar(flags[0])], Chars(flags[1..]));
      StandsByte(s.bytes, pos, FlagChar(flags[0]));
      CharsRead(s, pos + 1, flags[1..]);
    }
  }

  lemma StringRead(s: Section, pos: nat, c: Source)
    requires Stands(s.bytes, pos, String(c))
    ensures AugmentationStringAt(s, pos) == Ok(String(c))
  {
    hide Stands;
    if c.flags.Some? {
      StandsParts(s.bytes, pos, [CHAR_z], Chars(c.flags.value));
      StandsByte(s.bytes, pos, CHAR_z);
      CharsRead(s, pos + 1, c.flags.value);
    } else {
      StandsByte(s.bytes, pos, 0);
      assert StringAt(s, pos) == Ok([0]);
    }
  }

  // The numbers

  lemma UnsignedRead(bytes: seq<uint8>, pos: nat, v: nat)
    requires v < TWO_TO_64 && Stands(bytes, pos, EncodeUnsigned(v))
    ensures Unsigned(From(bytes, pos)) == Ok(Read(v, |EncodeUnsigned(v)|))
  {
    hide Unsigned, EncodeUnsigned;
    var code := EncodeUnsigned(v);
    assert bytes[pos..] == code + bytes[pos + |code|..];
    UnsignedRoundTrip(v, bytes[pos + |code|..]);
  }

  lemma SignedRead(bytes: seq<uint8>, pos: nat, v: int)
    requires -OFF_MAX - 1 <= v <= OFF_MAX && Stands(bytes, pos, EncodeSigned(v))
    ensures Signed(From(bytes, pos)) == Ok(Read(v, |EncodeSigned(v)|))
  {
    hide Signed, EncodeSigned;
    var code := EncodeSigned(v);
    assert bytes[pos..] == code + bytes[pos + |code|..];
    SignedRoundTrip(v, bytes[pos + |code|..]);
  }

  lemma NumbersRead(s: Section, r: Reader, pos: nat, c: Source, addressSize: uint8, segmentSize: uint8)
    requires Encodable(r, c) && Stands(s.bytes, pos, Numbers(r, c))
    ensures NumbersAt(s, pos, addressSize, segmentSize) ==
            Ok(Located(c.factors.(addressSize := addressSize, segmentSize := segmentSize), pos + |Numbers(r, c)|))
  {
    hide Stands, Unsigned, Signed, EncodeUnsigned, EncodeSigned;
    var code, data := EncodeUnsigned(c.factors.codeAlignment), EncodeSigned(c.factors.dataAlignment);
    var ra := EncodeUnsigned(c.factors.returnRegister);
    StandsParts(s.bytes, pos, code, data + ra);
    StandsParts(s.bytes, pos + |code|, data, ra);
    UnsignedRead(s.bytes, pos, c.factors.codeAlignment);
    SignedRead(s.bytes, pos + |code|, c.factors.dataAlignment);
    UnsignedRead(s.bytes, pos + |code| + |data|, c.factors.returnRegister);
  }

  lemma FactorsRead(s: Section, r: Reader, pos: nat, c: Source)
    requires Encodable(r, c) && Stands(s.bytes, pos, Sizes(c) + Numbers(r, c))
    ensures FactorsAt(s, pos, c.version) == Ok(Located(c.factors, pos + |Sizes(c) + Numbers(r, c)|))
  {
    hide Stands, NumbersAt, Numbers;
    StandsParts(s.bytes, pos, Sizes(c), Numbers(r, c));
    if c.version == 4 {
      assert Sizes(c) == [c.factors.addressSize] + [c.factors.segmentSize];
      StandsParts(s.bytes, pos, [c.factors.addressSize], [c.factors.segmentSize]);
      StandsByte(s.bytes, pos, c.factors.addressSize);
      StandsByte(s.bytes, pos + 1, c.factors.segmentSize);
    }
    NumbersRead(s, r, pos + |Sizes(c)|, c, c.factors.addressSize, c.factors.segmentSize);
  }

  // The augmentation data

  lemma PersonalityRead(r: Reader, debugFrame: bool, e: nat -> Result<uint8>, at: nat, encoding: uint8, value: int)
    requires r.frame.None? && FlagFits(r, Personality(encoding, value))
      && Stands(r.bytes, at, PointerCode(r, encoding, value))
    ensures SectionOf(r, debugFrame, e).pointerAt(at, encoding) ==
            Ok(Pointer(PersonalityAt(r, at, encoding, value), |PointerCode(r, encoding, value)|))
  {
    hide Stands, Written, Writable, ReadPointer;
    PointerRoundTrip(r, r.base, at, encoding, value);
  }

  lemma FlagRead(r: Reader, debugFrame: bool, e: nat -> Result<uint8>, f: Flag, at: nat, a: Augmentation)
    requires r.frame.None? && FlagFits(r, f) && Stands(r.bytes, at, FlagData(r, f))
    ensures FlagAt(SectionOf(r, debugFrame, e), FlagChar(f), at, a) ==
            Ok(Some(Located(Meaning(r, [f], at, a), at + |FlagData(r, f)|)))
  {
    hide Stands, ReadPointer, PersonalityAt, PointerCode, HasBase, Writable;
    MeaningOfOne(r, f, at, a);
    match f
    case Personality(encoding, value) =>
      StandsParts(r.bytes, at, [encoding], PointerCode(r, encoding, value));
      StandsByte(r.bytes, at, encoding);
      PersonalityRead(r, debugFrame, e, at + 1, encoding, value);
    case Lsda(encoding) => StandsByte(r.bytes, at, encoding);
    case PointerEncoding(encoding) => StandsByte(r.bytes, at, encoding);
    case Signal =>
  }

  lemma MeaningOfOne(r: Reader, f: Flag, at: nat, a: Augmentation)
    requires FlagFits(r, f)
    ensures Meaning(r, [f], at, a) == WithFlag(r, f, at, a)
  {
    hide PersonalityAt, FlagData, FlagFits;
    assert [f][1..] == [];
  }

  lemma MeaningSteps(r: Reader, flags: seq<Flag>, at: nat, a: Augmentation)
    requires flags != [] && forall f <- flags :: FlagFits(r, f)
    ensures Meaning(r, flags, at, a) ==
            Meaning(r, flags[1..], at + |FlagData(r, flags[0])|, Meaning(r, [flags[0]], at, a))
  {
    hide PersonalityAt, FlagData, FlagFits;
    MeaningOfOne(r, flags[0], at, a);
  }

  lemma {:induction false} FlagsRead(r: Reader, debugFrame: bool, e: nat -> Result<uint8>, flags: seq<Flag>, at: nat,
                                     a: Augmentation)
    requires r.frame.None? && (forall f <- flags :: FlagFits(r, f)) && Stands(r.bytes, at, Data(r, flags))
    ensures Flags(SectionOf(r, debugFrame, e), Chars(flags), at, a) == Ok(Meaning(r, flags, at, a))
    decreases flags
  {
    hide Stands, FlagData, FlagFits, FlagAt, Meaning;
    var s, chars := SectionOf(r, debugFrame, e), Chars(flags);
    if flags == [] {
      EndRead(s, at, a);
      NoMeaning(r, at, a);
    } else {
      StandsParts(r.bytes, at, FlagData(r, flags[0]), Data(r, flags[1..]));
      FlagRead(r, debugFrame, e, flags[0], at, a);
      MeaningSteps(r, flags, at, a);
      assert chars[1..] == Chars(flags[1..]);
      FlagsRead(r, debugFrame, e, flags[1..], at + |FlagData(r, flags[0])|, Meaning(r, [flags[0]], at, a));
    }
  }

  lemma EndRead(s: Section, at: nat, a: Augmentation)
    ensures Flags(s, [0], at, a) == Ok(a)
  {
    var end: seq<uint8> := [0];
    assert end[1..] == [];
  }

  lemma NoMeaning(r: Reader, at: nat, a: Augmentation)
    ensures Meaning(r, [], at, a) == a
  {
  }

  // The record

  /** The offset of the augmentation data's size, or without one of the instructions. */
  function HeadEnd(r: Reader, pos: nat, c: Source): nat
    requires Encodable(r, c)
  {
    pos + LengthSizeOf(c.wide) + |Head(r, c)|
  }

  function AugmentationOf(r: Reader, pos: nat, c: Source): Option<Augmentation>
    requires Encodable(r, c)
  {
    if c.flags.Some? then Some(Meaning(r, c.flags.value, HeadEnd(r, pos, c) + |EncodeUnsigned(c.declared)|, NONE)) else None
  }

  /** Where the instructions are said to start. */
  function InstructionsAt(r: Reader, pos: nat, c: Source): nat
    requires Encodable(r, c)
  {
    HeadEnd(r, pos, c) + if c.flags.Some? then |EncodeUnsigned(c.declared)| + c.declared else 0
  }

  lemma PartsStand(r: Reader, pos: nat, c: Source)
    requires LaidOut(r, pos, c)
    ensures
      var at := pos + LengthSizeOf(c.wide);
      var id, str := Field(c.id, WordSizeOf(c.wide), r.bigEndian), String(c);
      && Stands(r.bytes, pos, LengthCode(c.wide, |Body(r, c)|, r.bigEndian))
      && Stands(r.bytes, at, id)
      && Stands(r.bytes, at + |id|, [c.version])
      && Stands(r.bytes, at + |id| + 1, str)
      && Stands(r.bytes, at + |id| + 1 + |str|, Sizes(c) + Numbers(r, c))
      && Stands(r.bytes, HeadEnd(r, pos, c), Augmented(r, c))
      && Stands(r.bytes, HeadEnd(r, pos, c) + |Augmented(r, c)|, c.rest)
      && HeadEnd(r, pos, c) == at + |id| + 1 + |str| + |Sizes(c) + Numbers(r, c)|
  {
    hide Stands, LengthFits, Field, Encodable, String, Sizes, Numbers, Augmented;
    var at := pos + LengthSizeOf(c.wide);
    var id, str, factors := Field(c.id, WordSizeOf(c.wide), r.bigEndian), String(c), Sizes(c) + Numbers(r, c);
    StandsParts(r.bytes, pos, LengthCode(c.wide, |Body(r, c)|, r.bigEndian), Body(r, c));
    StandsParts(r.bytes, at, Head(r, c), Augmented(r, c) + c.rest);
    StandsParts(r.bytes, HeadEnd(r, pos, c), Augmented(r, c), c.rest);
    StandsParts(r.bytes, at, id, [c.version] + (str + factors));
    StandsParts(r.bytes, at + |id|, [c.version], str + factors);
    StandsParts(r.bytes, at + |id| + 1, str, factors);
  }

  lemma AugmentedRead(r: Reader, debugFrame: bool, e: nat -> Result<uint8>, pos: nat, c: Source)
    requires r.frame.None? && Encodable(r, c) && c.flags.Some? && Stands(r.bytes, HeadEnd(r, pos, c), Augmented(r, c))
    ensures
      var size := |EncodeUnsigned(c.declared)|;
      && Unsigned(From(r.bytes, HeadEnd(r, pos, c))) == Ok(Read(c.declared, size))
      && Flags(SectionOf(r, debugFrame, e), String(c)[1..], HeadEnd(r, pos, c) + size, NONE) ==
         Ok(AugmentationOf(r, pos, c).value)
  {
    hide Stands, Head, Unsigned, EncodeUnsigned, Flags, Meaning, FlagFits;
    var at := HeadEnd(r, pos, c);
    StandsParts(r.bytes, at, EncodeUnsigned(c.declared), Data(r, c.flags.value));
    UnsignedRead(r.bytes, at, c.declared);
    assert String(c)[1..] == Chars(c.flags.value);
    FlagsRead(r, debugFrame, e, c.flags.value, at + |EncodeUnsigned(c.declared)|, NONE);
  }

  /** Parsing gives all fields of a record that was laid out, whatever it declares the augmentation data to take. */
  lemma CieParsed(r: Reader, debugFrame: bool, e: nat -> Result<uint8>, pos: nat, c: Source)
    requires r.frame.None? && LaidOut(r, pos, c)
    ensures CieAt(SectionOf(r, debugFrame, e), pos) ==
            WithInitial(pos, Header(|Body(r, c)|, LengthSizeOf(c.wide), WordSizeOf(c.wide)), c.id, c.version, c.factors,
                        AugmentationOf(r, pos, c), InstructionsAt(r, pos, c))
  {
    hide Stands, HeaderAt, UintAt, Field, StringAt, AugmentationStringAt, FactorsAt, Flags, Unsigned, WithInitial, Body, Head,
      Augmented, Numbers, Sizes, LengthCode, EncodeUnsigned, Meaning, FlagFits;
    var s := SectionOf(r, debugFrame, e);
    PartsStand(r, pos, c);
    LengthStands(s, pos, c.wide, |Body(r, c)|);
    var at := pos + LengthSizeOf(c.wide);
    UintStands(r.bytes, at, c.id, WordSizeOf(c.wide), r.bigEndian);
    StandsByte(r.bytes, at + WordSizeOf(c.wide), c.version);
    StringRead(s, at + WordSizeOf(c.wide) + 1, c);
    FactorsRead(s, r, at + WordSizeOf(c.wide) + 1 + |String(c)|, c);
    if c.flags.Some? {
      AugmentedRead(r, debugFrame, e, pos, c);
    }
  }

  /** The number of bytes from the length field to the instructions, as declared. */
  function Declared(r: Reader, pos: nat, c: Source): nat
    requires Encodable(r, c)
  {
    InstructionsAt(r, pos, c) - pos - LengthSizeOf(c.wide)
  }

  lemma EndsInside(r: Reader, pos: nat, c: Source)
    requires LaidOut(r, pos, c)
    ensures Encodable(r, c) && (c.flags.Some? ==> forall f <- c.flags.value :: FlagFits(r, f))
    ensures pos + LengthSizeOf(c.wide) + |Body(r, c)| <= |r.bytes| && |Body(r, c)| < TWO_TO_64
  {
    hide Body, Field, FlagFits, IsCieId;
    var code := LengthCode(c.wide, |Body(r, c)|, r.bigEndian);
    assert |code| == LengthSizeOf(c.wide);
  }

  /**
   * The exact condition: the instructions are where the record declares them, or it is refused, if and only if what
   * it declares before them does not go over 64 bits. Otherwise a record whose size goes over far enough is read all
   * the same, with instructions that start within its own header.
   */
  lemma InstructionsRightIff(r: Reader, debugFrame: bool, e: nat -> Result<uint8>, pos: nat, c: Source)
    requires r.frame.None? && |r.bytes| < TWO_TO_64 && LaidOut(r, pos, c)
    ensures
      var cie := CieAt(SectionOf(r, debugFrame, e), pos);
      var declared := Declared(r, pos, c);
      && (cie.Ok? <==> declared % TWO_TO_64 <= |Body(r, c)|)
      && (cie.Err? || cie.value.instructionsOffset == InstructionsAt(r, pos, c) <==>
          declared < TWO_TO_64 || declared % TWO_TO_64 > |Body(r, c)|)
  {
    hide LaidOut, Body, InstructionsAt, CieAt, AugmentationOf;
    CieParsed(r, debugFrame, e, pos, c);
    EndsInside(r, pos, c);
    if Declared(r, pos, c) < TWO_TO_64 {
      SmallRest(Declared(r, pos, c));
    }
  }

  lemma SmallRest(x: nat)
    requires x < TWO_TO_64
    ensures x % TWO_TO_64 == x
  {
  }

  /** Such a size: the instructions then start one byte before the augmentation data. */
  lemma SizeLeadsBack(r: Reader, debugFrame: bool, e: nat -> Result<uint8>, pos: nat, c: Source)
    requires r.frame.None? && |r.bytes| < TWO_TO_64 && LaidOut(r, pos, c) && c.flags.Some?
      && c.declared == TWO_TO_64 - 1
    ensures
      var cie := CieAt(SectionOf(r, debugFrame, e), pos);
      cie.Ok? && cie.value.instructionsOffset == HeadEnd(r, pos, c) + |EncodeUnsigned(c.declared)| - 1
  {
    hide LaidOut, Head, Data, CieAt, AugmentationOf, EncodeUnsigned, Encodable;
    CieParsed(r, debugFrame, e, pos, c);
    EndsInside(r, pos, c);
  }

  /** The size takes in the data of all flags, and ends in the record. */
  predicate WellSized(r: Reader, c: Source)
    requires Encodable(r, c)
  {
    c.flags.Some? ==> |Data(r, c.flags.value)| <= c.declared <= |Data(r, c.flags.value)| + |c.rest|
  }

  /** What stands behind the augmentation data. */
  function InstructionsOf(r: Reader, c: Source): seq<uint8>
    requires Encodable(r, c) && WellSized(r, c)
  {
    if c.flags.Some? then c.rest[c.declared - |Data(r, c.flags.value)|..] else c.rest
  }

  /**
   * For both word sizes, all versions, both byte orders and all flags in any order: parsing gives exactly the fields
   * that were laid out, and the instructions stand where it says.
   */
  lemma CieRoundTrip(r: Reader, debugFrame: bool, e: nat -> Result<uint8>, pos: nat, c: Source)
    requires r.frame.None? && |r.bytes| < TWO_TO_64 && LaidOut(r, pos, c) && WellSized(r, c)
    ensures
      var instructions := InstructionsOf(r, c);
      var cie := Cie(pos + LengthSizeOf(c.wide), |Body(r, c)|, c.id, c.version, c.factors, AugmentationOf(r, pos, c),
                     InstructionsAt(r, pos, c), |instructions|);
      && CieAt(SectionOf(r, debugFrame, e), pos) == Ok(cie)
      && Stands(r.bytes, InstructionsAt(r, pos, c), instructions)
  {
    hide LaidOut, Body, CieAt, AugmentationOf, InstructionsAt, InstructionsOf, Encodable, Stands, WellSized;
    CieParsed(r, debugFrame, e, pos, c);
    EndsInside(r, pos, c);
    InstructionsStand(r, pos, c);
    SmallRest(InstructionsAt(r, pos, c) - pos - LengthSizeOf(c.wide));
    SmallRest(InstructionsAt(r, pos, c));
  }

  lemma InstructionsStand(r: Reader, pos: nat, c: Source)
    requires LaidOut(r, pos, c) && WellSized(r, c)
    ensures Encodable(r, c) && Stands(r.bytes, InstructionsAt(r, pos, c), InstructionsOf(r, c))
    ensures InstructionsAt(r, pos, c) + |InstructionsOf(r, c)| == pos + LengthSizeOf(c.wide) + |Body(r, c)|
    ensures InstructionsAt(r, pos, c) >= pos + LengthSizeOf(c.wide)
  {
    hide LaidOut, Head, Data, EncodeUnsigned, Stands, FlagFits, IsCieId;
    EndsInside(r, pos, c);
    RestStands(r, pos, c);
    if c.flags.Some? {
      var n := c.declared - |Data(r, c.flags.value)|;
      assert c.rest == c.rest[..n] + c.rest[n..];
      StandsParts(r.bytes, HeadEnd(r, pos, c) + |Augmented(r, c)|, c.rest[..n], c.rest[n..]);
    }
  }

  lemma RestStands(r: Reader, pos: nat, c: Source)
    requires LaidOut(r, pos, c)
    ensures Stands(r.bytes, HeadEnd(r, pos, c) + |Augmented(r, c)|, c.rest)
  {
    hide LaidOut, Stands, Body, Head, Augmented;
    PartsStand(r, pos, c);
  }

  // The FDEs of a CIE

  /** The encoding that `fde_info_init` takes from the CIE at an address, for its own pointers. */
  function EncodingFrom(r: Reader, debugFrame: bool, address: nat): Result<uint8> {
    if address < r.base then Err(EINVAL)
    else
      match CieAt(SectionOf(r, debugFrame, (a: nat) => Err(ENOTSUP)), address - r.base)
      case Err(e) => Err(e)
      case Ok(c) =>
        var a := c.augmentation;
        Ok(if a.Some? && a.value.pointer.Some? then a.value.pointer.value else 0)
  }

  /** The section, with nothing left open: its CIEs are parsed, and its pointers read. */
  function FrameSection(r: Reader, debugFrame: bool): Section {
    SectionOf(r, debugFrame, (address: nat) => EncodingFrom(r, debugFrame, address))
  }

  /** The encoding that the last 'R' flag gives. */
  function LastEncoding(flags: seq<Flag>, encoding: Option<uint8>): Option<uint8> {
    if flags == [] then encoding
    else LastEncoding(flags[1..], if flags[0].PointerEncoding? then Some(flags[0].encoding) else encoding)
  }

  lemma {:induction false} MeaningHasEncoding(r: Reader, flags: seq<Flag>, at: nat, a: Augmentation)
    requires forall f <- flags :: FlagFits(r, f)
    ensures Meaning(r, flags, at, a).pointer == LastEncoding(flags, a.pointer)
    decreases flags
  {
    hide FlagFits, PersonalityAt, FlagData;
    if flags == [] {
      NoMeaning(r, at, a);
    } else {
      MeaningSteps(r, flags, at, a);
      MeaningOfOne(r, flags[0], at, a);
      MeaningHasEncoding(r, flags[1..], at + |FlagData(r, flags[0])|, Meaning(r, [flags[0]], at, a));
    }
  }

  /** The pointer encoding of a CIE's FDEs; without one, plain pointers. */
  function FdeEncoding(c: Source): uint8 {
    match if c.flags.Some? then LastEncoding(c.flags.value, None) else None
    case Some(encoding) => encoding
    case None => 0
  }

  lemma EncodingRead(r: Reader, debugFrame: bool, pos: nat, c: Source)
    requires r.frame.None? && |r.bytes| < TWO_TO_64 && LaidOut(r, pos, c) && WellSized(r, c)
    ensures EncodingFrom(r, debugFrame, r.base + pos) == Ok(FdeEncoding(c))
  {
    hide LaidOut, CieAt, Body, InstructionsAt, InstructionsOf, Stands, WellSized, Meaning, FlagFits, Encodable;
    EndsInside(r, pos, c);
    CieRoundTrip(r, debugFrame, (a: nat) => Err(ENOTSUP), pos, c);
    if c.flags.Some? {
      MeaningHasEncoding(r, c.flags.value, HeadEnd(r, pos, c) + |EncodeUnsigned(c.declared)|, NONE);
    }
  }

  /**
   * An FDE is read back through its CIE: all its fields, with the pointers in the encoding that the CIE's flags give.
   */
  lemma FdeWithCieRoundTrip(r: Reader, debugFrame: bool, ciePos: nat, c: Source, pos: nat, rec: Record)
    requires r.frame.None? && r.base <= ADDRESS_MAX && |r.bytes| < TWO_TO_64
    requires LaidOut(r, ciePos, c) && WellSized(r, c)
    requires FdeRecord.LaidOut(r, debugFrame, pos, rec) && rec.cie == r.base + ciePos && rec.encoding == FdeEncoding(c)
    ensures FdeAt(FrameSection(r, debugFrame), pos) == Ok(FieldsOf(r, debugFrame, pos, rec))
    ensures Stands(r.bytes, FieldsOf(r, debugFrame, pos, rec).instructionsOffset, rec.instructions)
  {
    hide LaidOut, FdeRecord.LaidOut, FdeAt, FieldsOf, Stands, EncodingFrom, FdeEncoding, WellSized;
    EncodingRead(r, debugFrame, ciePos, c);
    FdeRoundTrip(r, debugFrame, (address: nat) => EncodingFrom(r, debugFrame, address), pos, rec);
  }
}
