/** FDE records as DWARF 4 section 6.4.1 lays them out, and that `fde_info_init` reads every field of them back. */
module FdeRecord {
  import opened Bytes
  import opened Common
  import opened EhPointer
  import opened FdeScan
  import opened OpStreamClass

  /** The sizes of the initial length and of the word behind it, in 32-bit and in 64-bit DWARF. */
  function LengthSizeOf(wide: bool): nat {
    if wide then 12 else 4
  }

  function WordSizeOf(wide: bool): nat {
    if wide then 8 else 4
  }

  /** `start` and `range` are the values in the format of `encoding`, before a base is added. */
  datatype Record = Record(wide: bool, cie: nat, encoding: uint8, start: int, range: int, instructions: seq<uint8>)
  {
    function LengthSize(): nat {
      LengthSizeOf(wide)
    }

    function WordSize(): nat {
      WordSizeOf(wide)
    }

    /** The size of what stands before the pointers. */
    function HeadSize(): nat {
      LengthSize() + WordSize()
    }
  }

  /**
   * The section that a pointer reader without a frame section base reads. To such a reader only the sum of location and
   * offset matters, so all offsets are taken from the start of the section.
   */
  function SectionOf(r: Reader, debugFrame: bool, cieEncoding: nat -> Result<uint8>): Section {
    Section(r.base, r.bytes, r.bigEndian, debugFrame, cieEncoding,
            (p: nat, encoding: uint8) => ReadPointer(r, r.base, p, encoding))
  }

  /** The reference to the CIE: its offset in a debug_frame, the distance back to it in an eh_frame. */
  function CieReference(r: Reader, debugFrame: bool, pos: nat, rec: Record): int {
    if debugFrame then rec.cie - r.base else r.base + pos + rec.LengthSize() - rec.cie
  }

  function PointerCode(r: Reader, encoding: uint8, d: int): seq<uint8>
    requires Writable(r.wide, encoding, d)
  {
    Written(r.wide, encoding, d, r.bigEndian)
  }

  /** The start is relative to the base of its encoding; with DW_EH_PE_pcrel that is the address of its own field. */
  function PcStart(r: Reader, pos: nat, rec: Record): nat
    requires HasBase(r, rec.encoding)
  {
    (BaseAddress(r, r.base + pos + rec.HeadSize(), rec.encoding) + rec.start) % Range(r.wide)
  }

  /** The length is relative to nothing. */
  function PcLength(r: Reader, rec: Record): nat {
    rec.range % Range(r.wide)
  }

  /** What can be laid out at `pos`: every field fits its place, and the base of the encoding is known. */
  predicate Encodable(r: Reader, debugFrame: bool, pos: nat, rec: Record) {
    && IsDirect(rec.encoding) && HasBase(r, rec.encoding) && r.frame.None?
    && Writable(r.wide, rec.encoding, rec.start) && Writable(r.wide, rec.encoding, rec.range)
    && r.base <= rec.cie <= ADDRESS_MAX
    && 0 <= CieReference(r, debugFrame, pos, rec) < FieldLimit(rec.WordSize())
    && (debugFrame ==> CieReference(r, debugFrame, pos, rec) <= OFF_MAX)
    && PcStart(r, pos, rec) + PcLength(r, rec) <= UINT64_MAX
  }

  function Body(r: Reader, debugFrame: bool, pos: nat, rec: Record): seq<uint8>
    requires Encodable(r, debugFrame, pos, rec)
  {
    Field(CieReference(r, debugFrame, pos, rec), rec.WordSize(), r.bigEndian)
    + (PointerCode(r, rec.encoding, rec.start) + (PointerCode(r, rec.encoding, rec.range) + rec.instructions))
  }

  function LengthCode(wide: bool, length: nat, big: bool): seq<uint8> {
    if wide then Field(UINT32_MAX, 4, big) + Field(length, 8, big) else Field(length, 4, big)
  }

  /** Lengths from 2^32 - 1 on need the 64-bit form. */
  predicate LengthFits(wide: bool, length: nat) {
    length < if wide then TWO_TO_64 else UINT32_MAX
  }

  lemma LengthStands(s: Section, pos: nat, wide: bool, length: nat)
    requires LengthFits(wide, length) && Stands(s.bytes, pos, LengthCode(wide, length, s.bigEndian))
    ensures HeaderAt(s, pos) == Ok(Header(length, LengthSizeOf(wide), WordSizeOf(wide)))
  {
    hide UintAt, Stands, Field;
    if wide {
      StandsParts(s.bytes, pos, Field(UINT32_MAX, 4, s.bigEndian), Field(length, 8, s.bigEndian));
      UintStands(s.bytes, pos, UINT32_MAX, 4, s.bigEndian);
      UintStands(s.bytes, pos + 4, length, 8, s.bigEndian);
    } else {
      UintStands(s.bytes, pos, length, 4, s.bigEndian);
    }
  }

  lemma CieFound(r: Reader, debugFrame: bool, cieEncoding: nat -> Result<uint8>, pos: nat, rec: Record)
    requires Encodable(r, debugFrame, pos, rec)
    ensures
      var raw := CieReference(r, debugFrame, pos, rec);
      CieAddress(SectionOf(r, debugFrame, cieEncoding), pos, rec.LengthSize(), raw) == Ok(rec.cie)
  {
  }

  /** The range is written in the same format, relative to nothing. */
  lemma SameFormat(r: Reader, encoding: uint8, d: int)
    requires Writable(r.wide, encoding, d)
    ensures
      var only := EncodingOnly(encoding);
      && IsDirect(only) && HasBase(r, only) && Application(only) == 0
      && Writable(r.wide, only, d) && PointerCode(r, only, d) == PointerCode(r, encoding, d)
  {
    hide Field, Power;
  }

  lemma StartByBase(r: Reader, pos: nat, rec: Record)
    requires HasBase(r, rec.encoding)
    ensures
      var start := r.base + pos + if rec.wide then 20 else 8;
      && (Application(rec.encoding) == 0 ==> PcStart(r, pos, rec) == rec.start % Range(r.wide))
      && (Application(rec.encoding) == 1 ==> PcStart(r, pos, rec) == (start + rec.start) % Range(r.wide))
      && PcLength(r, rec) == rec.range % Range(r.wide)
  {
  }

  /** The pointers of a record: the start is relative to its own address, the range is not. */
  lemma PointersStand(r: Reader, debugFrame: bool, pos: nat, rec: Record)
    requires r.frame.None? && Encodable(r, debugFrame, pos, rec)
    requires
      Stands(r.bytes, pos + rec.HeadSize(),
             PointerCode(r, rec.encoding, rec.start) + PointerCode(r, rec.encoding, rec.range))
    ensures
      var at, size := pos + rec.HeadSize(), |PointerCode(r, rec.encoding, rec.start)|;
      && ReadPointer(r, r.base, at, rec.encoding) == Ok(Pointer(PcStart(r, pos, rec), size))
      && ReadPointer(r, r.base, at + size, EncodingOnly(rec.encoding))
         == Ok(Pointer(PcLength(r, rec), |PointerCode(r, rec.encoding, rec.range)|))
  {
    hide Stands, ReadPointer, Written, Writable, EncodingOnly, Application;
    var at := pos + rec.HeadSize();
    var start, range := PointerCode(r, rec.encoding, rec.start), PointerCode(r, rec.encoding, rec.range);
    StandsParts(r.bytes, at, start, range);
    PointerRoundTrip(r, r.base, at, rec.encoding, rec.start);
    SameFormat(r, rec.encoding, rec.range);
    PointerRoundTrip(r, r.base, at + |start|, EncodingOnly(rec.encoding), rec.range);
  }

  /** The record, laid out at `pos`. */
  ghost predicate LaidOut(r: Reader, debugFrame: bool, pos: nat, rec: Record) {
    && Encodable(r, debugFrame, pos, rec)
    && var body := Body(r, debugFrame, pos, rec);
       LengthFits(rec.wide, |body|) && Stands(r.bytes, pos, LengthCode(rec.wide, |body|, r.bigEndian) + body)
  }

  /** Its fields, one behind the other. */
  lemma PartsStand(r: Reader, debugFrame: bool, pos: nat, rec: Record)
    requires LaidOut(r, debugFrame, pos, rec)
    ensures
      var reference := Field(CieReference(r, debugFrame, pos, rec), rec.WordSize(), r.bigEndian);
      var pointers := PointerCode(r, rec.encoding, rec.start) + PointerCode(r, rec.encoding, rec.range);
      && Stands(r.bytes, pos, LengthCode(rec.wide, |Body(r, debugFrame, pos, rec)|, r.bigEndian))
      && Stands(r.bytes, pos + rec.LengthSize(), reference)
      && Stands(r.bytes, pos + rec.HeadSize(), pointers)
      && Stands(r.bytes, pos + rec.HeadSize() + |pointers|, rec.instructions)
      && |Body(r, debugFrame, pos, rec)| == rec.WordSize() + |pointers| + |rec.instructions|
  {
    hide Stands, LengthFits, Field, Writable, Written, HasBase, FieldLimit;
    var reference := Field(CieReference(r, debugFrame, pos, rec), rec.WordSize(), r.bigEndian);
    var pointers := PointerCode(r, rec.encoding, rec.start) + PointerCode(r, rec.encoding, rec.range);
    var body := Body(r, debugFrame, pos, rec);
    assert body == reference + (pointers + rec.instructions);
    StandsParts(r.bytes, pos, LengthCode(rec.wide, |body|, r.bigEndian), body);
    StandsParts(r.bytes, pos + rec.LengthSize(), reference, pointers + rec.instructions);
    StandsParts(r.bytes, pos + rec.HeadSize(), pointers, rec.instructions);
  }

  /** Parsing puts together what is read in the single places. */
  lemma ParsedFromParts(s: Section, pos: nat, h: Header, raw: nat, cie: nat, encoding: uint8, start: Pointer, range: Pointer)
    requires s.base <= ADDRESS_MAX && HeaderAt(s, pos) == Ok(h) && s.Uint(pos + h.lengthSize, h.wordSize) == Ok(raw)
    requires CieAddress(s, pos, h.lengthSize, raw) == Ok(cie) && s.cieEncoding(cie) == Ok(encoding)
    requires s.pointerAt(pos + h.lengthSize + h.wordSize, encoding) == Ok(start)
    requires s.pointerAt(pos + h.lengthSize + h.wordSize + start.size, EncodingOnly(encoding)) == Ok(range)
    ensures FdeAt(s, pos) == WithInstructions(s, pos, h, cie, start, range)
  {
    hide HeaderAt, Section.Uint, CieAddress, EncodingOnly, WithInstructions;
  }

  /** What the record says. */
  function FieldsOf(r: Reader, debugFrame: bool, pos: nat, rec: Record): Fde
    requires Encodable(r, debugFrame, pos, rec)
  {
    var length := |Body(r, debugFrame, pos, rec)|;
    var end: int := pos + rec.LengthSize() + length;
    Fde(pos + rec.LengthSize(), length, rec.cie - r.base, PcStart(r, pos, rec), PcStart(r, pos, rec) + PcLength(r, rec),
        end - |rec.instructions|, |rec.instructions|)
  }

  /**
   * For records in both kinds of sections, both word sizes, both byte orders and every pointer format: parsing gives
   * exactly the fields that were laid out, and the instructions stand where it says.
   */
  lemma FdeRoundTrip(r: Reader, debugFrame: bool, cieEncoding: nat -> Result<uint8>, pos: nat, rec: Record)
    requires r.frame.None? && r.base <= ADDRESS_MAX && LaidOut(r, debugFrame, pos, rec)
    requires cieEncoding(rec.cie) == Ok(rec.encoding)
    ensures FdeAt(SectionOf(r, debugFrame, cieEncoding), pos) == Ok(FieldsOf(r, debugFrame, pos, rec))
    ensures Stands(r.bytes, FieldsOf(r, debugFrame, pos, rec).instructionsOffset, rec.instructions)
    ensures
      var fde, start := FieldsOf(r, debugFrame, pos, rec), r.base + pos + if rec.wide then 20 else 8;
      && (Application(rec.encoding) == 0 ==> fde.pcStart == rec.start % Range(r.wide))
      && (Application(rec.encoding) == 1 ==> fde.pcStart == (start + rec.start) % Range(r.wide))
      && fde.pcEnd == fde.pcStart + rec.range % Range(r.wide)
  {
    hide Stands, Field, LengthCode, Written, Writable, ReadPointer, UintAt, Body, PcStart, PcLength, CieAddress, CieReference,
      HeaderAt, FdeAt, FieldLimit, Application, HasBase;
    var s := SectionOf(r, debugFrame, cieEncoding);
    PartsStand(r, debugFrame, pos, rec);
    var body := Body(r, debugFrame, pos, rec);
    LengthStands(s, pos, rec.wide, |body|);
    UintStands(r.bytes, pos + rec.LengthSize(), CieReference(r, debugFrame, pos, rec), rec.WordSize(), r.bigEndian);
    CieFound(r, debugFrame, cieEncoding, pos, rec);
    PointersStand(r, debugFrame, pos, rec);
    StartByBase(r, pos, rec);
    var start := Pointer(PcStart(r, pos, rec), |PointerCode(r, rec.encoding, rec.start)|);
    var range := Pointer(PcLength(r, rec), |PointerCode(r, rec.encoding, rec.range)|);
    ParsedFromParts(s, pos, Header(|body|, rec.LengthSize(), rec.WordSize()), CieReference(r, debugFrame, pos, rec),
                    rec.cie, rec.encoding, start, range);
  }
}
