/** Whole frame sections, entry after entry, and that the scan finds the FDE that a linker put there for a PC. */
module FrameSections {
  import opened Bytes
  import opened Common
  import opened EhPointer
  import opened FdeScan
  import opened FdeRecord
  import opened OpStreamClass
  import C = CieLayout

  datatype Entry = CieEntry(cie: C.Source) | FdeEntry(fde: Record)

  /** The id that marks a CIE: 0 in an eh_frame, all bits set in a debug_frame. */
  function CieMark(debugFrame: bool, wide: bool): nat {
    if !debugFrame then 0 else if wide then UINT64_MAX else UINT32_MAX
  }

  ghost predicate RefersTo(r: Reader, rec: Record, pos: nat, c: C.Source) {
    C.LaidOut(r, pos, c) && C.WellSized(r, c) && rec.cie == r.base + pos && rec.encoding == C.FdeEncoding(c)
  }

  /** The FDE refers to a CIE of the section. */
  ghost predicate HasCie(r: Reader, rec: Record) {
    exists pos: nat, c :: RefersTo(r, rec, pos, c)
  }

  ghost predicate EntryAt(r: Reader, debugFrame: bool, pos: nat, e: Entry) {
    match e
    case CieEntry(c) => C.LaidOut(r, pos, c) && c.id == CieMark(debugFrame, c.wide)
    case FdeEntry(rec) =>
      && LaidOut(r, debugFrame, pos, rec) && HasCie(r, rec)
      && CieReference(r, debugFrame, pos, rec) != CieMark(debugFrame, rec.wide)
  }

  function SizeOf(r: Reader, debugFrame: bool, pos: nat, e: Entry): nat
    requires e.CieEntry? ==> C.Encodable(r, e.cie)
    requires e.FdeEntry? ==> Encodable(r, debugFrame, pos, e.fde)
  {
    match e
    case CieEntry(c) => (if c.wide then 12 else 4) + |C.Body(r, c)|
    case FdeEntry(rec) => (if rec.wide then 12 else 4) + |Body(r, debugFrame, pos, rec)|
  }

  /** The entries stand one behind the other from `pos` on, up to the end of the section or a length of zero. */
  ghost predicate EntriesFrom(r: Reader, debugFrame: bool, pos: nat, entries: seq<Entry>)
    decreases entries
  {
    if entries == [] then pos == |r.bytes| || Stands(r.bytes, pos, [0, 0, 0, 0])
    else
      && EntryAt(r, debugFrame, pos, entries[0])
      && EntriesFrom(r, debugFrame, pos + SizeOf(r, debugFrame, pos, entries[0]), entries[1..])
  }

  /** The FDE's code begins at its start, and ends where its length has been added to it. */
  predicate IsCovering(r: Reader, pos: nat, rec: Record, pc: nat)
    requires HasBase(r, rec.encoding)
  {
    PcStart(r, pos, rec) <= pc < PcStart(r, pos, rec) + PcLength(r, rec)
  }

  /** The fields of the first FDE for code at `pc`. */
  ghost function FirstCovering(r: Reader, debugFrame: bool, pos: nat, entries: seq<Entry>, pc: nat): Option<Fde>
    requires EntriesFrom(r, debugFrame, pos, entries)
    decreases entries
  {
    if entries == [] then None
    else
      var e := entries[0];
      if e.FdeEntry? && IsCovering(r, pos, e.fde, pc) then Some(FieldsOf(r, debugFrame, pos, e.fde))
      else FirstCovering(r, debugFrame, pos + SizeOf(r, debugFrame, pos, e), entries[1..], pc)
  }

  /** The section fits the offsets and addresses that the source computes with. */
  predicate InMemory(r: Reader) {
    r.frame.None? && |r.bytes| <= OFF_MAX && r.base + |r.bytes| <= ADDRESS_MAX
  }

  lemma HeadRead(r: Reader, debugFrame: bool, pos: nat, wide: bool, length: nat, id: nat, body: seq<uint8>)
    requires InMemory(r) && 0 < length == |body| && LengthFits(wide, length) && id < FieldLimit(WordSizeOf(wide))
    requires Stands(r.bytes, pos, LengthCode(wide, length, r.bigEndian) + body)
    requires WordSizeOf(wide) <= |body| && body[..WordSizeOf(wide)] == Field(id, WordSizeOf(wide), r.bigEndian)
    ensures
      var s, h := C.FrameSection(r, debugFrame), Header(length, LengthSizeOf(wide), WordSizeOf(wide));
      && pos < |s.bytes| && s.base <= ADDRESS_MAX && HeaderAt(s, pos) == Ok(h)
      && NextEntry(s, pos, h) == Some(pos + h.lengthSize + length)
      && s.Uint(pos + h.lengthSize, h.wordSize) == Ok(id)
  {
    hide Field, FieldLimit, UintAt, HeaderAt, Stands;
    var s := C.FrameSection(r, debugFrame);
    var code, word := LengthCode(wide, length, r.bigEndian), Field(id, WordSizeOf(wide), r.bigEndian);
    StandsParts(r.bytes, pos, code, body);
    LengthStands(s, pos, wide, length);
    assert body == word + body[WordSizeOf(wide)..];
    StandsParts(r.bytes, pos + |code|, word, body[WordSizeOf(wide)..]);
    UintStands(r.bytes, pos + |code|, id, WordSizeOf(wide), r.bigEndian);
  }

  lemma CieStep(r: Reader, debugFrame: bool, pc: nat, pos: nat, c: C.Source)
    requires InMemory(r) && EntryAt(r, debugFrame, pos, CieEntry(c))
    ensures Step(C.FrameSection(r, debugFrame), pc, pos) == At(pos + SizeOf(r, debugFrame, pos, CieEntry(c)))
  {
    hide HeaderAt, Section.Uint, NextEntry, Field, C.Encodable, LengthFits, Stands, LengthCode, FdeAt;
    var body := C.Body(r, c);
    CieBody(r, c);
    HeadRead(r, debugFrame, pos, c.wide, |body|, c.id, body);
  }

  lemma CieBody(r: Reader, c: C.Source)
    requires C.Encodable(r, c)
    ensures
      var body, n := C.Body(r, c), WordSizeOf(c.wide);
      0 < n <= |body| && body[..n] == Field(c.id, n, r.bigEndian) && c.id < FieldLimit(n)
  {
    hide Field;
    var rest := [c.version] + (C.String(c) + (C.Sizes(c) + C.Numbers(r, c)));
    var word := Field(c.id, WordSizeOf(c.wide), r.bigEndian);
    assert C.Body(r, c) == word + (rest + (C.Augmented(r, c) + c.rest));
  }

  lemma FdeStep(r: Reader, debugFrame: bool, pc: nat, pos: nat, rec: Record)
    requires InMemory(r) && EntryAt(r, debugFrame, pos, FdeEntry(rec))
    ensures
      Step(C.FrameSection(r, debugFrame), pc, pos) ==
      if IsCovering(r, pos, rec, pc) then Found(FieldsOf(r, debugFrame, pos, rec))
      else At(pos + SizeOf(r, debugFrame, pos, FdeEntry(rec)))
  {
    hide HeaderAt, Section.Uint, NextEntry, Field, LengthFits, Stands, LengthCode, FdeAt, PcStart, PcLength,
      RefersTo;
    var body := Body(r, debugFrame, pos, rec);
    FdeBody(r, debugFrame, pos, rec);
    HeadRead(r, debugFrame, pos, rec.wide, |body|, CieReference(r, debugFrame, pos, rec), body);
    var ciePos: nat, c :| RefersTo(r, rec, ciePos, c);
    FdeReadBack(r, debugFrame, pos, rec, ciePos, c);
  }

  lemma FdeReadBack(r: Reader, debugFrame: bool, pos: nat, rec: Record, ciePos: nat, c: C.Source)
    requires InMemory(r) && LaidOut(r, debugFrame, pos, rec) && RefersTo(r, rec, ciePos, c)
    ensures FdeAt(C.FrameSection(r, debugFrame), pos) == Ok(FieldsOf(r, debugFrame, pos, rec))
  {
    hide C.LaidOut, LaidOut, FdeAt, FieldsOf, Stands;
    C.FdeWithCieRoundTrip(r, debugFrame, ciePos, c, pos, rec);
  }

  lemma FdeBody(r: Reader, debugFrame: bool, pos: nat, rec: Record)
    requires Encodable(r, debugFrame, pos, rec)
    ensures
      var body, n, id := Body(r, debugFrame, pos, rec), WordSizeOf(rec.wide), CieReference(r, debugFrame, pos, rec);
      0 < n <= |body| && 0 <= id < FieldLimit(n) && body[..n] == Field(id, n, r.bigEndian)
  {
    hide Field, Writable, Written;
  }

  lemma EndStep(r: Reader, debugFrame: bool, pc: nat, pos: nat)
    requires InMemory(r) && (pos == |r.bytes| || Stands(r.bytes, pos, [0, 0, 0, 0]))
    ensures Step(C.FrameSection(r, debugFrame), pc, pos) == Stopped(ENOTFOUND)
  {
    hide UintAt;
    if pos < |r.bytes| {
      var s := C.FrameSection(r, debugFrame);
      ZeroField(r.bigEndian);
      UintStands(r.bytes, pos, 0, 4, r.bigEndian);
      assert HeaderAt(s, pos) == Ok(Header(0, 4, 4));
    }
  }

  lemma ZeroField(big: bool)
    ensures Field(0, 4, big) == [0, 0, 0, 0]
  {
    assert Field(0, 1, big) == [0] && Field(0, 2, big) == [0, 0] && Field(0, 3, big) == [0, 0, 0];
  }

  /** The scan over the entries gives the first FDE for code at `pc`, and ENOTFOUND if there is none. */
  lemma {:induction false} ScanFinds(r: Reader, debugFrame: bool, pc: nat, pos: nat, entries: seq<Entry>, n: nat)
    requires InMemory(r) && EntriesFrom(r, debugFrame, pos, entries) && n > |entries|
    ensures
      var f := FirstCovering(r, debugFrame, pos, entries, pc);
      Run(C.FrameSection(r, debugFrame), pc, At(pos), n) == if f.Some? then Found(f.value) else Stopped(ENOTFOUND)
    decreases entries
  {
    hide Step, EntryAt, SizeOf, FieldsOf, IsCovering, C.FrameSection;
    var s := C.FrameSection(r, debugFrame);
    SectionBase(r, debugFrame);
    if entries == [] {
      EndStep(r, debugFrame, pc, pos);
      RunStays(s, pc, Stopped(ENOTFOUND), n - 1);
    } else {
      var e := entries[0];
      if e.CieEntry? {
        CieStep(r, debugFrame, pc, pos, e.cie);
      } else {
        FdeStep(r, debugFrame, pc, pos, e.fde);
      }
      var next := Step(s, pc, pos);
      if next.At? {
        ScanFinds(r, debugFrame, pc, next.pos, entries[1..], n - 1);
      } else {
        RunStays(s, pc, next, n - 1);
      }
    }
  }

  lemma SectionBase(r: Reader, debugFrame: bool)
    requires InMemory(r)
    ensures C.FrameSection(r, debugFrame).base == r.base <= ADDRESS_MAX
    ensures C.FrameSection(r, debugFrame).bytes == r.bytes
  {
  }

  lemma {:induction false} EntriesFit(r: Reader, debugFrame: bool, pos: nat, entries: seq<Entry>)
    requires EntriesFrom(r, debugFrame, pos, entries)
    ensures pos + |entries| <= |r.bytes|
    decreases entries
  {
    hide EntryAt;
    if entries != [] {
      EntryIsLarge(r, debugFrame, pos, entries[0]);
      EntriesFit(r, debugFrame, pos + SizeOf(r, debugFrame, pos, entries[0]), entries[1..]);
    }
  }

  lemma EntryIsLarge(r: Reader, debugFrame: bool, pos: nat, e: Entry)
    requires EntryAt(r, debugFrame, pos, e)
    ensures e.CieEntry? ==> C.Encodable(r, e.cie)
    ensures e.FdeEntry? ==> Encodable(r, debugFrame, pos, e.fde)
    ensures SizeOf(r, debugFrame, pos, e) > 0
  {
    hide C.Body, Body;
  }

  /** `find_fde` on such a section. */
  method FindInSection(r: Reader, debugFrame: bool, ghost entries: seq<Entry>, pc: nat) returns (found: Scan)
    requires InMemory(r) && EntriesFrom(r, debugFrame, 0, entries) && entries != []
    ensures
      var f := FirstCovering(r, debugFrame, 0, entries, pc);
      found == if f.Some? then Found(f.value) else Stopped(ENOTFOUND)
  {
    hide EntriesFrom, FirstCovering, Run;
    EntriesFit(r, debugFrame, 0, entries);
    ScanFinds(r, debugFrame, pc, 0, entries, |r.bytes| + 1);
    SectionBase(r, debugFrame);
    found := FindFde(C.FrameSection(r, debugFrame), 0, pc, |r.bytes| + 1);
  }
}
