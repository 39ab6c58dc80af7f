/**
 * `dwarf_frame_reader::find_fde` and `fde_info_init` over the bytes of an eh_frame or debug_frame section. Parsing a
 * CIE and reading a GNU-encoded pointer are parameters, for which module CieLayout puts in those of modules CieRecord
 * and EhPointer. Positions are relative to the section's base address.
 */
module FdeScan {
  import opened Bytes
  import opened Common
  import opened EhPointer
  import opened OpStreamClass

  datatype Section = Section(
    base: nat,
    bytes: seq<uint8>,
    bigEndian: bool,
    debugFrame: bool,
    /** The pointer encoding that the CIE at an address gives for its FDEs. */
    cieEncoding: nat -> Result<uint8>,
    pointerAt: (nat, uint8) -> Result<Pointer>)
  {
    function Uint(pos: int, size: nat): (r: Result<nat>)
      ensures if r.Ok? then 0 <= pos && pos + size <= |bytes| else r.error == EINVAL
    {
      if pos < 0 then Err(EINVAL)
      else
        match UintAt(bytes, pos, size, bigEndian)
        case None => Err(EINVAL)
        case Some(v) => Ok(v.value)
    }
  }

  /** The initial length of an entry, 32-bit or 64-bit. */
  datatype Header = Header(length: nat, lengthSize: nat, wordSize: nat)

  function HeaderAt(s: Section, pos: int): (r: Result<Header>)
    ensures r.Ok? ==> 0 <= pos && pos + r.value.lengthSize <= |s.bytes| && r.value.lengthSize > 0
  {
    match s.Uint(pos, 4)
    case Err(e) => Err(e)
    case Ok(length32) =>
      if length32 == UINT32_MAX then
        match s.Uint(pos + 4, 8)
        case Err(e) => Err(e)
        case Ok(length64) => Ok(Header(length64, 12, 8))
      else Ok(Header(length32, 4, 4))
  }

  /** The entry behind this one; the length goes through a signed 64-bit offset. */
  function NextEntry(s: Section, pos: nat, h: Header): Option<int> {
    var next := s.base + pos + h.lengthSize + ToSigned64(h.length);
    if 0 <= next <= ADDRESS_MAX then Some(next - s.base) else None
  }

  predicate IsCie(s: Section, wordSize: nat, id: nat) {
    if s.debugFrame then (wordSize == 8 && id == UINT64_MAX) || (wordSize == 4 && id == UINT32_MAX) else id == 0
  }

  datatype Fde = Fde(
    fdeOffset: nat,
    fdeLength: nat,
    cieOffset: nat,
    pcStart: nat,
    pcEnd: nat,
    instructionsOffset: nat,
    instructionsLength: nat)

  /** The address of the CIE: relative to the section in a debug_frame, backwards from here in an eh_frame. */
  function CieAddress(s: Section, pos: nat, lengthSize: nat, raw: nat): Result<nat>
    requires s.base <= ADDRESS_MAX
  {
    if s.debugFrame then
      if raw > OFF_MAX then Err(EINVAL)
      else match ApplyOffset(s.base, raw)
        case None => Err(EINVAL)
        case Some(a) => Ok(a)
    else if raw > s.base + pos + lengthSize then Err(EINVAL)
    else Ok(s.base + pos + lengthSize - raw)
  }

  /** `DW_EH_PE_MASK_ENCODING` */
  function EncodingOnly(encoding: uint8): uint8 {
    encoding % 0x10
  }

  /** The record after its address range has been read. */
  function WithInstructions(s: Section, pos: nat, h: Header, cie: nat, start: Pointer, range: Pointer): Result<Fde> {
    var fdeOffset := pos + h.lengthSize;
    var instructionsOffset := fdeOffset + h.wordSize + start.size + range.size;
    if UINT64_MAX - range.value < start.value then Err(EINVAL)
    else if h.length < instructionsOffset - fdeOffset then Err(EINVAL)
    else Ok(Fde(fdeOffset, h.length, (cie - s.base) % TWO_TO_64, start.value, start.value + range.value, instructionsOffset,
                h.length - (instructionsOffset - fdeOffset)))
  }

  /** The FDE at `pos`. */
  function FdeAt(s: Section, pos: nat): Result<Fde>
    requires s.base <= ADDRESS_MAX
  {
    match HeaderAt(s, pos)
    case Err(e) => Err(e)
    case Ok(h) =>
      match s.Uint(pos + h.lengthSize, h.wordSize)
      case Err(e) => Err(e)
      case Ok(raw) =>
        match CieAddress(s, pos, h.lengthSize, raw)
        case Err(e) => Err(e)
        case Ok(cie) =>
          match s.cieEncoding(cie)
          case Err(e) => Err(e)
          case Ok(encoding) =>
            var at := pos + h.lengthSize + h.wordSize;
            match s.pointerAt(at, encoding)
            case Err(e) => Err(e)
            case Ok(start) =>
              match s.pointerAt(at + start.size, EncodingOnly(encoding))
              case Err(e) => Err(e)
              case Ok(range) => WithInstructions(s, pos, h, cie, start, range)
  }

  /** `fde_info_init` */
  method FdeInfoInit(s: Section, fdePos: nat) returns (r: Result<Fde>)
    requires s.base <= ADDRESS_MAX
    ensures r == FdeAt(s, fdePos)
  {
    hide Section.Uint, CieAddress;
    var offset := 0;
    var length32 := s.Uint(fdePos + offset, 4);
    if length32.Err? {
      return Err(EINVAL);
    }
    offset := offset + 4;
    var wordSize, lengthSize, fdeLength := 4, 4, length32.value;
    if length32.value == UINT32_MAX {
      var length64 := s.Uint(fdePos + 4, 8);
      if length64.Err? {
        return Err(length64.error);
      }
      fdeLength := length64.value;
      lengthSize := 12;
      offset := offset + 8;
      wordSize := 8;
    }
    var fdeOffset := fdePos + lengthSize;
    var raw := s.Uint(fdePos + offset, wordSize);
    if raw.Err? {
      return Err(raw.error);
    }
    offset := offset + wordSize;
    var cie := CieAddress(s, fdePos, lengthSize, raw.value);
    if cie.Err? {
      return Err(cie.error);
    }
    var encoding := s.cieEncoding(cie.value);
    if encoding.Err? {
      return Err(encoding.error);
    }
    var start := s.pointerAt(fdePos + offset, encoding.value);
    if start.Err? {
      return Err(start.error);
    }
    offset := offset + start.value.size;
    var range := s.pointerAt(fdePos + offset, EncodingOnly(encoding.value));
    if range.Err? {
      return Err(range.error);
    }
    if UINT64_MAX - range.value.value < start.value.value {
      return Err(EINVAL);
    }
    offset := offset + range.value.size;
    var instructionsOffset := fdePos + offset;
    if fdeLength < instructionsOffset - fdeOffset {
      return Err(EINVAL);
    }
    return Ok(Fde(fdeOffset, fdeLength, (cie.value - s.base) % TWO_TO_64, start.value.value,
                  start.value.value + range.value.value, instructionsOffset,
                  fdeLength - (instructionsOffset - fdeOffset)));
  }

  /** The address that the reference in an FDE leads to, if there is one. */
  function ReferredTo(s: Section, pos: nat, lengthSize: nat, reference: nat): Option<nat> {
    var address: int := if s.debugFrame then s.base + reference else s.base + pos + lengthSize - reference;
    if s.debugFrame && reference > OFF_MAX then None
    else if 0 <= address && (s.debugFrame ==> address <= ADDRESS_MAX) then Some(address)
    else None
  }

  /** What an FDE is refused with: the first thing that cannot be read, or numbers that do not fit. */
  lemma FdeRefused(s: Section, pos: nat)
    requires s.base <= ADDRESS_MAX
    ensures HeaderAt(s, pos).Err? ==> FdeAt(s, pos) == Err(EINVAL)
    ensures HeaderAt(s, pos).Ok? ==>
      var h := HeaderAt(s, pos).value;
      var raw := s.Uint(pos + h.lengthSize, h.wordSize);
      var cie := if raw.Ok? then ReferredTo(s, pos, h.lengthSize, raw.value) else None;
      if cie.None? then FdeAt(s, pos) == Err(EINVAL)
      else
        var encoding := s.cieEncoding(cie.value);
        if encoding.Err? then FdeAt(s, pos) == Err(encoding.error)
        else
          var at := pos + h.lengthSize + h.wordSize;
          var start := s.pointerAt(at, encoding.value);
          if start.Err? then FdeAt(s, pos) == Err(start.error)
          else
            var range := s.pointerAt(at + start.value.size, encoding.value % 0x10);
            if range.Err? then FdeAt(s, pos) == Err(range.error)
            else
              if start.value.value + range.value.value > UINT64_MAX
                 || h.length < h.wordSize + start.value.size + range.value.size
              then FdeAt(s, pos) == Err(EINVAL)
              else FdeAt(s, pos).Ok?
  {
    hide Section.Uint;
    HeaderError(s, pos);
  }

  lemma HeaderError(s: Section, pos: nat)
    ensures HeaderAt(s, pos).Err? ==> HeaderAt(s, pos).error == EINVAL
  {
    hide UintAt;
  }

  datatype Scan = At(pos: int) | Found(fde: Fde) | Stopped(error: Error)

  predicate Covers(fde: Fde, pc: nat) {
    fde.pcStart <= pc < fde.pcEnd
  }

  /** One iteration of the scan. */
  function Step(s: Section, pc: nat, pos: int): Scan
    requires s.base <= ADDRESS_MAX
  {
    if pos >= |s.bytes| then Stopped(ENOTFOUND)
    else
      match HeaderAt(s, pos)
      case Err(_) => Stopped(EINVAL)
      case Ok(h) =>
        if h.length == 0 then Stopped(ENOTFOUND)
        else
          match NextEntry(s, pos, h)
          case None => Stopped(EINVAL)
          case Some(next) =>
            match s.Uint(pos + h.lengthSize, h.wordSize)
            case Err(_) => Stopped(EINVAL)
            case Ok(id) =>
              if IsCie(s, h.wordSize, id) then At(next)
              else
                match FdeAt(s, pos)
                case Err(e) => Stopped(e)
                case Ok(fde) => if Covers(fde, pc) then Found(fde) else At(next)
  }

  function Run(s: Section, pc: nat, scan: Scan, n: nat): Scan
    requires s.base <= ADDRESS_MAX
    decreases n
  {
    if n == 0 || !scan.At? then scan else Run(s, pc, Step(s, pc, scan.pos), n - 1)
  }

  /** `find_fde`, at most `fuel` entries: lengths above PL_VM_OFF_MAX can lead backwards. */
  method FindFde(s: Section, offset: int, pc: nat, fuel: nat) returns (r: Scan)
    requires s.base + |s.bytes| <= ADDRESS_MAX
    ensures r ==
      if offset >= |s.bytes| || ApplyOffset(s.base, offset).None? then Stopped(EINVAL) else Run(s, pc, At(offset), fuel)
  {
    hide HeaderAt, FdeAt, Section.Uint;
    var entry := ApplyOffset(s.base, offset);
    if entry.None? || entry.value >= s.base + |s.bytes| {
      return Stopped(EINVAL);
    }
    var pos := offset;
    var n := 0;
    while pos < |s.bytes| && n < fuel
      invariant n <= fuel && Run(s, pc, At(offset), fuel) == Run(s, pc, At(pos), fuel - n)
      decreases fuel - n
    {
      var h := HeaderAt(s, pos);
      if h.Err? {
        return Stopped(EINVAL);
      }
      if h.value.length == 0 {
        return Stopped(ENOTFOUND);
      }
      var next := NextEntry(s, pos, h.value);
      if next.None? {
        return Stopped(EINVAL);
      }
      var id := s.Uint(pos + h.value.lengthSize, h.value.wordSize);
      if id.Err? {
        return Stopped(EINVAL);
      }
      n := n + 1;
      if IsCie(s, h.value.wordSize, id.value) {
        pos := next.value;
        continue;
      }
      var fde := FdeInfoInit(s, pos);
      if fde.Err? {
        return Stopped(fde.error);
      }
      if fde.value.pcStart <= pc && pc < fde.value.pcEnd {
        return Found(fde.value);
      }
      pos := next.value;
    }
    return if n == fuel then At(pos) else Stopped(ENOTFOUND);
  }

  // What the scan finds

  /** The entry at `pos` can be read as far as its id, and it does not end the section. */
  predicate IsEntry(s: Section, pos: int) {
    && pos < |s.bytes| && HeaderAt(s, pos).Ok?
    && var h := HeaderAt(s, pos).value;
       h.length != 0 && NextEntry(s, pos, h).Some? && s.Uint(pos + h.lengthSize, h.wordSize).Ok?
  }

  function Successor(s: Section, pos: int): int
    requires IsEntry(s, pos)
  {
    NextEntry(s, pos, HeaderAt(s, pos).value).value
  }

  predicate IsFde(s: Section, pos: int) {
    IsEntry(s, pos)
    && var h := HeaderAt(s, pos).value;
       !IsCie(s, h.wordSize, s.Uint(pos + h.lengthSize, h.wordSize).value)
  }

  /** An entry that the scan goes past: a CIE, or an FDE for other code. */
  predicate Passed(s: Section, pc: nat, pos: int)
    requires s.base <= ADDRESS_MAX
  {
    IsEntry(s, pos) && (IsFde(s, pos) ==> FdeAt(s, pos).Ok? && !Covers(FdeAt(s, pos).value, pc))
  }

  /** The entries from `trail[0]` on, each behind the one before; all but the last have been passed. */
  ghost predicate Trail(s: Section, pc: nat, trail: seq<int>)
    requires s.base <= ADDRESS_MAX
  {
    trail != [] && forall i :: 0 <= i < |trail| - 1 ==>
      Passed(s, pc, trail[i]) && trail[i + 1] == Successor(s, trail[i])
  }

  /** What the last entry of a trail makes of the scan. */
  ghost predicate Decides(s: Section, pc: nat, pos: int, r: Scan)
    requires s.base <= ADDRESS_MAX
  {
    match r
    case At(_) => false
    case Found(fde) => IsFde(s, pos) && FdeAt(s, pos) == Ok(fde) && Covers(fde, pc)
    case Stopped(e) =>
      if pos >= |s.bytes| || (HeaderAt(s, pos).Ok? && HeaderAt(s, pos).value.length == 0) then e == ENOTFOUND
      else if !IsEntry(s, pos) then e == EINVAL
      else IsFde(s, pos) && FdeAt(s, pos) == Err(e)
  }

  lemma StepDecides(s: Section, pc: nat, pos: int)
    requires s.base <= ADDRESS_MAX
    ensures Passed(s, pc, pos) <==> Step(s, pc, pos).At?
    ensures Passed(s, pc, pos) ==> Step(s, pc, pos) == At(Successor(s, pos))
    ensures forall r :: Decides(s, pc, pos, r) <==> !r.At? && r == Step(s, pc, pos)
  {
    hide HeaderAt, FdeAt, Section.Uint, NextEntry, IsCie;
  }

  /** The trail that a run leaves decides it, and a trail whose last entry decides is what the run follows. */
  lemma {:induction false} RunFollowsTrail(s: Section, pc: nat, trail: seq<int>, r: Scan, n: nat)
    requires s.base <= ADDRESS_MAX && Trail(s, pc, trail) && Decides(s, pc, trail[|trail| - 1], r) && n >= |trail|
    ensures Run(s, pc, At(trail[0]), n) == r
    decreases trail
  {
    hide Step, Passed, Decides, Successor;
    StepDecides(s, pc, trail[0]);
    if |trail| > 1 {
      RunFollowsTrail(s, pc, trail[1..], r, n - 1);
    } else {
      RunStays(s, pc, r, n - 1);
    }
  }

  lemma RunStays(s: Section, pc: nat, r: Scan, n: nat)
    requires s.base <= ADDRESS_MAX && !r.At?
    ensures Run(s, pc, r, n) == r
  {
  }

  lemma {:induction false} RunHasTrail(s: Section, pc: nat, pos: int, n: nat) returns (trail: seq<int>)
    requires s.base <= ADDRESS_MAX && !Run(s, pc, At(pos), n).At?
    ensures trail != [] && Trail(s, pc, trail) && trail[0] == pos && |trail| <= n
    ensures Decides(s, pc, trail[|trail| - 1], Run(s, pc, At(pos), n))
    decreases n
  {
    hide Step, Passed, Decides, Successor;
    StepDecides(s, pc, pos);
    var next := Step(s, pc, pos);
    if next.At? {
      var rest := RunHasTrail(s, pc, next.pos, n - 1);
      trail := [pos] + rest;
    } else {
      RunStays(s, pc, next, n - 1);
      trail := [pos];
    }
  }

  /** An entry that leads back, or to itself. */
  predicate GoesBack(s: Section, pos: int) {
    IsEntry(s, pos) && Successor(s, pos) <= pos
  }

  lemma HeaderBounds(s: Section, pos: int)
    requires HeaderAt(s, pos).Ok?
    ensures HeaderAt(s, pos).value.length < TWO_TO_64 && HeaderAt(s, pos).value.lengthSize <= 12
  {
    hide Section.Uint;
    UintBound(s, pos, 4);
    if s.Uint(pos, 4).value == UINT32_MAX {
      UintBound(s, pos + 4, 8);
    }
  }

  lemma UintBound(s: Section, pos: int, size: nat)
    requires size in {1, 2, 4, 8} && s.Uint(pos, size).Ok?
    ensures s.Uint(pos, size).value < FieldLimit(size)
  {
    hide LittleEndian, BigEndian, Power, FieldLimit;
    PowerIsLimit(size);
    FieldBound(s.bytes[pos..pos + size]);
  }

  /** It takes a length above PL_VM_OFF_MAX, and one that brings the offset back over the length field. */
  lemma GoesBackIff(s: Section, pos: int)
    requires IsEntry(s, pos)
    ensures
      var h := HeaderAt(s, pos).value;
      GoesBack(s, pos) <==> h.length > OFF_MAX && h.length + h.lengthSize <= TWO_TO_64
  {
    hide Section.Uint, HeaderAt;
    HeaderBounds(s, pos);
  }

  /** The scan comes to an entry that leads back within `n` steps. */
  ghost predicate MeetsBackwardEntry(s: Section, pc: nat, pos: int, n: nat)
    requires s.base <= ADDRESS_MAX
  {
    exists m: nat :: m < n && Run(s, pc, At(pos), m).At? && GoesBack(s, Run(s, pc, At(pos), m).pos)
  }

  lemma MeetsLater(s: Section, pc: nat, pos: int, n: nat)
    requires s.base <= ADDRESS_MAX && Step(s, pc, pos).At? && MeetsBackwardEntry(s, pc, Step(s, pc, pos).pos, n)
    ensures MeetsBackwardEntry(s, pc, pos, n + 1)
  {
    hide Step, GoesBack;
    var next := Step(s, pc, pos);
    var m: nat :| m < n && Run(s, pc, next, m).At? && GoesBack(s, Run(s, pc, next, m).pos);
    assert Run(s, pc, At(pos), m + 1) == Run(s, pc, next, m);
  }

  /** The scan ends within one step per byte and one more, unless it comes to an entry that leads back. */
  lemma {:induction false} ScanEnds(s: Section, pc: nat, pos: int)
    requires s.base <= ADDRESS_MAX
    ensures
      var n := if 0 <= pos <= |s.bytes| then |s.bytes| - pos + 1 else 1;
      !Run(s, pc, At(pos), n).At? || MeetsBackwardEntry(s, pc, pos, n)
    decreases |s.bytes| - pos
  {
    hide Step, HeaderAt, FdeAt, Section.Uint, NextEntry, IsEntry, Successor, MeetsBackwardEntry;
    StepDecides(s, pc, pos);
    var next := Step(s, pc, pos);
    if !next.At? {
      RunStays(s, pc, next, if 0 <= pos <= |s.bytes| then |s.bytes| - pos else 0);
    } else {
      EntryInside(s, pos);
      if GoesBack(s, pos) {
        BackwardHere(s, pc, pos, |s.bytes| - pos + 1);
      } else {
        ScanEnds(s, pc, next.pos);
        var m := if next.pos <= |s.bytes| then |s.bytes| - next.pos + 1 else 1;
        if MeetsBackwardEntry(s, pc, next.pos, m) {
          MeetsLater(s, pc, pos, m);
          MeetsMore(s, pc, pos, m + 1, |s.bytes| - pos + 1);
        } else {
          RunMore(s, pc, next, m, |s.bytes| - pos);
        }
      }
    }
  }

  lemma EntryInside(s: Section, pos: int)
    requires IsEntry(s, pos)
    ensures 0 <= pos < |s.bytes|
  {
    hide Section.Uint;
  }

  lemma BackwardHere(s: Section, pc: nat, pos: int, n: nat)
    requires s.base <= ADDRESS_MAX && GoesBack(s, pos) && n > 0
    ensures MeetsBackwardEntry(s, pc, pos, n)
  {
    hide Step, GoesBack;
    assert Run(s, pc, At(pos), 0) == At(pos);
  }

  lemma MeetsMore(s: Section, pc: nat, pos: int, m: nat, n: nat)
    requires s.base <= ADDRESS_MAX && m <= n && MeetsBackwardEntry(s, pc, pos, m)
    ensures MeetsBackwardEntry(s, pc, pos, n)
  {
    hide Step, GoesBack, Run;
  }

  lemma {:induction false} RunMore(s: Section, pc: nat, scan: Scan, m: nat, n: nat)
    requires s.base <= ADDRESS_MAX && m <= n && !Run(s, pc, scan, m).At?
    ensures Run(s, pc, scan, n) == Run(s, pc, scan, m)
    decreases m
  {
    hide Step;
    if scan.At? {
      RunMore(s, pc, Step(s, pc, scan.pos), m - 1, n - 1);
    } else {
      RunStays(s, pc, scan, n);
    }
  }

  lemma {:induction false} RunPlus(s: Section, pc: nat, scan: Scan, m: nat, n: nat)
    requires s.base <= ADDRESS_MAX
    ensures Run(s, pc, scan, m + n) == Run(s, pc, Run(s, pc, scan, m), n)
    decreases m
  {
    hide Step;
    if !scan.At? {
      RunStays(s, pc, scan, m + n);
      RunStays(s, pc, scan, m);
      RunStays(s, pc, scan, n);
    } else if m > 0 {
      RunPlus(s, pc, Step(s, pc, scan.pos), m - 1, n);
    }
  }

  /** A scan that comes back to where it was never ends. */
  lemma {:induction false} CycleStays(s: Section, pc: nat, scan: Scan, p: nat, n: nat)
    requires s.base <= ADDRESS_MAX && scan.At? && p > 0 && Run(s, pc, scan, p) == scan
    ensures Run(s, pc, scan, n).At?
    decreases n
  {
    hide Step, Run;
    if n >= p {
      RunPlus(s, pc, scan, p, n - p);
      CycleStays(s, pc, scan, p, n - p);
    } else if !Run(s, pc, scan, n).At? {
      RunMore(s, pc, scan, n, p);
    }
  }

  /** As long as the scan goes on it stands on an entry of the section. */
  lemma StandsInside(s: Section, pc: nat, pos: int, k: nat)
    requires s.base <= ADDRESS_MAX && Run(s, pc, At(pos), k + 1).At?
    ensures Run(s, pc, At(pos), k).At? && 0 <= Run(s, pc, At(pos), k).pos < |s.bytes|
  {
    hide Step, IsEntry;
    if !Run(s, pc, At(pos), k).At? {
      RunMore(s, pc, At(pos), k, k + 1);
    }
    RunPlus(s, pc, At(pos), k, 1);
    var at := Run(s, pc, At(pos), k).pos;
    StepDecides(s, pc, at);
    assert Run(s, pc, At(at), 1) == Step(s, pc, at);
    EntryInside(s, at);
  }

  lemma {:induction false} Positions(s: Section, pc: nat, pos: int, n: nat) returns (ps: seq<nat>)
    requires s.base <= ADDRESS_MAX && Run(s, pc, At(pos), n).At?
    ensures |ps| == n && forall k: nat :: k < n ==> ps[k] < |s.bytes| && Run(s, pc, At(pos), k) == At(ps[k])
  {
    hide Run;
    ps := [];
    if n > 0 {
      StandsInside(s, pc, pos, n - 1);
      ps := Positions(s, pc, pos, n - 1);
      ps := ps + [Run(s, pc, At(pos), n - 1).pos];
    }
  }

  /**
   * The scan depends on its position alone, so it ends if and only if it has ended after one step per byte and one
   * more: otherwise it has been somewhere twice by then, and goes round for ever.
   */
  lemma ScanEndsIff(s: Section, pc: nat, pos: int)
    requires s.base <= ADDRESS_MAX
    ensures (exists n: nat :: !Run(s, pc, At(pos), n).At?) <==> !Run(s, pc, At(pos), |s.bytes| + 1).At?
  {
    hide Run;
    var m := |s.bytes| + 1;
    if Run(s, pc, At(pos), m).At? {
      var ps := Positions(s, pc, pos, m);
      if Distinct(ps) {
        DistinctBounded(ps, |s.bytes|);
      }
      var i: nat, j: nat :| i < j < m && ps[i] == ps[j];
      RunPlus(s, pc, At(pos), i, j - i);
      forall n: nat ensures Run(s, pc, At(pos), n).At? {
        NeverEnds(s, pc, pos, i, j - i, n);
      }
    }
  }

  lemma NeverEnds(s: Section, pc: nat, pos: int, i: nat, p: nat, n: nat)
    requires s.base <= ADDRESS_MAX && p > 0 && Run(s, pc, At(pos), i).At?
    requires Run(s, pc, Run(s, pc, At(pos), i), p) == Run(s, pc, At(pos), i)
    ensures Run(s, pc, At(pos), n).At?
  {
    hide Run;
    CycleStays(s, pc, Run(s, pc, At(pos), i), p, n);
    RunPlus(s, pc, At(pos), i, n);
    if !Run(s, pc, At(pos), n).At? {
      RunMore(s, pc, At(pos), n, i + n);
    }
  }

  /** The scan from `from` ends with `r`, in however many steps. */
  ghost predicate EndsWith(s: Section, pc: nat, from: int, r: Scan)
    requires s.base <= ADDRESS_MAX
  {
    exists n: nat :: Run(s, pc, At(from), n) == r
  }

  /**
   * The entries from `from` to the one at the end of the trail, none of which but the last can have stopped the scan.
   */
  ghost predicate TrailFrom(s: Section, pc: nat, from: int, trail: seq<int>)
    requires s.base <= ADDRESS_MAX
  {
    trail != [] && Trail(s, pc, trail) && trail[0] == from
  }

  /** The scan ends with exactly what the last entry of a trail makes of it. */
  lemma ScanDecided(s: Section, pc: nat, from: int, r: Scan)
    requires s.base <= ADDRESS_MAX && !r.At?
    ensures
      EndsWith(s, pc, from, r) <==>
      exists trail :: TrailFrom(s, pc, from, trail) && Decides(s, pc, trail[|trail| - 1], r)
  {
    hide Run, Trail, Decides;
    if n: nat :| Run(s, pc, At(from), n) == r {
      var trail := RunHasTrail(s, pc, from, n);
      assert TrailFrom(s, pc, from, trail);
    }
    if trail :| TrailFrom(s, pc, from, trail) && Decides(s, pc, trail[|trail| - 1], r) {
      RunFollowsTrail(s, pc, trail, r, |trail|);
    }
  }

  /**
   * The scan returns an FDE if and only if it is the first one from the start on that covers `pc`, with nothing
   * before it that ends the section or cannot be parsed.
   */
  lemma FindsFirst(s: Section, pc: nat, from: int, fde: Fde)
    requires s.base <= ADDRESS_MAX
    ensures
      EndsWith(s, pc, from, Found(fde)) <==>
      exists trail :: TrailFrom(s, pc, from, trail) && IsCoveringFde(s, pc, trail[|trail| - 1], fde)
  {
    hide Trail, IsFde, FdeAt, Covers, EndsWith;
    ScanDecided(s, pc, from, Found(fde));
    forall trail | TrailFrom(s, pc, from, trail)
      ensures Decides(s, pc, trail[|trail| - 1], Found(fde)) <==> IsCoveringFde(s, pc, trail[|trail| - 1], fde)
    {
    }
  }

  predicate IsCoveringFde(s: Section, pc: nat, pos: int, fde: Fde)
    requires s.base <= ADDRESS_MAX
  {
    IsFde(s, pos) && FdeAt(s, pos) == Ok(fde) && Covers(fde, pc)
  }

  /** The end of the section, its terminator, or an FDE whose parsing finds no pointer (DW_EH_PE_omit). */
  predicate EndsUnfound(s: Section, pos: int)
    requires s.base <= ADDRESS_MAX
  {
    || pos >= |s.bytes|
    || (HeaderAt(s, pos).Ok? && HeaderAt(s, pos).value.length == 0)
    || (IsFde(s, pos) && FdeAt(s, pos) == Err(ENOTFOUND))
  }

  /**
   * ENOTFOUND comes if and only if no FDE covers `pc` up to the end of the section or its terminator, or up to an FDE
   * whose own pointer is omitted.
   */
  lemma NotFoundIff(s: Section, pc: nat, from: int)
    requires s.base <= ADDRESS_MAX
    ensures
      EndsWith(s, pc, from, Stopped(ENOTFOUND)) <==>
      exists trail :: TrailFrom(s, pc, from, trail) && EndsUnfound(s, trail[|trail| - 1])
  {
    hide Trail, IsFde, FdeAt, EndsWith, HeaderAt;
    ScanDecided(s, pc, from, Stopped(ENOTFOUND));
    forall trail | TrailFrom(s, pc, from, trail)
      ensures Decides(s, pc, trail[|trail| - 1], Stopped(ENOTFOUND)) <==> EndsUnfound(s, trail[|trail| - 1])
    {
      UnfoundDecides(s, pc, trail[|trail| - 1]);
    }
  }

  lemma UnfoundDecides(s: Section, pc: nat, pos: int)
    requires s.base <= ADDRESS_MAX
    ensures Decides(s, pc, pos, Stopped(ENOTFOUND)) <==> EndsUnfound(s, pos)
  {
    hide FdeAt, HeaderAt, Section.Uint, NextEntry, IsCie;
  }

  /** The instructions of an FDE end exactly where the next entry begins, if and only if its length fits an offset. */
  lemma InstructionsEndAtNext(s: Section, pos: int)
    requires s.base <= ADDRESS_MAX && IsFde(s, pos) && FdeAt(s, pos).Ok?
    ensures
      var fde := FdeAt(s, pos).value;
      && pos < fde.instructionsOffset
      && (fde.instructionsOffset + fde.instructionsLength == Successor(s, pos)
          <==> HeaderAt(s, pos).value.length <= OFF_MAX)
  {
    hide Section.Uint, CieAddress, IsCie;
    HeaderBounds(s, pos);
  }

  lemma {:induction false} TrailGrows(s: Section, pc: nat, trail: seq<int>, i: nat, j: nat)
    requires s.base <= ADDRESS_MAX && Trail(s, pc, trail) && i < j < |trail|
    requires forall k :: i < k < j ==> !GoesBack(s, trail[k])
    ensures Successor(s, trail[i]) <= trail[j]
    decreases j - i
  {
    hide HeaderAt, FdeAt, Section.Uint, NextEntry, IsCie;
    if i + 1 < j {
      TrailGrows(s, pc, trail, i + 1, j);
    }
  }

  /**
   * So the instruction ranges of different entries do not overlap, if no entry from the one to the other leads back.
   */
  lemma InstructionsDisjoint(s: Section, pc: nat, trail: seq<int>, i: nat, j: nat)
    requires s.base <= ADDRESS_MAX && Trail(s, pc, trail) && i < j < |trail|
    requires IsFde(s, trail[i]) && FdeAt(s, trail[i]).Ok? && IsFde(s, trail[j]) && FdeAt(s, trail[j]).Ok?
    requires HeaderAt(s, trail[i]).value.length <= OFF_MAX && forall k :: i < k < j ==> !GoesBack(s, trail[k])
    ensures
      var a, b := FdeAt(s, trail[i]).value, FdeAt(s, trail[j]).value;
      a.instructionsOffset + a.instructionsLength < b.instructionsOffset
  {
    hide HeaderAt, FdeAt, Section.Uint, NextEntry, IsCie;
    InstructionsEndAtNext(s, trail[i]);
    InstructionsEndAtNext(s, trail[j]);
    TrailGrows(s, pc, trail, i, j);
  }

  /** Without the bound the scan need not end: a CIE of length 2^64 - 12 is its own successor. */
  lemma {:induction false} ScanCanLoop(s: Section, pc: nat, pos: nat, n: nat)
    requires s.base + |s.bytes| <= ADDRESS_MAX && pos < |s.bytes|
      && HeaderAt(s, pos) == Ok(Header(TWO_TO_64 - 12, 12, 8))
    requires s.Uint(pos + 12, 8).Ok? && IsCie(s, 8, s.Uint(pos + 12, 8).value)
    ensures Run(s, pc, At(pos), n) == At(pos)
  {
    hide HeaderAt, FdeAt, Section.Uint;
    if n > 0 {
      ScanCanLoop(s, pc, pos, n - 1);
    }
  }

  /** Such a section: the escape, the length and the id of a CIE. */
  function LoopingBytes(): seq<uint8> {
    [0xFF, 0xFF, 0xFF, 0xFF] + Field(TWO_TO_64 - 12, 8, false) + Field(0, 8, false)
  }

  lemma LoopingSectionLoops(s: Section, pc: nat, n: nat)
    requires s.base <= ADDRESS_MAX - 20 && s.bytes == LoopingBytes() && !s.bigEndian && !s.debugFrame
    ensures Run(s, pc, At(0), n) == At(0)
  {
    hide HeaderAt, Section.Uint;
    LoopingHeader(s);
    ScanCanLoop(s, pc, 0, n);
  }

  lemma LoopingHeader(s: Section)
    requires s.bytes == LoopingBytes() && !s.bigEndian
    ensures |s.bytes| == 20 && HeaderAt(s, 0) == Ok(Header(TWO_TO_64 - 12, 12, 8)) && s.Uint(12, 8) == Ok(0)
  {
    hide UintAt, Field;
    var escape: seq<uint8> := [0xFF, 0xFF, 0xFF, 0xFF];
    EscapeIsField();
    assert s.bytes[0..4] == escape && s.bytes[4..12] == Field(TWO_TO_64 - 12, 8, false);
    assert s.bytes[12..20] == Field(0, 8, false);
    UintStands(s.bytes, 0, UINT32_MAX, 4, false);
    UintStands(s.bytes, 4, TWO_TO_64 - 12, 8, false);
    UintStands(s.bytes, 12, 0, 8, false);
  }

  lemma EscapeIsField()
    ensures Field(UINT32_MAX, 4, false) == [0xFF, 0xFF, 0xFF, 0xFF]
  {
    assert Field(0, 0, false) == [];
    assert Field(0xFF, 1, false) == [0xFF];
    assert Field(0xFFFF, 2, false) == [0xFF, 0xFF];
    assert Field(0xFF_FFFF, 3, false) == [0xFF, 0xFF, 0xFF];
  }

  /** A pointer reader that finds no pointer where the encoding is DW_EH_PE_omit, and reads words otherwise. */
  function WordReader(bytes: seq<uint8>): (nat, uint8) -> Result<Pointer> {
    (pos: nat, encoding: uint8) =>
      if encoding == OMIT then Err(ENOTFOUND)
      else if UintAt(bytes, pos, 4, false).Some? then Ok(Pointer(UintAt(bytes, pos, 4, false).value.value, 4))
      else Err(EINVAL)
  }

  /** Two FDEs without instructions. The CIE of the first omits its pointers; the second one covers 16 to 31. */
  function OmittingBytes(): seq<uint8> {
    [4, 0, 0, 0, 4, 0, 0, 0, 12, 0, 0, 0, 8, 0, 0, 0, 16, 0, 0, 0, 16, 0, 0, 0]
  }

  function OmittingSection(): Section {
    Section(0, OmittingBytes(), false, false, (cie: nat) => Ok(if cie == 0 then OMIT else 0), WordReader(OmittingBytes()))
  }

  lemma WordAt(s: Section, pos: nat, b: uint8)
    requires !s.bigEndian && pos + 4 <= |s.bytes| && s.bytes[pos..pos + 4] == [b, 0, 0, 0]
    ensures s.Uint(pos, 4) == Ok(b) && UintAt(s.bytes, pos, 4, false).Some?
  {
    var field: seq<uint8> := [b, 0, 0, 0];
    assert field[1..] == [0, 0, 0] && field[1..][1..] == [0, 0] && field[1..][1..][1..] == [0];
    assert LittleEndian([0]) == 0 by {
      assert [0][1..] == [];
    }
    assert LittleEndian([0, 0]) == 0;
    assert LittleEndian([0, 0, 0]) == 0;
    assert LittleEndian(field) == b;
  }

  lemma FirstWords()
    ensures
      var s := OmittingSection();
      s.Uint(0, 4) == Ok(4) && s.Uint(4, 4) == Ok(4) && s.Uint(8, 4) == Ok(12)
  {
    hide Section.Uint, UintAt;
    WordAt(OmittingSection(), 0, 4);
    WordAt(OmittingSection(), 4, 4);
    WordAt(OmittingSection(), 8, 12);
  }

  lemma OmittingWords()
    ensures
      var s := OmittingSection();
      && s.Uint(0, 4) == Ok(4) && s.Uint(4, 4) == Ok(4) && s.Uint(8, 4) == Ok(12) && s.Uint(12, 4) == Ok(8)
      && s.Uint(16, 4) == Ok(16) && s.Uint(20, 4) == Ok(16)
      && UintAt(s.bytes, 16, 4, false).Some? && UintAt(s.bytes, 20, 4, false).Some?
  {
    hide Section.Uint, UintAt;
    FirstWords();
    var s := OmittingSection();
    WordAt(s, 12, 8);
    WordAt(s, 16, 16);
    WordAt(s, 20, 16);
  }

  lemma FirstOmits()
    ensures IsFde(OmittingSection(), 0) && FdeAt(OmittingSection(), 0) == Err(ENOTFOUND)
  {
    hide Section.Uint, UintAt, OmittingBytes;
    OmittingWords();
    var s := OmittingSection();
    OmittingSize();
    assert HeaderAt(s, 0) == Ok(Header(4, 4, 4));
  }

  lemma OmittingSize()
    ensures |OmittingBytes()| == 24
  {
  }

  lemma SecondCovers()
    ensures IsCoveringFde(OmittingSection(), 20, 8, Fde(12, 12, 4, 16, 32, 24, 0))
  {
    hide Section.Uint, UintAt, OmittingBytes;
    OmittingWords();
    OmittingSize();
    var s := OmittingSection();
    assert HeaderAt(s, 8) == Ok(Header(12, 4, 4));
    PointersOf();
  }

  lemma PointersOf()
    ensures OmittingSection().pointerAt(16, 0) == OmittingSection().pointerAt(20, 0) == Ok(EhPointer.Pointer(16, 4))
  {
    hide UintAt, OmittingBytes;
    OmittingWords();
  }

  /** An FDE that covers the PC is not found behind one whose pointer is omitted. */
  lemma OmitHidesFde()
    ensures
      var s := OmittingSection();
      && EndsWith(s, 20, 0, Stopped(ENOTFOUND))
      && NextEntry(s, 0, Header(4, 4, 4)) == Some(8)
      && IsCoveringFde(s, 20, 8, Fde(12, 12, 4, 16, 32, 24, 0))
  {
    hide FdeAt, Section.Uint, UintAt, IsFde, OmittingBytes, EndsWith, HeaderAt;
    FirstOmits();
    SecondCovers();
    OmittingWords();
    var s := OmittingSection();
    assert TrailFrom(s, 20, 0, [0]);
    NotFoundIff(s, 20, 0);
  }
}
