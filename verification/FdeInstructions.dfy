/**
 * FDEs of a CIE with augmentation have augmentation data of their own in front of their instructions (Linux Standard
 * Base Core Specification 4.1, section 10.6.1.2). `fde_info_init` does not leave it out, so `eval_program` runs it.
 */
module FdeInstructions {
  import opened Bytes
  import opened Common
  import opened EhPointer
  import opened FdeScan
  import opened FdeRecord
  import opened Leb128
  import T = CfaTable
  import P = CfaProgram
  import A = CfaAssembler
  import CieRecord
  import C = CieLayout

  ghost predicate Assembles(program: seq<A.Source>) {
    forall a <- program :: A.Encodable(a)
  }

  /** What stands behind the address range: the size of the augmentation data, the data, and the instructions. */
  ghost function WithAugmentation(data: seq<uint8>, program: seq<A.Source>, big: bool): seq<uint8>
    requires Assembles(program)
  {
    EncodeUnsigned(|data|) + (data + A.Assemble(program, big))
  }

  /** What the interpreter takes the augmentation data for. */
  function AsInstruction(data: seq<uint8>, big: bool): A.Source
    requires data == [] || |data| == 4
  {
    if data == [] then A.NoOp else A.AdvanceField(if big then BigEndian(data) else LittleEndian(data), 4)
  }

  /** Writing a field inverts reading it. */
  lemma {:induction false} FieldOfBytes(bytes: seq<uint8>, big: bool)
    ensures Field(if big then BigEndian(bytes) else LittleEndian(bytes), |bytes|, big) == bytes
  {
    hide LittleEndian, BigEndian, Field;
    FieldUnfolds(bytes, big);
    if bytes != [] {
      FieldOfBytes(if big then bytes[..|bytes| - 1] else bytes[1..], big);
    }
  }

  lemma FieldUnfolds(bytes: seq<uint8>, big: bool)
    ensures bytes == [] ==> forall v :: Field(v, 0, big) == []
    ensures bytes != [] && big ==>
              var n := |bytes| - 1;
              Field(BigEndian(bytes), n + 1, big) == Field(BigEndian(bytes[..n]), n, big) + [bytes[n]]
    ensures bytes != [] && !big ==>
              Field(LittleEndian(bytes), |bytes|, big) == [bytes[0]] + Field(LittleEndian(bytes[1..]), |bytes| - 1, big)
  {
    if bytes != [] {
      if big {
        LowByte(BigEndian(bytes[..|bytes| - 1]), bytes[|bytes| - 1]);
      } else {
        LowByte(LittleEndian(bytes[1..]), bytes[0]);
      }
    }
  }

  lemma LowByte(high: nat, low: uint8)
    ensures (low + 0x100 * high) / 0x100 == high && (low + 0x100 * high) % 0x100 == low
  {
  }

  lemma FourBytes(data: seq<uint8>)
    requires |data| == 4
    ensures LittleEndian(data) < FieldLimit(4) && BigEndian(data) < FieldLimit(4)
  {
    FieldBound(data);
    PowerIsLimit(4);
  }

  /** No data is read as DW_CFA_nop, and a pointer of four bytes as the operand of DW_CFA_advance_loc4. */
  lemma AugmentationIsInstruction(data: seq<uint8>, program: seq<A.Source>, big: bool)
    requires Assembles(program) && (data == [] || |data| == 4)
    ensures A.Encodable(AsInstruction(data, big)) && Assembles([AsInstruction(data, big)] + program)
    ensures WithAugmentation(data, program, big) == A.Assemble([AsInstruction(data, big)] + program, big)
  {
    hide AsInstruction, EncodeUnsigned, A.Encodable, A.Code;
    CodeOf(data, big);
    AssembledFirst(AsInstruction(data, big), program, big);
    Regrouped(EncodeUnsigned(|data|), data, A.Assemble(program, big));
  }

  lemma Regrouped(a: seq<uint8>, b: seq<uint8>, c: seq<uint8>)
    ensures a + (b + c) == a + b + c
  {
  }

  lemma AssembledFirst(a: A.Source, program: seq<A.Source>, big: bool)
    requires A.Encodable(a) && Assembles(program)
    ensures Assembles([a] + program)
    ensures A.Assemble([a] + program, big) == A.Code(a, big) + A.Assemble(program, big)
  {
    hide A.Encodable, A.Code;
    assert ([a] + program)[1..] == program;
  }

  lemma CodeOf(data: seq<uint8>, big: bool)
    requires data == [] || |data| == 4
    ensures A.Encodable(AsInstruction(data, big))
    ensures A.Code(AsInstruction(data, big), big) == EncodeUnsigned(|data|) + data
  {
    hide Field, LittleEndian, BigEndian;
    if data == [] {
      assert [0] + [] == [0];
    } else {
      FourBytes(data);
      FieldOfBytes(data, big);
    }
  }

  /** What `eval_program` is given as the instructions of an FDE. */
  function InstructionBytes(r: Reader, fde: Fde): seq<uint8>
    requires fde.instructionsOffset + fde.instructionsLength <= |r.bytes|
  {
    r.bytes[fde.instructionsOffset..fde.instructionsOffset + fde.instructionsLength]
  }

  /**
   * From the bytes of a CIE and an FDE to the program run: the FDE's augmentation data is run as an instruction in
   * front of its program.
   */
  lemma AugmentationIsRun(r: Reader, debugFrame: bool, ciePos: nat, c: C.Source, pos: nat, rec: Record, data: seq<uint8>,
                          program: seq<A.Source>, env: P.Env, initial: T.Rules, location: nat, t: T.Table, n: nat)
    requires r.frame.None? && r.base <= ADDRESS_MAX && |r.bytes| < TWO_TO_64
    requires C.LaidOut(r, ciePos, c) && C.WellSized(r, c)
    requires LaidOut(r, debugFrame, pos, rec) && rec.cie == r.base + ciePos && rec.encoding == C.FdeEncoding(c)
    requires Assembles(program) && (data == [] || |data| == 4)
    requires rec.instructions == WithAugmentation(data, program, r.bigEndian)
    requires env.Valid() && env.bigEndian == r.bigEndian && t.Valid() && n > |program| + 1
    ensures Assembles([AsInstruction(data, r.bigEndian)] + program)
    ensures
      var fde := FdeAt(C.FrameSection(r, debugFrame), pos);
      && fde.Ok? && fde.value.instructionsOffset + fde.value.instructionsLength <= |r.bytes|
      && P.Run(env, initial, InstructionBytes(r, fde.value), P.Config(0, location, t), n) ==
         A.RunList(env, initial, [AsInstruction(data, r.bigEndian)] + program, 0, location, t)
  {
    hide C.LaidOut, LaidOut, FdeAt, C.FrameSection, WithAugmentation, C.WellSized, C.FdeEncoding, P.Run, A.RunList, A.Assemble,
      AsInstruction, Assembles;
    C.FdeWithCieRoundTrip(r, debugFrame, ciePos, c, pos, rec);
    AugmentationIsInstruction(data, program, r.bigEndian);
    var all := [AsInstruction(data, r.bigEndian)] + program;
    assert rec.instructions[0..] == rec.instructions;
    RunsAssembled(env, initial, all, rec.instructions, location, t, n);
  }

  lemma RunsAssembled(env: P.Env, initial: T.Rules, program: seq<A.Source>, bytes: seq<uint8>, location: nat, t: T.Table, n: nat)
    requires env.Valid() && t.Valid() && n > |program| && Assembles(program)
      && bytes == A.Assemble(program, env.bigEndian)
    ensures P.Run(env, initial, bytes, P.Config(0, location, t), n) == A.RunList(env, initial, program, 0, location, t)
  {
    hide A.Encodable, A.Assemble, P.Run, A.RunList;
    assert bytes[0..] == bytes;
    A.AssembledRuns(env, initial, program, bytes, P.Config(0, location, t), n);
  }

  /** Empty data does no harm: it is a DW_CFA_nop. */
  lemma EmptyAugmentationIsHarmless(env: P.Env, initial: T.Rules, program: seq<A.Source>, location: nat, t: T.Table)
    requires env.Valid() && t.Valid() && Assembles(program)
    ensures Assembles([A.NoOp] + program)
    ensures A.RunList(env, initial, [A.NoOp] + program, 0, location, t)
      == A.RunList(env, initial, program, 1, location, t)
  {
    hide A.Encodable, P.Execute;
    var all := [A.NoOp] + program;
    assert all[1..] == program;
    NopIsEncodable();
    NopKeeps(env, initial, P.Config(1, location, t));
  }

  lemma NopIsEncodable()
    ensures A.Encodable(A.NoOp) && forall big :: A.Code(A.NoOp, big) == [0x00]
  {
  }

  lemma NopKeeps(env: P.Env, initial: T.Rules, c: P.Config)
    requires env.Valid() && c.table.Valid()
    ensures P.Execute(env, initial, P.Nop, c) == P.Running(c)
  {
  }

  /**
   * A pointer of four bytes hides the FDE's rules whenever it leads the location over the PC: the program ends before
   * its first instruction, with the row of the CIE.
   */
  lemma PointerHidesRules(env: P.Env, initial: T.Rules, data: seq<uint8>, program: seq<A.Source>, location: nat, t: T.Table)
    requires env.Valid() && t.Valid() && Assembles(program) && |data| == 4
    requires
      var v := AsInstruction(data, env.bigEndian).delta;
      env.pc != 0 && location <= env.pc < (location + v * env.codeAlignment) % env.wordModulus
    ensures Assembles([AsInstruction(data, env.bigEndian)] + program)
    ensures
      var v := AsInstruction(data, env.bigEndian).delta;
      A.RunList(env, initial, [AsInstruction(data, env.bigEndian)] + program, 0, location, t) ==
      P.Finished((location + v * env.codeAlignment) % env.wordModulus, t)
  {
    hide A.Encodable, A.Meaning, P.Execute, P.Env.Word, LittleEndian, BigEndian;
    var a := AsInstruction(data, env.bigEndian);
    CodeOf(data, env.bigEndian);
    var all := [a] + program;
    assert all[1..] == program;
    FieldAdvances(env, initial, a, P.Config(|A.Code(a, env.bigEndian)|, location, t));
  }

  lemma FieldAdvances(env: P.Env, initial: T.Rules, a: A.Source, c: P.Config)
    requires env.Valid() && c.table.Valid() && A.Encodable(a) && a.AdvanceField?
    ensures P.Execute(env, initial, A.Meaning(env, a, 0), c) ==
            P.Running(c.(location := (c.location + a.delta * env.codeAlignment) % env.wordModulus))
  {
  }

  // The one instruction whose operand is a pointer

  /** The pointer reader of a stream that starts at `start` in the section. */
  function StreamPointers(r: Reader, start: nat, encoding: uint8): P.PointerReader {
    (pos: nat) =>
      match ReadPointer(r, r.base + start, pos, encoding)
      case Err(_) => None
      case Ok(p) => Some((p.value, p.size))
  }

  /** DW_CFA_set_loc with any address, relative to any base and in the target's own pointer format, is read back. */
  lemma SetLocationDecodes(env: P.Env, r: Reader, start: nat, bytes: seq<uint8>, pos: nat, encoding: uint8, address: nat)
    requires env.Valid() && env.segmentSize == 0 && env.wordModulus == Range(r.wide) && r.frame.None?
    requires env.pointerAt == StreamPointers(r, start, encoding) && Stands(r.bytes, start, bytes)
    requires IsDirect(encoding) && encoding % 0x10 == 0 && HasBase(r, encoding) && address < Range(r.wide)
    requires Stands(bytes, pos, [0x01] + AddressCode(r, BaseAddress(r, r.base + start + pos + 1, encoding), address))
    ensures pos < |bytes| && P.Decode(env, bytes, pos) == P.Decoded(P.SetLocation(address), pos + 1 + r.PointerSize())
  {
    hide ReadPointer, AddressCode, Stands;
    var code := AddressCode(r, BaseAddress(r, r.base + start + pos + 1, encoding), address);
    StandsParts(bytes, pos, [0x01], code);
    StandsByte(bytes, pos, 0x01);
    StandsWithin(r.bytes, start, bytes, pos + 1, code);
    AddressRoundTrip(r, r.base + start, pos + 1, encoding, address);
  }

  // A section with one CIE and one FDE

  /** A CIE with plain pointers and no instructions. */
  const CIE: C.Source := C.Source(false, 0, 1, Some([C.PointerEncoding(0)]), CieRecord.Factors(0, 0, 1, -4, 8), 1, [])

  /** An FDE for 16 bytes of code, with a pointer in its augmentation data and one instruction. */
  ghost function ExampleFde(): Record {
    Record(false, 0, 0, 0x1000, 16, WithAugmentation(LSDA, [A.DefCfaOffset(8)], false))
  }

  const LSDA: seq<uint8> := [0, 0x20, 0, 0]

  function Over(bytes: seq<uint8>): Reader {
    Reader(0, bytes, false, false, None, None, None, None, (address: nat) => Err(EINVAL))
  }

  ghost function ExampleBytes(): seq<uint8> {
    (Field(13, 4, false) + CieBody()) + (Field(19, 4, false) + FdeBody())
  }

  ghost function CieBody(): seq<uint8> {
    Field(0, 4, false) + ([1] + ([CieRecord.CHAR_z, CieRecord.CHAR_R, 0] + ([1] + ([0x7c] + [8])))) + ([1] + [0])
  }

  ghost function FdeBody(): seq<uint8> {
    Field(21, 4, false) + (Field(0x1000, 4, false) + (Field(16, 4, false) + ([4] + (LSDA + [0x0e, 8]))))
  }

  lemma ExampleCie(r: Reader)
    requires !r.bigEndian
    ensures C.Encodable(r, CIE) && C.Body(r, CIE) == CieBody() && |CieBody()| == 13 && C.WellSized(r, CIE)
    ensures C.FdeEncoding(CIE) == 0
  {
    hide Field;
    ExampleParts(r);
    assert C.Sizes(CIE) + C.Numbers(r, CIE) == C.Numbers(r, CIE);
    assert C.Augmented(r, CIE) + CIE.rest == C.Augmented(r, CIE);
  }

  lemma ExampleParts(r: Reader)
    ensures C.Encodable(r, CIE) && C.String(CIE) == [CieRecord.CHAR_z, CieRecord.CHAR_R, 0]
    ensures C.Numbers(r, CIE) == [1] + ([0x7c] + [8]) && C.Augmented(r, CIE) == [1] + [0]
  {
    var flags := [C.PointerEncoding(0)];
    assert flags[1..] == [];
    assert C.Data(r, flags) == [0] + [] == [0];
    assert C.Chars(flags) == [CieRecord.CHAR_R] + [0];
  }

  /** The section's FDE is laid out behind its CIE. */
  lemma ExampleLaidOut(r: Reader)
    requires r == Over(ExampleBytes())
    ensures C.LaidOut(r, 0, CIE) && LaidOut(r, false, 17, ExampleFde()) && |r.bytes| == 40
  {
    hide Field, C.Body, Body;
    ExampleCie(r);
    ExampleBody(r);
    var cie, fde := Field(13, 4, false) + CieBody(), Field(19, 4, false) + FdeBody();
    assert r.bytes[0..17] == cie && r.bytes[17..40] == fde;
  }

  lemma ExampleBody(r: Reader)
    requires r == Over(ExampleBytes())
    ensures Encodable(r, false, 17, ExampleFde()) && |FdeBody()| == 19
    ensures Body(r, false, 17, ExampleFde()) == FdeBody()
  {
    hide Field, A.Assemble;
    ExampleProgram();
    assert ExampleFde().instructions == [4] + (LSDA + [0x0e, 8]);
  }

  lemma ExampleProgram()
    ensures Assembles([A.DefCfaOffset(8)]) && A.Assemble([A.DefCfaOffset(8)], false) == [0x0e, 8]
  {
    var program := [A.DefCfaOffset(8)];
    assert program[1..] == [];
    assert A.Code(program[0], false) == [0x0e] + [8];
  }

  /**
   * In this section the FDE covers a PC at which its rule for the CFA should be in force, but the program ends with
   * the row it began with.
   */
  lemma ExampleHidesRule(env: P.Env, initial: T.Rules, t: T.Table, n: nat)
    requires env.Valid() && t.Valid() && n > 2 && !env.bigEndian && env.pc == 0x1004 && env.codeAlignment == 1
    requires t.Top().cfa.RegisterOffset?
    ensures
      var r := Over(ExampleBytes());
      var fde := FdeAt(C.FrameSection(r, false), 17);
      && fde.Ok? && Covers(fde.value, env.pc) && fde.value.pcStart == 0x1000
      && fde.value.instructionsOffset + fde.value.instructionsLength <= |r.bytes|
      && P.Run(env, initial, InstructionBytes(r, fde.value), P.Config(0, 0x1000, t), n) == P.Finished(0x3000, t)
    ensures
      var program := [A.DefCfaOffset(8)];
      && Assembles(program)
      && A.RunList(env, initial, program, 5, 0x1000, t) ==
         P.Finished(0x1000, t.SetCfa(T.RegisterOffset(t.Top().cfa.regnum, 8)))
  {
    hide P.Run, A.RunList, FdeAt, C.LaidOut, LaidOut, C.FrameSection, ExampleBytes, ExampleFde, A.Assemble, FieldsOf,
      AsInstruction, InstructionBytes, Assembles, T.Table.SetCfa;
    var r := Over(ExampleBytes());
    ExampleProgram();
    ExampleRead(r);
    ExampleRuns(r, env, initial, t, n);
    IntendedRun(env, initial, t);
  }

  lemma ExampleRead(r: Reader)
    requires r == Over(ExampleBytes())
    ensures
      var fde := FdeAt(C.FrameSection(r, false), 17);
      fde.Ok? && fde.value.pcStart == 0x1000 && fde.value.pcEnd == 0x1010
  {
    hide FdeAt, C.LaidOut, LaidOut, C.FrameSection, ExampleBytes, ExampleFde, FieldsOf;
    ExampleCie(r);
    ExampleLaidOut(r);
    ExampleRecord(r);
    C.FdeWithCieRoundTrip(r, false, 0, CIE, 17, ExampleFde());
  }

  lemma ExampleRuns(r: Reader, env: P.Env, initial: T.Rules, t: T.Table, n: nat)
    requires r == Over(ExampleBytes())
    requires env.Valid() && t.Valid() && n > 2 && !env.bigEndian && env.pc == 0x1004 && env.codeAlignment == 1
    ensures
      var fde := FdeAt(C.FrameSection(r, false), 17);
      && fde.Ok? && fde.value.instructionsOffset + fde.value.instructionsLength <= |r.bytes|
      && P.Run(env, initial, InstructionBytes(r, fde.value), P.Config(0, 0x1000, t), n) == P.Finished(0x3000, t)
  {
    hide P.Run, A.RunList, FdeAt, C.LaidOut, LaidOut, C.FrameSection, ExampleBytes, ExampleFde, A.Assemble, FieldsOf,
      AsInstruction, InstructionBytes, Assembles;
    var program := [A.DefCfaOffset(8)];
    ExampleProgram();
    ExampleCie(r);
    ExampleLaidOut(r);
    ExampleRecord(r);
    PointerDelta();
    AugmentationIsRun(r, false, 0, CIE, 17, ExampleFde(), LSDA, program, env, initial, 0x1000, t, n);
    PointerHidesRules(env, initial, LSDA, program, 0x1000, t);
    assert (0x1000 + 0x2000 * env.codeAlignment) % env.wordModulus == 0x3000;
  }

  lemma ExampleRecord(r: Reader)
    requires r == Over(ExampleBytes())
    ensures
      var rec := ExampleFde();
      && rec.cie == 0 && rec.encoding == 0 && rec.instructions == WithAugmentation(LSDA, [A.DefCfaOffset(8)], false)
      && Encodable(r, false, 17, rec)
      && FieldsOf(r, false, 17, rec).pcStart == 0x1000 && FieldsOf(r, false, 17, rec).pcEnd == 0x1010
  {
    hide Body, WithAugmentation, ExampleBytes, Encodable, PcStart, PcLength;
    ExampleBody(r);
    ExampleRange(r);
  }

  lemma ExampleRange(r: Reader)
    requires r == Over(ExampleBytes())
    ensures PcStart(r, 17, ExampleFde()) == 0x1000 && PcLength(r, ExampleFde()) == 0x10
  {
    hide Body, WithAugmentation, ExampleBytes, A.Assemble;
    ExampleProgram();
  }

  lemma PointerDelta()
    ensures AsInstruction(LSDA, false).delta == 0x2000
  {
    assert LSDA[1..] == [0x20, 0, 0] && LSDA[1..][1..] == [0, 0] && LSDA[1..][1..][1..] == [0];
    assert LittleEndian([0]) == 0 by {
      assert [0][1..] == [];
    }
    assert LittleEndian([0, 0]) == 0;
    assert LittleEndian([0x20, 0, 0]) == 0x20;
  }

  lemma IntendedRun(env: P.Env, initial: T.Rules, t: T.Table)
    requires env.Valid() && t.Valid() && env.pc == 0x1004 && t.Top().cfa.RegisterOffset?
    ensures Assembles([A.DefCfaOffset(8)])
    ensures A.RunList(env, initial, [A.DefCfaOffset(8)], 5, 0x1000, t) ==
            P.Finished(0x1000, t.SetCfa(T.RegisterOffset(t.Top().cfa.regnum, 8)))
  {
    var program := [A.DefCfaOffset(8)];
    assert program[1..] == [];
    assert A.Encodable(program[0]);
  }
}
