/** Properties of whole runs of call-frame programs. */
module CfaProgramTheorems {
  import opened Common
  import opened Leb128
  import opened OpStreamClass
  import opened CfaTable
  import opened CfaProgram

  /** A register rule whose expression leads back to its own opcode or before it when it is skipped. */
  predicate SkipsBack(bytes: seq<uint8>, pos: nat) {
    && pos < |bytes|
    && (bytes[pos] == 0x10 || bytes[pos] == 0x16)
    && RegisterAt(bytes, pos + 1).Ok?
    && UlebAt(bytes, RegisterAt(bytes, pos + 1).value.next).Some?
    && var length := UlebAt(bytes, RegisterAt(bytes, pos + 1).value.next).value;
       Skipped(bytes, length.next, ToSigned64(length.value)) <= pos
  }

  /** It takes a length above PL_VM_OFF_MAX. */
  lemma SkipsBackIsLong(bytes: seq<uint8>, pos: nat)
    requires SkipsBack(bytes, pos)
    ensures UlebAt(bytes, RegisterAt(bytes, pos + 1).value.next).value.value > OFF_MAX
  {
    hide UlebAt;
  }

  lemma ExtendedAdvances(env: Env, bytes: seq<uint8>, pos: nat)
    requires env.Valid() && pos < |bytes| && !SkipsBack(bytes, pos)
    ensures
      var d := DecodeExtended(env, bytes, bytes[pos], pos + 1);
      d.Decoded? ==> pos < d.next <= |bytes|
  {
    hide DecodeAdvance, DecodeSetLocation, DecodeOffsetRule, DecodeRegisterRule, DecodeDefineCfa, DecodeDefineCfaOffset,
      DecodeDefineCfaExpression, DecodeRegister, UlebAt, Env.Word;
  }

  /** Every other instruction moves the position forward. */
  lemma DecodeAdvances(env: Env, bytes: seq<uint8>, pos: nat)
    requires env.Valid() && pos < |bytes| && !SkipsBack(bytes, pos)
    ensures
      var d := Decode(env, bytes, pos);
      d.Decoded? ==> pos < d.next <= |bytes|
  {
    hide UlebAt, SlebAt, UintAt, DecodeExtended, SkipsBack;
    ExtendedAdvances(env, bytes, pos);
  }

  lemma ExecuteKeepsPosition(env: Env, initial: Rules, instr: Instr, c: Config)
    requires env.Valid() && c.table.Valid()
    ensures
      var o := Execute(env, initial, instr, c);
      o.Running? ==> o.c.pos == c.pos && o.c.table.Valid()
  {
  }

  lemma StepAdvances(env: Env, initial: Rules, bytes: seq<uint8>, c: Config)
    requires env.Valid() && c.table.Valid() && !SkipsBack(bytes, c.pos)
    ensures
      var o := Step(env, initial, bytes, c);
      o.Running? ==> c.pos < o.c.pos <= |bytes|
  {
    hide Decode, Execute, SkipsBack;
    if c.pos < |bytes| {
      DecodeAdvances(env, bytes, c.pos);
      var d := Decode(env, bytes, c.pos);
      if d.Decoded? {
        ExecuteKeepsPosition(env, initial, d.instr, c.(pos := d.next));
      }
    }
  }

  /** The run comes to such a rule within `n` steps. */
  ghost predicate MeetsBackwardSkip(env: Env, initial: Rules, bytes: seq<uint8>, c: Config, n: nat)
    requires env.Valid() && c.table.Valid()
  {
    exists m :: 0 <= m <= n && Run(env, initial, bytes, c, m).Running?
                && SkipsBack(bytes, Run(env, initial, bytes, c, m).c.pos)
  }

  lemma {:induction false} PositionAfter(env: Env, initial: Rules, bytes: seq<uint8>, c: Config, n: nat)
    requires env.Valid() && c.table.Valid() && c.pos <= |bytes|
    requires !MeetsBackwardSkip(env, initial, bytes, c, n)
    ensures
      var o := Run(env, initial, bytes, c, n);
      o.Running? ==> c.pos + n <= o.c.pos <= |bytes|
  {
    hide Step, SkipsBack;
    if n > 0 {
      PositionAfter(env, initial, bytes, c, n - 1);
      var o := Run(env, initial, bytes, c, n - 1);
      if o.Running? {
        assert !SkipsBack(bytes, o.c.pos);
        StepAdvances(env, initial, bytes, o.c);
      }
    }
  }

  /**
   * The bytes that remain bound the run: it stops within one step per byte and one more, unless it comes to a rule
   * whose expression leads back.
   */
  lemma ProgramsStop(env: Env, initial: Rules, bytes: seq<uint8>, c: Config)
    requires env.Valid() && c.table.Valid() && c.pos <= |bytes|
    ensures
      var n := |bytes| - c.pos + 1;
      !Run(env, initial, bytes, c, n).Running? || MeetsBackwardSkip(env, initial, bytes, c, n)
  {
    hide Step, Run, SkipsBack;
    var n := |bytes| - c.pos + 1;
    if !MeetsBackwardSkip(env, initial, bytes, c, n) {
      PositionAfter(env, initial, bytes, c, n);
    }
  }

  lemma {:induction false} EncodedLength(v: nat, n: nat)
    requires v >= Weight(n)
    ensures |EncodeUnsigned(v)| > n
  {
    if n > 0 {
      WeightNext(n - 1);
      WeightOne();
      EncodedLength(v / 0x80, n - 1);
    }
  }

  /** A rule for register 0 whose expression claims to be 2^64 - 12 bytes long: the skip leads back to the start. */
  function LoopingProgram(): seq<uint8> {
    [0x10, 0x00] + EncodeUnsigned(TWO_TO_64 - 12)
  }

  lemma LoopingProgramOperands()
    ensures
      var bytes := LoopingProgram();
      && |bytes| == 12 && bytes[0] == 0x10
      && UlebAt(bytes, 1) == Some(Operand(0, 2)) && UlebAt(bytes, 2) == Some(Operand(TWO_TO_64 - 12, 12))
  {
    hide Weight, Unsigned, EncodeUnsigned;
    var v := TWO_TO_64 - 12;
    var e := EncodeUnsigned(v);
    var bytes := LoopingProgram();
    WeightAt9();
    WeightNext(9);
    EncodedLength(v, 9);
    EncodedUnsigned(v, 10, []);
    UnsignedRoundTrip(v, []);
    UnsignedRoundTrip(0, e);
    EncodedZero();
    assert bytes[1..] == [0x00] + e;
    assert bytes[2..] == e + [];
  }

  lemma EncodedZero()
    ensures EncodeUnsigned(0) == [0x00]
  {
  }

  lemma LoopingProgramDecodes(env: Env)
    requires env.Valid()
    ensures
      var bytes := LoopingProgram();
      |bytes| == 12 && Decode(env, bytes, 0) == Decoded(SetRule(0, RegRule(Expression, env.Word(env.address + 2))), 0)
  {
    hide UlebAt, LoopingProgram;
    LoopingProgramOperands();
    assert ToSigned64(TWO_TO_64 - 12) == -12;
  }

  /** That program never stops. */
  lemma {:induction false} LoopingProgramRuns(env: Env, initial: Rules, t: Table, location: nat, n: nat)
    requires env.Valid() && env.pc == 0 && t.Valid() && t.CanSet(0)
    ensures
      var o := Run(env, initial, LoopingProgram(), Config(0, location, t), n);
      o.Running? && o.c.pos == 0 && o.c.table.CanSet(0)
  {
    hide Decode, LoopingProgram;
    if n > 0 {
      LoopingProgramRuns(env, initial, t, location, n - 1);
      LoopingProgramDecodes(env);
    }
  }

  /**
   * A run that reaches its end with a non-zero pc has either read all bytes or stands behind pc, and every
   * instruction it executed was at a location up to pc.
   */
  lemma {:induction false} StopsBehindPc(env: Env, initial: Rules, bytes: seq<uint8>, c: Config, n: nat)
    requires env.Valid() && c.table.Valid() && env.pc != 0
    requires Run(env, initial, bytes, c, n).Finished?
    ensures exists m :: 0 <= m < n && EndsAt(env, initial, bytes, c, m, Run(env, initial, bytes, c, n))
  {
    hide Decode, Execute;
    var before := Run(env, initial, bytes, c, n - 1);
    if before.Running? {
      EarlierSteps(env, initial, bytes, c, n - 1);
      FinishingStep(env, initial, bytes, before.c);
      assert EndsAt(env, initial, bytes, c, n - 1, Run(env, initial, bytes, c, n));
    } else {
      StopsBehindPc(env, initial, bytes, c, n - 1);
    }
  }

  lemma FinishingStep(env: Env, initial: Rules, bytes: seq<uint8>, c: Config)
    requires env.Valid() && c.table.Valid() && Step(env, initial, bytes, c).Finished?
    ensures Step(env, initial, bytes, c) == Finished(c.location, c.table)
    ensures (env.pc != 0 && c.location > env.pc) || c.pos >= |bytes|
  {
    hide Decode;
  }

  /** After `m` instructions, all of them at locations up to pc, the run stands behind pc or at the end of the bytes. */
  ghost predicate EndsAt(env: Env, initial: Rules, bytes: seq<uint8>, c: Config, m: nat, end: Outcome)
    requires env.Valid() && c.table.Valid()
  {
    var o := Run(env, initial, bytes, c, m);
    && o.Running?
    && end == Finished(o.c.location, o.c.table)
    && (o.c.location > env.pc || o.c.pos >= |bytes|)
    && forall k :: 0 <= k < m ==>
         Run(env, initial, bytes, c, k).Running? && Run(env, initial, bytes, c, k).c.location <= env.pc
  }

  lemma {:induction false} EarlierSteps(env: Env, initial: Rules, bytes: seq<uint8>, c: Config, n: nat)
    requires env.Valid() && c.table.Valid() && env.pc != 0 && Run(env, initial, bytes, c, n).Running?
    ensures forall k :: 0 <= k < n ==>
              Run(env, initial, bytes, c, k).Running? && Run(env, initial, bytes, c, k).c.location <= env.pc
  {
    hide Decode, Execute;
    if n > 0 {
      EarlierSteps(env, initial, bytes, c, n - 1);
    }
  }

  /** The rule of `r` is the one on entry, or absent if there was none. */
  predicate Reinstated(initial: Rules, t: Table, r: RegNum)
    requires t.Valid()
  {
    (r in t.Top().rules <==> r in initial) && (r in initial && r in t.Top().rules ==> t.Top().rules[r] == initial[r])
  }

  lemma RestoreReinstates(env: Env, initial: Rules, r: RegNum, c: Config)
    requires env.Valid() && c.table.Valid()
    ensures
      var o := Execute(env, initial, Restore(r), c);
      o.Running? ==> o.c.table.Valid() && Reinstated(initial, o.c.table, r)
  {
  }

  /** DW_CFA_restore_extended does so exactly when the register had a rule on entry, has none now, or is register 0. */
  lemma RestoreExtendedReinstatesIff(env: Env, initial: Rules, r: RegNum, c: Config)
    requires env.Valid() && c.table.Valid() && Execute(env, initial, RestoreExtended(r), c).Running?
    ensures
      var t := Execute(env, initial, RestoreExtended(r), c).c.table;
      t.Valid() && (Reinstated(initial, t, r) <==> r in initial || r !in c.table.Top().rules || r == 0)
  {
  }
}
