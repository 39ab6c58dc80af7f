/** `cfe_register_encode` and `cfe_register_decode`, which are the codec for six registers. */
module CompactRegisters {
  import opened Arithmetic
  import opened Common
  import opened CompactCodec

  /** How many of the first `n` registers are below `x`. */
  function CountLess(regs: seq<nat>, n: nat, x: nat): nat
    requires n <= |regs|
  {
    if n == 0 then 0 else CountLess(regs, n - 1, x) + if regs[n - 1] < x then 1 else 0
  }

  ghost predicate Ascending(left: seq<nat>) {
    forall i, j :: 0 <= i < j < |left| ==> left[i] < left[j]
  }

  lemma {:induction false} CountLessHead(regs: seq<nat>, n: nat, x: nat)
    requires 0 < n <= |regs|
    ensures CountLess(regs, n, x) == CountLess(regs[1..], n - 1, x) + if regs[0] < x then 1 else 0
  {
    if n > 1 {
      CountLessHead(regs, n - 1, x);
    }
  }

  lemma IndexAfterDrop(left: seq<nat>, k: nat, x: nat)
    requires Ascending(left) && k < |left| && x in left && x != left[k]
    ensures x in Drop(left, k) && Ascending(Drop(left, k))
    ensures IndexOf(Drop(left, k), x) == IndexOf(left, x) - if left[k] < x then 1 else 0
  {
    hide IndexOf;
    var i := IndexOf(left, x);
    var rest := Drop(left, k);
    var j := if i < k then i else i - 1;
    assert rest[j] == x && (left[k] < x <==> k < i);
    DropAscending(left, k);
    IndexIs(rest, x, j);
  }

  lemma DropAscending(left: seq<nat>, k: nat)
    requires Ascending(left) && k < |left|
    ensures Ascending(Drop(left, k))
  {
  }

  lemma IndexIs(s: seq<nat>, x: nat, j: nat)
    requires Ascending(s) && j < |s| && s[j] == x
    ensures IndexOf(s, x) == j
  {
    hide IndexOf;
    assert s[IndexOf(s, x)] == x;
  }

  lemma InLeft(left: seq<nat>, regs: seq<nat>, i: nat)
    requires ListOf(left, regs) && i < |regs|
    ensures regs[i] in left && (i > 0 ==> regs[i] != regs[0])
  {
    assert regs[i] in regs;
  }

  /** The number of a register counts the smaller ones that are left. */
  lemma {:induction false} NumberIsRank(left: seq<nat>, regs: seq<nat>, i: nat)
    requires Ascending(left) && ListOf(left, regs) && i < |regs|
    ensures regs[i] in left && Number(left, regs)[i] == IndexOf(left, regs[i]) - CountLess(regs, i, regs[i])
    decreases |regs|
  {
    hide IndexOf, Up, Drop, ListOf;
    InLeft(left, regs, i);
    InLeft(left, regs, 0);
    if i > 0 {
      var k := IndexOf(left, regs[0]);
      StillListed(left, regs);
      IndexAfterDrop(left, k, regs[i]);
      NumberIsRank(Drop(left, k), regs[1..], i - 1);
      CountLessHead(regs, i, regs[i]);
      assert Number(left, regs)[i] == Number(Drop(left, k), regs[1..])[i - 1];
      assert regs[1..][i - 1] == regs[i];
    }
  }

  lemma IndexInUp(max: nat, x: nat)
    requires x in Up(max)
    ensures IndexOf(Up(max), x) == x - 1
  {
    assert Up(max)[IndexOf(Up(max), x)] == x;
  }

  /** The sums of products of the source. */
  lemma PackSix(d: seq<nat>)
    requires 0 < |d| <= 6
    ensures |d| == 1 ==> Pack(6, d, 0) == d[0]
    ensures |d| == 2 ==> Pack(6, d, 0) == 5 * d[0] + d[1]
    ensures |d| == 3 ==> Pack(6, d, 0) == 20 * d[0] + 4 * d[1] + d[2]
    ensures |d| == 4 ==> Pack(6, d, 0) == 60 * d[0] + 12 * d[1] + 3 * d[2] + d[3]
    ensures |d| == 5 ==> Pack(6, d, 0) == 120 * d[0] + 24 * d[1] + 6 * d[2] + 2 * d[3] + d[4]
    ensures |d| == 6 ==> Pack(6, d, 0) == 120 * d[0] + 24 * d[1] + 6 * d[2] + 2 * d[3] + d[4] + d[5]
  {
    hide Factor, Pack, Times;
    FactorsOfSix();
    PackEnd(d);
    match |d|
    case 1 => PackStep(d, 0, 1);
    case 2 =>
      PackStep(d, 0, 5);
      PackStep(d, 1, 1);
    case 3 =>
      PackStep(d, 0, 20);
      PackStep(d, 1, 4);
      PackStep(d, 2, 1);
    case 4 =>
      PackStep(d, 0, 60);
      PackStep(d, 1, 12);
      PackStep(d, 2, 3);
      PackStep(d, 3, 1);
    case 5 => PackFive(d);
    case _ =>
      PackFive(d);
      PackStep(d, 5, 1);
  }

  lemma PackFive(d: seq<nat>)
    requires 5 <= |d| <= 6
    ensures Pack(6, d, 0) == 120 * d[0] + 24 * d[1] + 6 * d[2] + 2 * d[3] + d[4] + Pack(6, d, 5)
  {
    hide Factor, Pack, Times;
    FactorsOfSix();
    PackStep(d, 0, 120);
    PackStep(d, 1, 24);
    PackStep(d, 2, 6);
    PackStep(d, 3, 2);
    PackStep(d, 4, 1);
  }

  lemma PackStep(d: seq<nat>, i: nat, f: nat)
    requires i < |d| <= 6 && f == Factor(6, |d|, i)
    ensures Pack(6, d, i) == d[i] * f + Pack(6, d, i + 1)
  {
  }

  lemma PackEnd(d: seq<nat>)
    requires |d| <= 6
    ensures Pack(6, d, |d|) == 0
  {
  }

  /** The first loop of the encoder. */
  method Renumber(registers: seq<nat>, count: nat, renumbered: array<nat>)
    requires count <= |registers| && count <= renumbered.Length == REGISTER_MAX
    requires ListOf(Up(REGISTER_MAX), registers[..count])
    modifies renumbered
    ensures renumbered[..count] == Number(Up(REGISTER_MAX), registers[..count])
  {
    hide Number, ListOf, IndexOf;
    ghost var regs := registers[..count];
    ghost var d := Number(Up(REGISTER_MAX), regs);
    for i := 0 to count
      invariant forall k :: 0 <= k < i ==> renumbered[k] == d[k]
    {
      var countless: nat := 0;
      for j := 0 to i
        invariant countless == CountLess(regs, j, regs[i])
        modifies {}
      {
        if registers[j] < registers[i] {
          countless := countless + 1;
        }
      }
      NumberIsRank(Up(REGISTER_MAX), regs, i);
      IndexInUp(REGISTER_MAX, regs[i]);
      renumbered[i] := registers[i] - countless - 1;
    }
  }

  /** `cfe_register_encode`, for a list of different registers between 1 and 6. */
  method RegisterEncode(registers: seq<nat>, count: nat) returns (permutation: nat)
    requires count <= |registers| && ListOf(Up(REGISTER_MAX), registers[..count])
    ensures count <= REGISTER_MAX && permutation == Encode(REGISTER_MAX, registers[..count])
    ensures permutation < 0x400
  {
    hide Number, ListOf, IndexOf, Pack, Factor;
    ghost var regs := registers[..count];
    ListIsShort(Up(REGISTER_MAX), regs);
    FitsTenBits(regs);
    ghost var d := Number(Up(REGISTER_MAX), regs);
    var renumbered := new nat[REGISTER_MAX];
    Renumber(registers, count, renumbered);
    assert forall k :: 0 <= k < count ==> renumbered[k] == renumbered[..count][k] == d[k];
    NumbersInRange(Up(REGISTER_MAX), regs);
    if count > 0 {
      PackSix(d);
    } else {
      PackEnd(d);
    }
    permutation := 0;
    match count {
      case 1 => permutation := renumbered[0];
      case 2 => permutation := 5 * renumbered[0] + renumbered[1];
      case 3 => permutation := 20 * renumbered[0] + 4 * renumbered[1] + renumbered[2];
      case 4 => permutation := 60 * renumbered[0] + 12 * renumbered[1] + 3 * renumbered[2] + renumbered[3];
      case 5 =>
        permutation := 120 * renumbered[0] + 24 * renumbered[1] + 6 * renumbered[2] + 2 * renumbered[3] + renumbered[4];
      case 6 =>
        permutation := 120 * renumbered[0] + 24 * renumbered[1] + 6 * renumbered[2] + 2 * renumbered[3] + renumbered[4];
      case _ =>
    }
  }

  /** The registers from `u` on that have not been used. */
  function Unused(used: seq<bool>, u: nat): (r: seq<nat>)
    requires |used| == REGISTER_MAX + 1
    decreases 7 - u
  {
    if u > REGISTER_MAX then [] else (if used[u] then [] else [u]) + Unused(used, u + 1)
  }

  lemma {:induction false} UnusedAtFirst(used: seq<bool>, u: nat)
    requires |used| == 7 && 0 < u <= 7 && forall i :: 0 <= i < 7 ==> !used[i]
    ensures Unused(used, u) == Up(6)[u - 1..]
    decreases 7 - u
  {
    if u < 7 {
      UnusedAtFirst(used, u + 1);
    }
  }

  lemma {:induction false} UnusedUpdated(used: seq<bool>, u: nat, x: nat)
    requires |used| == 7 && x < u && x < 7
    ensures Unused(used[x := true], u) == Unused(used, u)
    decreases 7 - u
  {
    if u < 7 {
      UnusedUpdated(used, u + 1, x);
    }
  }

  lemma UnusedStep(used: seq<bool>, u: nat)
    requires |used| == 7
    ensures u < 7 ==> Unused(used, u) == (if used[u] then [] else [u]) + Unused(used, u + 1)
    ensures u >= 7 ==> Unused(used, u) == []
  {
  }

  /** Using a register takes it out at its position. */
  lemma {:induction false} UnusedDrop(used: seq<bool>, u: nat, x: nat, k: nat)
    requires |used| == 7 && u <= x <= 6 && !used[x]
    requires k < |Unused(used, u)| && Unused(used, u)[k..] == Unused(used, x)
    ensures Unused(used[x := true], u) == Drop(Unused(used, u), k)
    decreases 7 - u
  {
    hide Unused;
    var s, rest := Unused(used, u), Unused(used, u + 1);
    UnusedStep(used, u);
    UnusedStep(used[x := true], u);
    if u == x {
      UnusedUpdated(used, u + 1, x);
      assert |s[k..]| == |s|;
    } else if used[u] {
      UnusedDrop(used, u + 1, x, k);
    } else {
      UnusedLength(used, u + 1, x);
      assert k > 0;
      assert s[k..] == rest[k - 1..];
      UnusedDrop(used, u + 1, x, k - 1);
      assert [u] + Drop(rest, k - 1) == Drop(s, k);
    }
  }

  lemma {:induction false} UnusedLength(used: seq<bool>, u: nat, x: nat)
    requires |used| == 7 && u <= x
    ensures |Unused(used, x)| <= |Unused(used, u)|
    decreases x - u
  {
    if u < x && u < 7 {
      UnusedLength(used, u + 1, x);
    }
  }

  /** One step of `Name`. */
  lemma NameStep(left: seq<nat>, d: seq<nat>, default: seq<nat>, i: nat)
    requires i < |d| == |default|
    ensures Name(left, d[i..], default[i..]) ==
      if d[i] < |left| then [left[d[i]]] + Name(Drop(left, d[i]), d[i + 1..], default[i + 1..])
      else [default[i]] + Name(left, d[i + 1..], default[i + 1..])
  {
    assert d[i..][1..] == d[i + 1..] && default[i..][1..] == default[i + 1..];
  }

  lemma UnpackStep(n: nat, i: nat, p: nat)
    requires i < n <= REGISTER_MAX
    ensures
      var f := Factor(REGISTER_MAX, n, i);
      Unpack(REGISTER_MAX, n, i, p) == [p / f] + Unpack(REGISTER_MAX, n, i + 1, p % f)
  {
    hide Factor;
  }

  lemma UnpackEnd(n: nat)
    requires n <= REGISTER_MAX
    ensures forall p: nat :: Unpack(REGISTER_MAX, n, n, p) == []
  {
  }

  /** `PERMUTE`: splits the digit of one position off. */
  method Permute(permutation: nat, count: nat, pos: nat, factor: nat, permunreg: array<nat>, ghost all: seq<nat>)
    returns (rest: nat)
    requires pos < count <= REGISTER_MAX == permunreg.Length && factor == Factor(REGISTER_MAX, count, pos)
    requires permunreg[..pos] + Unpack(REGISTER_MAX, count, pos, permutation) == all
    modifies permunreg
    ensures permunreg[..pos + 1] + Unpack(REGISTER_MAX, count, pos + 1, rest) == all
    ensures rest == permutation % factor
  {
    hide Factor, Unpack;
    UnpackStep(count, pos, permutation);
    ghost var before := permunreg[..pos];
    permunreg[pos] := permutation / factor;
    DivMod(permutation, factor);
    assert permunreg[..pos + 1] == before + [permutation / factor];
    rest := permutation - permunreg[pos] * factor;
  }

  /** The switch over the number of registers, for five and six of them. */
  method PermuteMany(permutation: nat, count: nat, permunreg: array<nat>)
    requires 5 <= count <= REGISTER_MAX == permunreg.Length
    modifies permunreg
    ensures permunreg[..count] == Unpack(REGISTER_MAX, count, 0, permutation)
  {
    hide Factor, Unpack;
    FactorsOfSix();
    UnpackEnd(count);
    var p := permutation;
    ghost var all := Unpack(REGISTER_MAX, count, 0, permutation);
    p := Permute(p, count, 0, 120, permunreg, all);
    p := Permute(p, count, 1, 24, permunreg, all);
    p := Permute(p, count, 2, 6, permunreg, all);
    p := Permute(p, count, 3, 2, permunreg, all);
    p := Permute(p, count, 4, 1, permunreg, all);
    if count == 6 {
      UnpackStep(6, 5, p);
      assert p == 0 && Unpack(6, 6, 5, p) == [0];
      ghost var before := permunreg[..5];
      permunreg[5] := 0;
      assert permunreg[..6] == before + [0] == all;
    } else {
      assert permunreg[..5] == permunreg[..5] + Unpack(REGISTER_MAX, 5, 5, p);
    }
  }

  method PermuteAll(permutation: nat, count: nat, permunreg: array<nat>)
    requires count <= REGISTER_MAX == permunreg.Length
    modifies permunreg
    ensures permunreg[..count] == Unpack(REGISTER_MAX, count, 0, permutation)
  {
    hide Factor, Unpack;
    FactorsOfSix();
    UnpackEnd(count);
    var p := permutation;
    ghost var all := Unpack(REGISTER_MAX, count, 0, permutation);
    match count {
      case 4 =>
        p := Permute(p, 4, 0, 60, permunreg, all);
        p := Permute(p, 4, 1, 12, permunreg, all);
        p := Permute(p, 4, 2, 3, permunreg, all);
        p := Permute(p, 4, 3, 1, permunreg, all);
      case 3 =>
        p := Permute(p, 3, 0, 20, permunreg, all);
        p := Permute(p, 3, 1, 4, permunreg, all);
        p := Permute(p, 3, 2, 1, permunreg, all);
      case 2 =>
        p := Permute(p, 2, 0, 5, permunreg, all);
        p := Permute(p, 2, 1, 1, permunreg, all);
      case 1 =>
        p := Permute(p, 1, 0, 1, permunreg, all);
      case _ =>
        if count >= 5 {
          PermuteMany(permutation, count, permunreg);
          return;
        }
    }
    assert permunreg[..count] == permunreg[..count] + Unpack(REGISTER_MAX, count, count, p);
  }

  lemma Regroup(a: seq<nat>, x: nat, b: seq<nat>)
    ensures a + ([x] + b) == (a + [x]) + b
  {
  }

  lemma NameEnd(left: seq<nat>, d: seq<nat>, default: seq<nat>)
    requires d == [] == default
    ensures Name(left, d, default) == []
  {
  }

  /** The inner loop of the decoder: marks and returns the n-th unused register, if there is one. */
  method TakeUnused(used: array<bool>, n: nat) returns (u: nat, found: bool)
    requires used.Length == REGISTER_MAX + 1
    modifies used
    ensures
      var left := old(Unused(used[..], 1));
      && found == (n < |left|)
      && (found ==> u == left[n] && Unused(used[..], 1) == Drop(left, n))
      && (!found ==> used[..] == old(used[..]))
  {
    hide Unused;
    ghost var left := Unused(used[..], 1);
    var renumbered: nat := 0;
    u, found := 1, false;
    while u < 7
      invariant 1 <= u <= 7 && !found && used[..] == old(used[..])
      invariant renumbered <= n && renumbered <= |left| && left[renumbered..] == Unused(used[..], u)
    {
      UnusedStep(used[..], u);
      if !used[u] {
        if renumbered == n {
          UnusedDrop(used[..], 1, u, n);
          ghost var before := used[..];
          used[u] := true;
          assert used[..] == before[u := true];
          found := true;
          return;
        }
        renumbered := renumbered + 1;
      }
      u := u + 1;
    }
    UnusedStep(used[..], u);
  }

  /** `cfe_register_decode`: a register whose number is too large is left as it was. */
  method RegisterDecode(permutation: nat, count: nat, registers: array<nat>)
    requires count <= REGISTER_MAX && count <= registers.Length
    modifies registers
    ensures registers[..count] == Decode(REGISTER_MAX, count, permutation, old(registers[..count]))
    ensures registers[count..] == old(registers[count..])
  {
    hide Name, Unused, Drop, Unpack;
    var permunreg := new nat[REGISTER_MAX];
    PermuteAll(permutation, count, permunreg);
    ghost var d := permunreg[..count];
    ghost var default := registers[..count];
    var positionUsed := new bool[REGISTER_MAX + 1](_ => false);
    UnusedAtFirst(positionUsed[..], 1);
    assert d == d[0..] && default == default[0..];
    for i := 0 to count
      invariant permunreg[..count] == d && forall k :: i <= k < registers.Length ==> registers[k] == old(registers[k])
      invariant registers[..i] + Name(Unused(positionUsed[..], 1), d[i..], default[i..])
        == Name(Up(REGISTER_MAX), d, default)
    {
      ghost var left, before := Unused(positionUsed[..], 1), registers[..i];
      NameStep(left, d, default, i);
      assert permunreg[i] == d[i] && registers[i] == default[i];
      var u, found := TakeUnused(positionUsed, permunreg[i]);
      if found {
        registers[i] := u;
      }
      assert registers[..i + 1] == before + [registers[i]];
      Regroup(before, registers[i], Name(Unused(positionUsed[..], 1), d[i + 1..], default[i + 1..]));
    }
    NameEnd(Unused(positionUsed[..], 1), d[count..], default[count..]);
  }

  lemma {:induction false} DefaultsDoNotMatter(left: seq<nat>, d: seq<nat>, default: seq<nat>, other: seq<nat>)
    requires |d| == |default| == |other| && forall i :: 0 <= i < |d| ==> d[i] < |left| - i
    ensures Name(left, d, default) == Name(left, d, other)
    decreases |d|
  {
    if d != [] {
      forall i | 0 <= i < |d[1..]| ensures d[1..][i] < |Drop(left, d[0])| - i {
        assert d[1..][i] == d[i + 1];
      }
      DefaultsDoNotMatter(Drop(left, d[0]), d[1..], default[1..], other[1..]);
    }
  }

  /** The decoder leaves its first output unset exactly for the numbers that no list has. */
  lemma DecodeSetsAllIff(max: nat, n: nat, p: nat, default: seq<nat>, other: seq<nat>)
    requires 0 < n <= max && |default| == |other| == n && default[0] != other[0]
    ensures Decode(max, n, p, default) == Decode(max, n, p, other) <==> p < Lists(max, n)
  {
    var d := Unpack(max, n, 0, p);
    var f := Factor(max, n, 0);
    if p < Lists(max, n) {
      UnpackDigits(max, n, 0, p);
      DefaultsDoNotMatter(Up(max), d, default, other);
    } else {
      DivMod(p, f);
      assert d[0] == p / f;
      if d[0] < max {
        DigitBounds(d[0], max, f);
      } else {
        assert Name(Up(max), d, default)[0] == default[0] && Name(Up(max), d, other)[0] == other[0];
      }
    }
  }
}
