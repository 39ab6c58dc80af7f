/**
 * The register lists of frameless compact unwind entries: an ordered list of n different registers of 1..N is one
 * number below N! / (N - n)!. The properties hold for every N; the code has the factors for N = 6.
 */
module CompactCodec {
  import opened Arithmetic
  import opened Common

  const REGISTER_MAX := 6

  /** The product of the radices N - k of positions i + 1 to n - 1. */
  function Factor(max: nat, n: nat, i: nat): (f: nat)
    requires i < n <= max
    ensures f > 0
    decreases n - i
  {
    if i + 1 == n then 1 else Times(max - i - 1, Factor(max, n, i + 1))
  }

  function Times(a: nat, b: nat): (r: nat)
    ensures a > 0 && b > 0 ==> r > 0
  {
    a * b
  }

  /** How many lists of n different values of 1..max there are. */
  function Lists(max: nat, n: nat): nat
    requires n <= max
  {
    if n == 0 then 1 else Times(max, Factor(max, n, 0))
  }

  /** Digit i is below max - i. */
  ghost predicate Digits(max: nat, d: seq<nat>) {
    |d| <= max && forall i :: 0 <= i < |d| ==> d[i] < max - i
  }

  /** The value of digits `d[i..]`. */
  function Pack(max: nat, d: seq<nat>, i: nat): nat
    requires i <= |d| <= max
    decreases |d| - i
  {
    if i == |d| then 0 else Times(d[i], Factor(max, |d|, i)) + Pack(max, d, i + 1)
  }

  /** The digits from position i on. */
  function Unpack(max: nat, n: nat, i: nat, p: nat): (d: seq<nat>)
    requires i <= n <= max
    ensures |d| == n - i
    decreases n - i
  {
    if i == n then []
    else [p / Factor(max, n, i)] + Unpack(max, n, i + 1, p % Factor(max, n, i))
  }

  /** `s` without the element at position i. */
  function Drop(s: seq<nat>, i: nat): seq<nat>
    requires i < |s|
  {
    s[..i] + s[i + 1..]
  }

  function IndexOf(s: seq<nat>, x: nat): (i: nat)
    requires x in s
    ensures i < |s| && s[i] == x && x !in s[..i]
  {
    if s[0] == x then 0 else 1 + IndexOf(s[1..], x)
  }

  function Up(max: nat): (r: seq<nat>)
    ensures |r| == max && forall i :: 0 <= i < max ==> r[i] == i + 1
  {
    seq(max, i => i + 1)
  }

  /** Different registers of those that are left. */
  ghost predicate ListOf(left: seq<nat>, regs: seq<nat>) {
    Distinct(regs) && forall r :: r in regs ==> r in left
  }

  /** Each register is numbered by its position among those that have not been listed before it. */
  function Number(left: seq<nat>, regs: seq<nat>): (d: seq<nat>)
    requires ListOf(left, regs)
    ensures |d| == |regs|
    decreases |regs|
  {
    if regs == [] then []
    else
      var i := IndexOf(left, regs[0]);
      StillListed(left, regs);
      [i] + Number(Drop(left, i), regs[1..])
  }

  /** The registers with these numbers; a number that is too large gives the register in `default` instead. */
  function Name(left: seq<nat>, d: seq<nat>, default: seq<nat>): (r: seq<nat>)
    requires |d| == |default|
    ensures |r| == |d|
    decreases |d|
  {
    if d == [] then []
    else if d[0] < |left| then [left[d[0]]] + Name(Drop(left, d[0]), d[1..], default[1..])
    else [default[0]] + Name(left, d[1..], default[1..])
  }

  lemma StillListed(left: seq<nat>, regs: seq<nat>)
    requires ListOf(left, regs) && regs != []
    ensures ListOf(Drop(left, IndexOf(left, regs[0])), regs[1..])
  {
    var i := IndexOf(left, regs[0]);
    forall r | r in regs[1..] ensures r in Drop(left, i) {
      var j :| 0 <= j < |regs[1..]| && regs[1..][j] == r;
      assert regs[j + 1] == r && r != regs[0] && r in left;
      var k :| 0 <= k < |left| && left[k] == r;
      assert if k < i then Drop(left, i)[k] == r else Drop(left, i)[k - 1] == r;
    }
  }

  /** The list that a number below N! / (N - n)! stands for, and the number of a list. */
  function Decode(max: nat, n: nat, p: nat, default: seq<nat>): (r: seq<nat>)
    requires n <= max && |default| == n
    ensures |r| == n
  {
    Name(Up(max), Unpack(max, n, 0, p), default)
  }

  function Encode(max: nat, regs: seq<nat>): nat
    requires ListOf(Up(max), regs) && |regs| <= max
  {
    Pack(max, Number(Up(max), regs), 0)
  }

  /** Different values of 1..max can only be max many. */
  lemma {:induction false} ListIsShort(left: seq<nat>, regs: seq<nat>)
    requires ListOf(left, regs)
    ensures |regs| <= |left|
    decreases |regs|
  {
    if regs != [] {
      StillListed(left, regs);
      ListIsShort(Drop(left, IndexOf(left, regs[0])), regs[1..]);
    }
  }

  // Numbers and their digits

  lemma {:induction false} PackBounded(max: nat, d: seq<nat>, i: nat)
    requires Digits(max, d) && i < |d|
    ensures Pack(max, d, i) < Times(max - i, Factor(max, |d|, i))
    decreases |d| - i
  {
    var f := Factor(max, |d|, i);
    if i + 1 < |d| {
      PackBounded(max, d, i + 1);
      assert Pack(max, d, i + 1) < f;
    }
    DigitBounds(d[i], max - i, f);
  }

  lemma {:induction false} UnpackPack(max: nat, d: seq<nat>, i: nat)
    requires Digits(max, d) && i <= |d|
    ensures Unpack(max, |d|, i, Pack(max, d, i)) == d[i..]
    decreases |d| - i
  {
    if i < |d| {
      var f := Factor(max, |d|, i);
      if i + 1 < |d| {
        PackBounded(max, d, i + 1);
      }
      Divides(d[i], f, Pack(max, d, i + 1));
      UnpackPack(max, d, i + 1);
    }
  }

  /** All digits are in range, given that the first one is. */
  lemma {:induction false} UnpackDigits(max: nat, n: nat, i: nat, p: nat)
    requires i < n <= max && p < Times(max - i, Factor(max, n, i))
    ensures forall k :: 0 <= k < n - i ==> Unpack(max, n, i, p)[k] < max - i - k
    decreases n - i
  {
    var f := Factor(max, n, i);
    QuotientBounded(p, max - i, f);
    if i + 1 < n {
      UnpackDigits(max, n, i + 1, p % f);
      var rest := Unpack(max, n, i + 1, p % f);
      forall k | 0 <= k < n - i ensures Unpack(max, n, i, p)[k] < max - i - k {
        if k > 0 {
          assert Unpack(max, n, i, p)[k] == rest[k - 1];
        }
      }
    }
  }

  lemma QuotientBounded(p: nat, radix: nat, f: nat)
    requires f > 0 && p < radix * f
    ensures p / f < radix
  {
    var q := p / f;
    assert p == q * f + p % f;
    if radix < q {
      DigitBounds(radix, q, f);
    }
  }

  lemma {:induction false} PackUnpack(max: nat, n: nat, i: nat, p: nat, d: seq<nat>)
    requires i <= n <= max && |d| == n && d[i..] == Unpack(max, n, i, p)
    requires if i == n then p == 0 else true
    ensures Pack(max, d, i) == p
    decreases n - i
  {
    if i < n {
      var f := Factor(max, n, i);
      assert d[i] == p / f && d[i + 1..] == Unpack(max, n, i + 1, p % f);
      PackUnpack(max, n, i + 1, p % f, d);
      assert p == (p / f) * f + p % f;
    }
  }

  // Registers and their numbers

  lemma {:induction false} NumbersInRange(left: seq<nat>, regs: seq<nat>)
    requires ListOf(left, regs)
    ensures forall i :: 0 <= i < |regs| ==> Number(left, regs)[i] < |left| - i
    decreases |regs|
  {
    if regs != [] {
      var k := IndexOf(left, regs[0]);
      StillListed(left, regs);
      NumbersInRange(Drop(left, k), regs[1..]);
      forall i | 0 < i < |regs| ensures Number(left, regs)[i] < |left| - i {
        assert Number(left, regs)[i] == Number(Drop(left, k), regs[1..])[i - 1];
      }
    }
  }

  lemma {:induction false} NameNumber(left: seq<nat>, regs: seq<nat>, default: seq<nat>)
    requires ListOf(left, regs) && |default| == |regs|
    ensures Name(left, Number(left, regs), default) == regs
    decreases |regs|
  {
    if regs != [] {
      var k := IndexOf(left, regs[0]);
      StillListed(left, regs);
      NameNumber(Drop(left, k), regs[1..], default[1..]);
      assert Number(left, regs)[1..] == Number(Drop(left, k), regs[1..]);
    }
  }

  lemma {:induction false} NameLists(left: seq<nat>, d: seq<nat>, default: seq<nat>)
    requires Distinct(left) && |d| == |default| && forall i :: 0 <= i < |d| ==> d[i] < |left| - i
    ensures ListOf(left, Name(left, d, default))
    decreases |d|
  {
    if d != [] {
      var rest := Drop(left, d[0]);
      DropDistinct(left, d[0]);
      forall i | 0 <= i < |d[1..]| ensures d[1..][i] < |rest| - i {
        assert d[1..][i] == d[i + 1];
      }
      NameLists(rest, d[1..], default[1..]);
    }
  }

  lemma DropDistinct(left: seq<nat>, i: nat)
    requires Distinct(left) && i < |left|
    ensures Distinct(Drop(left, i)) && left[i] !in Drop(left, i) && forall x :: x in Drop(left, i) ==> x in left
  {
  }

  lemma {:induction false} NumberName(left: seq<nat>, d: seq<nat>, default: seq<nat>)
    requires Distinct(left) && |d| == |default| && forall i :: 0 <= i < |d| ==> d[i] < |left| - i
    ensures ListOf(left, Name(left, d, default)) && Number(left, Name(left, d, default)) == d
    decreases |d|
  {
    NameLists(left, d, default);
    if d != [] {
      var rest := Drop(left, d[0]);
      DropDistinct(left, d[0]);
      forall i | 0 <= i < |d[1..]| ensures d[1..][i] < |rest| - i {
        assert d[1..][i] == d[i + 1];
      }
      NumberName(rest, d[1..], default[1..]);
      var regs := Name(left, d, default);
      assert regs[1..] == Name(rest, d[1..], default[1..]);
      assert IndexOf(left, regs[0]) == d[0];
    }
  }

  // The codec

  /** Decoding gives back the encoded list, whatever the number of registers is. */
  lemma DecodeEncode(max: nat, regs: seq<nat>, default: seq<nat>)
    requires ListOf(Up(max), regs) && |default| == |regs|
    ensures |regs| <= max && Decode(max, |regs|, Encode(max, regs), default) == regs
    ensures Encode(max, regs) < Lists(max, |regs|)
  {
    ListIsShort(Up(max), regs);
    var d := Number(Up(max), regs);
    NumbersInRange(Up(max), regs);
    UnpackPack(max, d, 0);
    assert d[0..] == d;
    NameNumber(Up(max), regs, default);
    if regs != [] {
      PackBounded(max, d, 0);
    }
  }

  /** Every number below N! / (N - n)! is the number of a list of n different registers. */
  lemma EncodeDecode(max: nat, n: nat, p: nat, default: seq<nat>)
    requires n <= max && p < Lists(max, n) && |default| == n
    ensures ListOf(Up(max), Decode(max, n, p, default)) && Encode(max, Decode(max, n, p, default)) == p
  {
    var d := Unpack(max, n, 0, p);
    if n > 0 {
      UnpackDigits(max, n, 0, p);
    }
    NumberName(Up(max), d, default);
    assert d[0..] == d;
    PackUnpack(max, n, 0, p, d);
  }

  /** The numbers of lists of at most six of six registers fit into the ten bits of the format. */
  lemma FitsTenBits(regs: seq<nat>)
    requires ListOf(Up(REGISTER_MAX), regs)
    ensures |regs| <= REGISTER_MAX && Encode(REGISTER_MAX, regs) < 720
  {
    DecodeEncode(REGISTER_MAX, regs, regs);
    FactorsOfSix();
  }

  /** The factors of the source's tables. */
  lemma FactorsOfSix()
    ensures Factor(6, 1, 0) == 1
    ensures Factor(6, 2, 0) == 5 && Factor(6, 2, 1) == 1
    ensures Factor(6, 3, 0) == 20 && Factor(6, 3, 1) == 4 && Factor(6, 3, 2) == 1
    ensures Factor(6, 4, 0) == 60 && Factor(6, 4, 1) == 12 && Factor(6, 4, 2) == 3 && Factor(6, 4, 3) == 1
    ensures Factor(6, 5, 0) == 120 && Factor(6, 5, 1) == 24 && Factor(6, 5, 2) == 6 && Factor(6, 5, 3) == 2
    ensures Factor(6, 5, 4) == 1
    ensures Factor(6, 6, 0) == 120 && Factor(6, 6, 1) == 24 && Factor(6, 6, 2) == 6 && Factor(6, 6, 3) == 2
    ensures Factor(6, 6, 4) == 1 && Factor(6, 6, 5) == 1
  {
    assert Factor(6, 6, 3) == 2 && Factor(6, 5, 3) == 2 && Factor(6, 4, 2) == 3;
    assert Factor(6, 6, 1) == 24 && Factor(6, 5, 1) == 24;
  }
}
