/** Vocabulary shared by the models: machine integers, error codes and optional values. */
module Common {
  type uint8 = x: int | 0 <= x < 0x100
  type uint32 = x: int | 0 <= x < 0x1_0000_0000

  const UINT8_MAX := 0xFF
  const UINT32_MAX := 0xFFFF_FFFF
  const UINT64_MAX := 0xFFFF_FFFF_FFFF_FFFF
  const TWO_TO_64 := 0x1_0000_0000_0000_0000

  /** The bounds of `pl_vm_address_t` and `pl_vm_off_t` on 64-bit hosts. */
  const ADDRESS_MAX := UINT64_MAX
  const OFF_MAX := 0x7FFF_FFFF_FFFF_FFFF

  datatype Error =
    | ENOMEM
    | ENOTSUP
    | EINVAL
    | EINTERNAL
    | EACCESS
    | ENOTFOUND
    | EINVALID_DATA

  datatype Option<+T> = None | Some(value: T)

  datatype Result<+T> = Ok(value: T) | Err(error: Error)

  /** A register of `plcrash_async_thread_state`. */
  type PlReg = nat

  const REG_IP: PlReg := 0
  const REG_FP: PlReg := 1
  const REG_SP: PlReg := 2

  /** The registers that are available, with their values. */
  type ThreadState = map<PlReg, nat>

  /** `(int64_t) x` for an unsigned 64-bit value. */
  function ToSigned64(x: int): int
  {
    var m := x % TWO_TO_64;
    if m <= OFF_MAX then m else m - TWO_TO_64
  }

  /** Conversion to an unsigned word of `modulus` values. */
  function WordOf(x: int, modulus: nat): (r: nat)
    requires modulus > 0
    ensures r < modulus
  {
    x % modulus
  }

  /** Conversion to a signed word, in two's complement. */
  function SignedWordOf(x: int, modulus: nat): int
    requires modulus > 0
  {
    if WordOf(x, modulus) < modulus / 2 then WordOf(x, modulus) else WordOf(x, modulus) - modulus
  }

  /** `plcrash_async_address_apply_offset`: fails exactly when the sum leaves the address space. */
  function ApplyOffset(base: nat, offset: int): (r: Option<nat>)
    requires base <= ADDRESS_MAX
    ensures r == if 0 <= base + offset <= ADDRESS_MAX then Some(base + offset) else None
  {
    if offset > 0 && ADDRESS_MAX - offset < base then None
    else if offset < 0 && -offset > base then None
    else Some(base + offset)
  }

  ghost predicate Distinct<T(!new)>(s: seq<T>) {
    forall i, j :: 0 <= i < j < |s| ==> s[i] != s[j]
  }

  ghost function Elements<T(!new)>(s: seq<T>): set<T> {
    set x | x in s
  }

  lemma {:induction false} DistinctCount<T(!new)>(s: seq<T>)
    requires Distinct(s)
    ensures |Elements(s)| == |s|
  {
    if s != [] {
      var n := |s| - 1;
      assert Elements(s) == Elements(s[..n]) + {s[n]};
      assert s[n] !in s[..n];
      DistinctCount(s[..n]);
    } else {
      assert Elements(s) == {};
    }
  }

  lemma {:induction false} NumbersBelow(n: nat) returns (s: set<nat>)
    ensures |s| == n && forall i: nat :: i in s <==> i < n
  {
    if n == 0 {
      s := {};
    } else {
      var t := NumbersBelow(n - 1);
      s := t + {n - 1};
    }
  }

  /** There are no more than `n` different numbers below `n`. */
  lemma DistinctBounded(s: seq<nat>, n: nat)
    requires Distinct(s) && forall i :: 0 <= i < |s| ==> s[i] < n
    ensures |s| <= n
  {
    DistinctCount(s);
    var all := NumbersBelow(n);
    assert all == Elements(s) + (all - Elements(s));
  }
}
