/** `dwarf_stack`: the fixed-size evaluation stack. */
module DwarfStackClass {
  import opened Common

  const STACK_SIZE := 100

  class DwarfStack {
    const mem: array<nat>
    var sp: nat

    ghost predicate Valid()
      reads this
    {
      mem.Length == STACK_SIZE && sp <= STACK_SIZE
    }

    /** The values from the bottom up. */
    ghost function Contents(): (s: seq<nat>)
      requires Valid()
      reads this, mem
      ensures |s| <= STACK_SIZE
    {
      mem[..sp]
    }

    constructor ()
      ensures Valid() && fresh(mem) && Contents() == []
    {
      mem := new nat[STACK_SIZE];
      sp := 0;
    }

    method Push(value: nat) returns (ok: bool)
      requires Valid()
      modifies this, mem
      ensures Valid()
      ensures ok == (|old(Contents())| < STACK_SIZE)
      ensures Contents() == if ok then old(Contents()) + [value] else old(Contents())
    {
      if sp == STACK_SIZE {
        return false;
      }
      mem[sp] := value;
      sp := sp + 1;
      return true;
    }

    method Pop() returns (r: Option<nat>)
      requires Valid()
      modifies this
      ensures Valid()
      ensures
        var s := old(Contents());
        if s == [] then r == None && Contents() == [] else r == Some(s[|s| - 1]) && Contents() == s[..|s| - 1]
    {
      if sp == 0 {
        return None;
      }
      sp := sp - 1;
      return Some(mem[sp]);
    }

    /** On a full stack nothing is pushed, and the call succeeds all the same. */
    method Pick(index: nat) returns (ok: bool)
      requires Valid()
      modifies this, mem
      ensures Valid()
      ensures
        var s := old(Contents());
        && ok == (index < |s|)
        && Contents() == if ok && |s| < STACK_SIZE then s + [s[|s| - 1 - index]] else s
    {
      if sp <= index {
        return false;
      }
      var pushed := Push(mem[sp - 1 - index]);
      return true;
    }

    method Drop() returns (ok: bool)
      requires Valid()
      modifies this
      ensures Valid()
      ensures
        var s := old(Contents());
        ok == (s != []) && Contents() == if ok then s[..|s| - 1] else s
    {
      if sp == 0 {
        return false;
      }
      sp := sp - 1;
      return true;
    }

    method Dup() returns (ok: bool)
      requires Valid()
      modifies this, mem
      ensures Valid()
      ensures
        var s := old(Contents());
        ok == (0 < |s| < STACK_SIZE) && Contents() == if ok then s + [s[|s| - 1]] else s
    {
      if sp == STACK_SIZE || sp == 0 {
        return false;
      }
      ok := Push(mem[sp - 1]);
    }

    method Swap() returns (ok: bool)
      requires Valid()
      modifies this, mem
      ensures Valid()
      ensures
        var s := old(Contents());
        ok == (|s| >= 2) && Contents() == if ok then s[..|s| - 2] + [s[|s| - 1], s[|s| - 2]] else []
    {
      var v1 := Pop();
      if v1.None? {
        return false;
      }
      var v2 := Pop();
      if v2.None? {
        return false;
      }
      ok := Push(v1.value);
      ok := Push(v2.value);
    }

    method Rotate() returns (ok: bool)
      requires Valid()
      modifies this, mem
      ensures Valid()
      ensures
        var s := old(Contents());
        && ok == (|s| >= 3)
        && Contents() == if ok then s[..|s| - 3] + [s[|s| - 1], s[|s| - 3], s[|s| - 2]] else []
    {
      hide DwarfStack.Contents;
      var v1 := Pop();
      if v1.None? {
        return false;
      }
      var v2 := Pop();
      if v2.None? {
        return false;
      }
      var v3 := Pop();
      if v3.None? {
        return false;
      }
      ok := Push(v1.value);
      ok := Push(v3.value);
      ok := Push(v2.value);
    }
  }
}
