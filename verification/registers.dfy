/** The per-architecture register table that `SwiftIDA.init` selects once,
    following the Swift calling-convention summary for x86-64 and ARM64. */
module Registers {
  import opened Wrappers
  import opened Text

  /** Return registers, argument registers, and the special registers for
      the hidden `self`, error-return and async-context arguments, in that
      order. */
  datatype ArchProfile = ArchProfile(ret: seq<string>, arg: seq<string>, special: seq<string>)

  /** What the rewriter needs of a profile: a primary return register for
      the default return binding. */
  predicate ValidProfile(p: ArchProfile) {
    |p.ret| >= 1
  }

  /** AArch64 registers `x<lo>` up to, but not including, `x<hi>`. */
  function XRegisters(lo: nat, hi: nat): seq<string>
    requires lo <= hi
  {
    seq(hi - lo, j requires 0 <= j < hi - lo => "x" + NatToString(lo + j))
  }

  /** No special register is also an ordinary argument or return register. */
  predicate SpecialApart(p: ArchProfile) {
    forall x :: x in p.special ==> x !in p.arg && x !in p.ret
  }

  /** The x86-64 table: a primary return register, three special registers
      apart from the others, and at least as many argument registers as
      return registers. */
  function X86_64(): (r: ArchProfile)
    ensures ValidProfile(r) && |r.special| == 3 && |r.arg| >= |r.ret|
    ensures SpecialApart(r)
  {
    ArchProfile(["rax", "rdx", "rcx", "r8"],
                ["rdi", "rsi", "rdx", "rcx", "r8", "r9"],
                ["r13", "r12", "r14"])
  }

  function Arm64(): ArchProfile {
    ArchProfile(XRegisters(0, 8), XRegisters(0, 8), XRegisters(20, 23))
  }

  /** The table for processor module `procName` (compared in lower case)
      on a 64-bit or other database; `None` is the unsupported target for
      which the plugin skips loading. */
  function Resolve(procName: string, is64: bool): (r: Option<ArchProfile>)
    ensures r.Some? <==> is64 && (Lower(procName) == "metapc" || Lower(procName) == "arm")
    ensures r.Some? ==> ValidProfile(r.value) && |r.value.special| == 3
    ensures r.Some? ==> |r.value.arg| >= |r.value.ret|
    ensures r.Some? ==> SpecialApart(r.value)
    ensures is64 && Lower(procName) == "metapc" ==> r == Some(X86_64())
    ensures is64 && Lower(procName) == "arm" ==> r == Some(Arm64())
  {
    if Lower(procName) == "metapc" && is64 then Some(X86_64())
    else if Lower(procName) == "arm" && is64 then
      Arm64Registers();
      Some(Arm64())
    else None
  }

  /** The ARM64 table spelled out: x0 to x7 for returns and arguments,
      x20 to x22 for self, error-return and async context. */
  lemma Arm64Registers()
    ensures Arm64() == ArchProfile(["x0", "x1", "x2", "x3", "x4", "x5", "x6", "x7"],
                                   ["x0", "x1", "x2", "x3", "x4", "x5", "x6", "x7"],
                                   ["x20", "x21", "x22"])
  {
    var low := XRegisters(0, 8);
    forall j | 0 <= j < 8 ensures low[j] == ["x0", "x1", "x2", "x3", "x4", "x5", "x6", "x7"][j] {
      assert NatToString(j) == [DigitChar(j)];
      assert low[j] == "x" + NatToString(j);
    }
    assert low == ["x0", "x1", "x2", "x3", "x4", "x5", "x6", "x7"];
    var high := XRegisters(20, 23);
    forall j | 0 <= j < 3 ensures high[j] == ["x20", "x21", "x22"][j] {
      assert NatToString(20 + j) == NatToString(2) + [DigitChar(j)];
      assert high[j] == "x" + NatToString(20 + j);
    }
    assert high == ["x20", "x21", "x22"];
  }

  /** Upper-case spellings select the same tables; 32-bit databases and
      other processors are unsupported. */
  lemma ResolveExamples()
    ensures Resolve("metapc", true) == Some(X86_64())
    ensures Resolve("ARM", true) == Some(Arm64())
    ensures Resolve("metapc", false) == None
    ensures Resolve("mips", true) == None
  {
    assert Lower("ARM") == "arm";
    assert Lower("mips") != "arm" && Lower("mips") != "metapc" by {
      assert Lower("mips")[0] == 'm' && Lower("mips")[1] == 'i';
    }
  }
}
