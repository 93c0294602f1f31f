/** The three edits the plugin offers on a function's type: convert to
    `__usercall`, add a hidden argument, make a multi-register return. Each
    one parses the declared type, changes the triple and writes it back. */
module Edits {
  import opened Wrappers
  import opened Text
  import opened Registers
  import opened SignatureRegex
  import opened Parser
  import opened Serializer

  /** The annotation that binds an argument to register `reg`. */
  function Annotation(reg: string): string {
    "@<" + reg + ">"
  }

  /** Some argument already carries the annotation for `reg`, found by a
      substring test (not by looking at the argument's type). */
  predicate Annotated(args: seq<string>, reg: string) {
    exists i :: 0 <= i < |args| && Contains(args[i], Annotation(reg))
  }

  /** The change `add_callee_arg` makes to the triple: an `__int64` argument
      in `reg` at the end, unless an argument already names that register.
      Afterwards the register is annotated, and base, bindings and the
      existing arguments are as before. */
  function WithHiddenArg(sig: Signature, reg: string): (r: Signature)
    ensures r.base == sig.base && r.ret == sig.ret
    ensures |sig.args| <= |r.args| <= |sig.args| + 1 && r.args[..|sig.args|] == sig.args
    ensures Annotated(r.args, reg)
    ensures Annotated(sig.args, reg) <==> r == sig
    ensures !Annotated(sig.args, reg) ==> r.args == sig.args + ["__int64" + Annotation(reg)]
  {
    if Annotated(sig.args, reg) then sig
    else
      var hidden := "__int64" + Annotation(reg);
      assert OccursAt(hidden, Annotation(reg), 7);
      assert Contains(hidden, Annotation(reg));
      assert (sig.args + [hidden])[|sig.args|] == hidden;
      sig.(args := sig.args + [hidden])
  }

  /** Adding the same hidden argument twice is the same as adding it once. */
  lemma HiddenArgIdempotent(sig: Signature, reg: string)
    ensures WithHiddenArg(WithHiddenArg(sig, reg), reg) == WithHiddenArg(sig, reg)
  {
  }

  /** One more argument is annotated exactly when the earlier ones are or
      it contains the annotation itself. */
  lemma AnnotatedPrefix(args: seq<string>, reg: string, k: nat)
    requires k < |args|
    ensures Annotated(args[..k + 1], reg) <==> Annotated(args[..k], reg) || Contains(args[k], Annotation(reg))
  {
    var longer := args[..k + 1];
    assert longer[k] == args[k];
    assert forall j :: 0 <= j < k ==> longer[j] == args[..k][j];
  }

  /** The search may stop at the first annotated argument, or after the last. */
  lemma AnnotatedWhole(args: seq<string>, reg: string, k: nat)
    requires k <= |args|
    requires Annotated(args[..k], reg) || k == |args|
    ensures Annotated(args[..k], reg) == Annotated(args, reg)
  {
    assert forall j :: 0 <= j < k ==> args[..k][j] == args[j];
    if k == |args| {
      assert args[..k] == args;
    }
  }

  /** `add_callee_arg(ea, i)`: `i` is 0 for self, 1 for the error return and
      2 for the async context. */
  method AddCalleeArg(arch: ArchProfile, declared: Option<string>, i: nat, setType: string -> bool)
    returns (r: Result<string, Error>)
    requires ValidProfile(arch) && i < |arch.special|
    ensures ParseSpec(arch, declared).Failure? ==> r == Failure(ParseSpec(arch, declared).error)
    ensures ParseSpec(arch, declared).Success? ==>
              r == Update(Success(WithHiddenArg(ParseSpec(arch, declared).value, arch.special[i])), setType)
  {
    var parsed := ParseCurrentFuncType(arch, declared);
    if parsed.Failure? {
      return Failure(parsed.error);
    }
    var sig := parsed.value;
    var tag := Annotation(arch.special[i]);
    var found := false;
    var k := 0;
    while k < |sig.args| && !found
      invariant 0 <= k <= |sig.args|
      invariant found == Annotated(sig.args[..k], arch.special[i])
    {
      AnnotatedPrefix(sig.args, arch.special[i], k);
      found := Contains(sig.args[k], tag);
      k := k + 1;
    }
    AnnotatedWhole(sig.args, arch.special[i], k);
    var args := sig.args;
    if !found {
      args := args + ["__int64" + tag];
    }
    r := Update(Success(Signature(sig.base, sig.ret, args)), setType);
  }

  /** `convert_to_usercall`: the parsed triple is written back unchanged, so
      the new type is the parse itself in `__usercall` form. */
  method ConvertToUsercall(arch: ArchProfile, declared: Option<string>, setType: string -> bool)
    returns (r: Result<string, Error>)
    requires ValidProfile(arch)
    ensures r == Update(ParseSpec(arch, declared), setType)
  {
    var parsed := ParseCurrentFuncType(arch, declared);
    if parsed.Failure? {
      return Failure(parsed.error);
    }
    r := Update(Success(parsed.value), setType);
  }

  /** The name of the tuple struct for `n` words. */
  function StructName(n: nat): string {
    "swiftida_tuple" + NatToString(n)
  }

  /** The bindings of an `n`-word return: word `j` at byte offset `8 * j` in
      return register `j`. */
  function TupleBindings(n: nat, regs: seq<string>): (r: seq<string>)
    requires n <= |regs|
    ensures |r| == n
  {
    seq(n, j requires 0 <= j < n => NatToString(8 * j) + ":" + regs[j])
  }

  /** Each tuple binding reads back as the byte offset of its word, then the
      register of its position. */
  lemma TupleBindingsRead(n: nat, regs: seq<string>, j: nat)
    requires n <= |regs| && j < n
    ensures var b := TupleBindings(n, regs)[j]; var off := Split(b, ":")[0];
      && (forall c :: 0 <= c < |off| ==> '0' <= off[c] <= '9')
      && DecimalValue(off) == 8 * j
      && b == off + ":" + regs[j]
  {
    var digits := NatToString(8 * j);
    var b := TupleBindings(n, regs)[j];
    assert b == digits + ":" + regs[j];
    FirstPieceIsPrefix(b, ':');
    var off := Split(b, ":")[0];
    assert ':' !in digits;
    assert b[|digits|] == ':';
    assert off == digits;
    DecimalRoundTrip(8 * j);
  }

  /** The change `make_multi_return` makes to the triple: the return type
      becomes the tuple struct, and the bindings name the first `n` return
      registers. It fails when no base token is left to replace or when
      there are fewer than `n` return registers. */
  function WithTupleReturn(sig: Signature, n: nat, regs: seq<string>): (r: Result<Signature, Error>)
    ensures r.Success? <==> |sig.base| > 0 && n <= |regs|
    ensures r.Failure? ==> r.error == (if |sig.base| == 0 then EmptyBase else RegisterCountExceeded)
    ensures r.Success? ==> |r.value.base| == |sig.base| && r.value.base[0] == StructName(n)
    ensures r.Success? ==> r.value.base[1..] == sig.base[1..] && r.value.args == sig.args
    ensures r.Success? ==> |r.value.ret| == n && forall j :: 0 <= j < n ==> Split(r.value.ret[j], ":")[0] == NatToString(8 * j)
    ensures r.Success? ==> forall j :: 0 <= j < n ==> r.value.ret[j] == NatToString(8 * j) + ":" + regs[j]
  {
    if |sig.base| == 0 then Failure(EmptyBase)
    else if n > |regs| then Failure(RegisterCountExceeded)
    else
      var bindings := TupleBindings(n, regs);
      assert forall j :: 0 <= j < n ==> Split(bindings[j], ":")[0] == NatToString(8 * j) by {
        forall j | 0 <= j < n ensures Split(bindings[j], ":")[0] == NatToString(8 * j) {
          TupleBindingsRead(n, regs, j);
        }
      }
      Success(Signature(sig.base[0 := StructName(n)], bindings, sig.args))
  }

  /** The tuple sizes the plugin offers: 2 up to the number of return registers. */
  function OfferedTupleSizes(arch: ArchProfile): (sizes: seq<nat>)
    ensures forall k :: 0 <= k < |sizes| ==> 2 <= sizes[k] <= |arch.ret|
    ensures forall n :: 2 <= n <= |arch.ret| ==> n in sizes
  {
    var sizes := seq(if |arch.ret| >= 2 then |arch.ret| - 1 else 0, k => k + 2);
    forall n | 2 <= n <= |arch.ret| ensures n in sizes {
      assert sizes[n - 2] == n;
    }
    sizes
  }

  /** `make_multi_return(ea, n)`. The tuple struct is created in the type
      library before the parse; that call is outside this model. */
  method MakeMultiReturn(arch: ArchProfile, declared: Option<string>, n: nat, setType: string -> bool)
    returns (r: Result<string, Error>)
    requires ValidProfile(arch)
    ensures ParseSpec(arch, declared).Failure? ==> r == Failure(ParseSpec(arch, declared).error)
    ensures ParseSpec(arch, declared).Success? ==>
              r == Update(WithTupleReturn(ParseSpec(arch, declared).value, n, arch.ret), setType)
  {
    var parsed := ParseCurrentFuncType(arch, declared);
    if parsed.Failure? {
      return Failure(parsed.error);
    }
    var base := parsed.value.base;
    if |base| == 0 {
      return Failure(EmptyBase);
    }
    base := base[0 := StructName(n)];
    if n > |arch.ret| {
      return Failure(RegisterCountExceeded);
    }
    var retRegs := TupleBindings(n, arch.ret);
    r := Update(Success(Signature(base, retRegs, parsed.value.args)), setType);
  }
}
