/** Worked examples of the whole parse, edit and serialize cycle on the
    x86-64 table. */
module Scenarios {
  import opened Wrappers
  import opened Text
  import opened Registers
  import opened SignatureRegex
  import opened Parser
  import opened Serializer
  import opened Edits

  /** The pattern splits `int __fastcall(char*, int)` into its base and its
      arguments, with no return bindings. */
  lemma ExampleMatch()
    ensures MatchSignature("int __fastcall(char*, int)")
            == Some(Groups("int __fastcall", None, Some("char*, int")))
  {
    var g := Groups("int __fastcall", None, Some("char*, int"));
    assert Render(g) == "int __fastcall(char*, int)";
    MatchExactly("int __fastcall(char*, int)", g);
  }

  /** The base `int __fastcall` splits into two tokens and has no stars to fold. */
  lemma ExampleBase()
    ensures BaseTokens(Groups("int __fastcall", None, Some("char*, int"))) == ["int", "__fastcall"]
  {
    var toks := ["int", "__fastcall"];
    LacksFirst("int", " ");
    LacksFirst("__fastcall", " ");
    assert Join(toks, " ") == "int __fastcall";
    SplitJoin(toks, " ");
    assert Split("int __fastcall", " ") == toks;
    assert LeadingStars("__fastcall") == 0;
    var f := StarFold(toks);
    assert Stars(0) == [];
    assert f[0] == "int";
    assert f[1] == "__fastcall";
    assert f == toks;
  }

  /** The argument text cuts into two arguments. */
  lemma ExampleWrittenArgs()
    ensures WrittenArgs(Groups("int __fastcall", None, Some("char*, int"))) == ["char*", "int"]
  {
    var args := ["char*", "int"];
    LacksFirst("char*", ", ");
    LacksFirst("int", ", ");
    assert Join(args, ", ") == "char*, int";
    SplitJoin(args, ", ");
  }

  /** The two written arguments go to `rdi` and `rsi`. */
  lemma ExampleArgs()
    ensures FastcallArgs(["char*", "int"], X86_64().arg) == ["char*@<rdi>", "int@<rsi>"]
  {
    FirstTwoArgs(X86_64().arg);
  }

  /** The two written arguments, for any table whose first argument
      registers are `rdi` and `rsi`. */
  lemma FirstTwoArgs(regs: seq<string>)
    requires |regs| >= 2 && regs[0] == "rdi" && regs[1] == "rsi"
    ensures FastcallArgs(["char*", "int"], regs) == ["char*@<rdi>", "int@<rsi>"]
  {
    var f := FastcallArgs(["char*", "int"], regs);
    FastcallOne("char*", "rdi", "char*@<rdi>");
    FastcallOne("int", "rsi", "int@<rsi>");
    assert f[0] == "char*@<rdi>" && f[1] == "int@<rsi>";
  }

  /** An argument without `@` gets the annotation appended to all of it. */
  lemma FastcallOne(x: string, reg: string, annotated: string)
    requires '@' !in x && annotated == x + "@<" + reg + ">"
    ensures Split(x, "@")[0] + "@<" + reg + ">" == annotated
  {
    LacksFirst(x, "@");
    SplitJoin([x], "@");
    assert Join([x], "@") == x;
  }

  /** Removing the convention keywords from `int __fastcall` leaves `int`. */
  lemma ExampleDiscard()
    ensures DiscardEach(["int", "__fastcall"], Conventions) == ["int"]
    ensures "__swiftcall" !in ["int", "__fastcall"]
    ensures Lower("int") != "void"
  {
    var base := ["int", "__fastcall"];
    assert Conventions[..1] == ["__fastcall"];
    assert Conventions[..0] == [];
    assert DiscardEach(base, []) == base;
    assert RemoveFirst(base, "__fastcall") == ["int"];
    assert DiscardEach(base, ["__fastcall"]) == ["int"];
    assert "__usercall" !in ["int"];
    assert |Lower("int")| == 3;
  }

  /** With no bindings written, the default one is offset 0 of `rax`. */
  lemma ExampleDefaultBinding()
    ensures "0:" + X86_64().ret[0] == "0:rax"
  {
    assert X86_64().ret[0] == "rax";
  }

  /** `int __fastcall(char*, int)` parses to the base `int`, the default
      binding on `rax` and the two arguments in `rdi` and `rsi`. */
  lemma ParseWorkedExample(s: string)
    requires s == "int __fastcall(char*, int)"
    ensures ParseSpec(X86_64(), Some(s))
            == Success(Signature(["int"], ["0:rax"], ["char*@<rdi>", "int@<rsi>"]))
  {
    ExampleMatch();
    ExampleBase();
    ExampleWrittenArgs();
    ExampleArgs();
    ExampleDiscard();
    ExampleDefaultBinding();
    FastcallParse(X86_64(), s, Groups("int __fastcall", None, Some("char*, int")));
  }

  /** A `__fastcall` parse without written bindings, in terms of its parts. */
  lemma FastcallParse(arch: ArchProfile, s: string, g: Groups)
    requires ValidProfile(arch) && MatchSignature(s) == Some(g) && g.ret.None?
    requires var base := BaseTokens(g);
      "__fastcall" in base && "__swiftcall" !in base && Lower(base[0]) != "void"
      && |WrittenArgs(g)| <= |arch.arg|
    ensures ParseSpec(arch, Some(s)) == Success(Signature(DiscardEach(BaseTokens(g), Conventions),
                                                          ["0:" + arch.ret[0]], FastcallArgs(WrittenArgs(g), arch.arg)))
  {
    var given := WrittenBindings(g);
    assert given == [];
    assert given + ["0:" + arch.ret[0]] == ["0:" + arch.ret[0]];
  }

  // ExampleJoins, SerializeParts, ExampleTextHead and ExampleText below only
  // spell out the concatenations behind ExampleSerialize, in steps small
  // enough for the solver; they state nothing about the plugin by themselves.

  /** The lists of the parsed example, joined as the serializer joins them. */
  lemma ExampleJoins()
    ensures Join(["int"], " ") == "int"
    ensures Join(["0:rax"], ", ") == "0:rax"
    ensures Join(["char*@<rdi>", "int@<rsi>"], ", ") == "char*@<rdi>, int@<rsi>"
  {
    assert Join(["int@<rsi>"], ", ") == "int@<rsi>";
    assert ["char*@<rdi>", "int@<rsi>"][1..] == ["int@<rsi>"];
  }

  /** The parsed example is written back in `__usercall` form. */
  lemma ExampleSerialize()
    ensures Serialize(Signature(["int"], ["0:rax"], ["char*@<rdi>", "int@<rsi>"]))
            == "int __usercall func@<0:rax>(char*@<rdi>, int@<rsi>)"
  {
    ExampleJoins();
    SerializeParts(Signature(["int"], ["0:rax"], ["char*@<rdi>", "int@<rsi>"]),
                   "int", "0:rax", "char*@<rdi>, int@<rsi>");
    ExampleText();
  }

  /** A serialized type with return bindings, in terms of its joined lists. */
  lemma SerializeParts(sig: Signature, base: string, ret: string, args: string)
    requires |sig.ret| > 0
    requires Join(sig.base, " ") == base && Join(sig.ret, ", ") == ret && Join(sig.args, ", ") == args
    ensures Serialize(sig) == base + " __usercall func@<" + ret + ">(" + args + ")"
  {
  }

  /** The text of the serialized example up to its argument list. */
  lemma ExampleTextHead()
    ensures "int" + " __usercall func@<" + "0:rax" + ">(" == "int __usercall func@<0:rax>("
  {
    assert "int" + " __usercall func@<" == "int __usercall func@<";
    assert "int __usercall func@<" + "0:rax" == "int __usercall func@<0:rax";
  }

  /** The text of the serialized example, piece by piece. */
  lemma ExampleText()
    ensures "int" + " __usercall func@<" + "0:rax" + ">(" + "char*@<rdi>, int@<rsi>" + ")"
            == "int __usercall func@<0:rax>(char*@<rdi>, int@<rsi>)"
  {
    ExampleTextHead();
    assert "int __usercall func@<0:rax>(" + "char*@<rdi>, int@<rsi>"
           == "int __usercall func@<0:rax>(char*@<rdi>, int@<rsi>";
  }

  /** Converting `int __fastcall(char*, int)` to `__usercall` writes
      `int __usercall func@<0:rax>(char*@<rdi>, int@<rsi>)`. */
  lemma ConvertWorkedExample(s: string, setType: string -> bool)
    requires s == "int __fastcall(char*, int)"
    requires setType("int __usercall func@<0:rax>(char*@<rdi>, int@<rsi>)")
    ensures Update(ParseSpec(X86_64(), Some(s)), setType)
            == Success("int __usercall func@<0:rax>(char*@<rdi>, int@<rsi>)")
  {
    ParseWorkedExample(s);
    ExampleSerialize();
  }

  /** The bindings of a three-word return on x86-64. */
  lemma ExampleTupleBindings()
    ensures TupleBindings(3, X86_64().ret) == ["0:rax", "8:rdx", "16:rcx"]
  {
    var regs := X86_64().ret;
    assert regs[0] == "rax" && regs[1] == "rdx" && regs[2] == "rcx";
    assert NatToString(0) == "0";
    assert NatToString(8) == "8";
    assert NatToString(16) == "16";
    var b := TupleBindings(3, regs);
    assert b[0] == "0:rax";
    assert b[1] == "8:rdx";
    assert b[2] == "16:rcx";
  }

  /** A three-word return on x86-64 uses `rax`, `rdx` and `rcx` at offsets
      0, 8 and 16; five words are more than the four return registers. */
  lemma MultiReturnExample(sig: Signature)
    requires |sig.base| > 0
    ensures WithTupleReturn(sig, 3, X86_64().ret)
            == Success(Signature(sig.base[0 := "swiftida_tuple3"], ["0:rax", "8:rdx", "16:rcx"], sig.args))
    ensures WithTupleReturn(sig, 5, X86_64().ret) == Failure(RegisterCountExceeded)
  {
    ExampleTupleBindings();
    assert StructName(3) == "swiftida_tuple3" by {
      assert NatToString(3) == "3";
    }
  }

  /** Adding the `self` argument on x86-64 appends `__int64@<r13>` once. */
  lemma AddSelfExample()
    ensures WithHiddenArg(Signature(["int"], ["0:rax"], ["char*@<rdi>"]), X86_64().special[0])
            == Signature(["int"], ["0:rax"], ["char*@<rdi>", "__int64@<r13>"])
  {
    assert X86_64().special[0] == "r13";
    assert Annotation("r13") == "@<r13>";
    assert "@<r13>"[3] == '1';
    LacksChar("char*@<rdi>", "@<r13>", 3);
    assert !Annotated(["char*@<rdi>"], "r13");
    assert "__int64" + Annotation("r13") == "__int64@<r13>";
    assert ["char*@<rdi>"] + ["__int64@<r13>"] == ["char*@<rdi>", "__int64@<r13>"];
  }
}
