/** `SwiftIDA.parse_current_func_type`: from a declared type string to the
    triple of base tokens, return bindings and arguments. */
module Parser {
  import opened Wrappers
  import opened Text
  import opened Registers
  import opened SignatureRegex

  /** The parsed triple `(base, ret_regs, args)`. */
  datatype Signature = Signature(base: seq<string>, ret: seq<string>, args: seq<string>)

  /** Why an edit stops before a new type is written. */
  datatype Error =
    | NoDeclaredType         // `idc.get_type` gave no type for the address
    | MalformedSignature     // `func_regex` did not match
    | TooManyArguments       // more `__fastcall` arguments than argument registers
    | UnsupportedConvention  // `__swiftcall` is a base token
    | EmptyBase              // no base token is left to become the tuple type
    | RegisterCountExceeded  // a tuple wider than the return registers
    | TypeCommitFailed       // `idc.SetType` refused the new type

  /** The number of `*` characters `t` starts with. */
  function LeadingStars(t: string): (n: nat)
    ensures n <= |t|
  {
    if |t| > 0 && t[0] == '*' then 1 + LeadingStars(t[1..]) else 0
  }

  /** `n` star characters. */
  function Stars(n: nat): (r: string)
    ensures |r| == n
  {
    if n == 0 then "" else Stars(n - 1) + "*"
  }

  /** A star in front of `n` stars is `n + 1` stars. */
  lemma {:induction false} StarsCons(n: nat)
    ensures "*" + Stars(n) == Stars(n + 1)
  {
    if n > 0 {
      StarsCons(n - 1);
      assert "*" + Stars(n) == "*" + Stars(n - 1) + "*";
    }
  }

  /** `t` is its leading stars followed by a rest that does not start with `*`. */
  lemma {:induction false} LeadingStarsSplit(t: string)
    ensures t == Stars(LeadingStars(t)) + t[LeadingStars(t)..]
    ensures LeadingStars(t) < |t| ==> t[LeadingStars(t)] != '*'
  {
    if |t| > 0 && t[0] == '*' {
      var n := LeadingStars(t);
      LeadingStarsSplit(t[1..]);
      assert t[1..][n - 1..] == t[n..];
      StarsCons(n - 1);
      assert t == [t[0]] + t[1..];
    }
  }

  /** Token `j` once its own leading stars have moved left (token 0 keeps them). */
  function Stripped(tokens: seq<string>, j: nat): string
    requires j < |tokens|
  {
    if j == 0 then tokens[0] else tokens[j][LeadingStars(tokens[j])..]
  }

  /** The leading stars that token `j` receives from token `j + 1`. */
  function Incoming(tokens: seq<string>, j: nat): nat {
    if j + 1 < |tokens| then LeadingStars(tokens[j + 1]) else 0
  }

  /** The pointer-star fold, in closed form: every token after the first
      hands its leading stars to the token before it, once. Tokens are
      neither merged nor dropped, and the fold does not cascade. */
  function StarFold(tokens: seq<string>): (r: seq<string>)
    ensures |r| == |tokens|
  {
    seq(|tokens|, j requires 0 <= j < |tokens| => Stripped(tokens, j) + Stars(Incoming(tokens, j)))
  }

  /** The nested loop of the parser that moves stars left, token by token
      and star by star, on the list of base tokens. */
  method FoldLeadingStars(tokens: seq<string>) returns (base: seq<string>)
    ensures base == StarFold(tokens)
  {
    base := tokens;
    var i := 1;
    while i < |base|
      invariant |base| == |tokens|
      invariant 1 <= i <= |tokens| + 1 && (|tokens| > 0 ==> i <= |tokens|)
      invariant forall j :: 0 <= j < i - 1 ==> base[j] == Stripped(tokens, j) + Stars(Incoming(tokens, j))
      invariant i - 1 < |tokens| ==> base[i - 1] == Stripped(tokens, i - 1)
      invariant forall j :: i <= j < |tokens| ==> base[j] == tokens[j]
    {
      ghost var k := 0;
      ghost var before := base;
      while |base[i]| > 0 && base[i][0] == '*'
        invariant |base| == |tokens|
        invariant k <= |tokens[i]| && base[i] == tokens[i][k..]
        invariant k + LeadingStars(base[i]) == LeadingStars(tokens[i])
        invariant base[i - 1] == Stripped(tokens, i - 1) + Stars(k)
        invariant forall j :: 0 <= j < |base| && j != i - 1 && j != i ==> base[j] == before[j]
      {
        base := base[i - 1 := base[i - 1] + "*"];
        base := base[i := base[i][1..]];
        k := k + 1;
      }
      assert LeadingStars(base[i]) == 0;
      assert k == Incoming(tokens, i - 1);
      forall j | 0 <= j < i ensures base[j] == Stripped(tokens, j) + Stars(Incoming(tokens, j)) {
        if j < i - 1 {
          assert base[j] == before[j];
        }
      }
      i := i + 1;
    }
    if |tokens| > 0 {
      assert Incoming(tokens, |tokens| - 1) == 0;
    }
    StarFoldEach(tokens, base);
  }

  /** A list that agrees with the fold token by token is the fold. */
  lemma StarFoldEach(tokens: seq<string>, base: seq<string>)
    requires |base| == |tokens|
    requires forall j :: 0 <= j < |tokens| ==> base[j] == Stripped(tokens, j) + Stars(Incoming(tokens, j))
    ensures base == StarFold(tokens)
  {
  }

  /** Token `j > 0` of the fold: its text after its own stars, then the
      stars of the next token. */
  lemma StarFoldAt(tokens: seq<string>, j: nat)
    requires 1 <= j < |tokens|
    ensures StarFold(tokens)[j] == tokens[j][LeadingStars(tokens[j])..] + Stars(Incoming(tokens, j))
  {
  }

  /** Up to token `j`, the folded tokens spell the original ones followed
      by the stars still owed by token `j`. */
  lemma {:induction false} StarFoldPrefix(tokens: seq<string>, j: nat)
    requires 1 <= j <= |tokens|
    ensures Concat(StarFold(tokens)[..j]) == Concat(tokens[..j]) + Stars(Incoming(tokens, j - 1))
  {
    var f := StarFold(tokens);
    if j == 1 {
      assert f[..1][..0] == [] && tokens[..1][..0] == [];
    } else {
      var t := tokens[j - 1];
      var n := LeadingStars(t);
      var m := Incoming(tokens, j - 1);
      var before := Concat(tokens[..j - 1]);
      calc {
        Concat(f[..j]);
      == { ConcatLast(f, j); }
        Concat(f[..j - 1]) + f[j - 1];
      == { StarFoldPrefix(tokens, j - 1); StarFoldAt(tokens, j - 1); }
        before + Stars(n) + (t[n..] + Stars(m));
      ==
        before + (Stars(n) + t[n..]) + Stars(m);
      == { LeadingStarsSplit(t); }
        before + t + Stars(m);
      == { ConcatLast(tokens, j); }
        Concat(tokens[..j]) + Stars(m);
      }
    }
  }

  /** The fold only moves `*` characters: all tokens together still spell
      the same text. */
  lemma StarFoldConcat(tokens: seq<string>)
    ensures Concat(StarFold(tokens)) == Concat(tokens)
  {
    if |tokens| > 0 {
      StarFoldPrefix(tokens, |tokens|);
      assert StarFold(tokens)[..|tokens|] == StarFold(tokens);
      assert tokens[..|tokens|] == tokens;
    }
  }

  /** The fold on the source's own comment example, and on `char * * x`,
      where the emptied token stays and the second star stops one token
      short of `char`. */
  lemma StarFoldExamples()
    ensures StarFold(["char", "*__fastcall"]) == ["char*", "__fastcall"]
    ensures StarFold(["char", "*", "*", "x"]) == ["char*", "*", "", "x"]
  {
    assert LeadingStars("*__fastcall") == 1 && LeadingStars("__fastcall") == 0;
    assert LeadingStars("*") == 1 && LeadingStars("") == 0 && LeadingStars("x") == 0;
    assert Stars(0) == "" && Stars(1) == "*";
    var f := StarFold(["char", "*__fastcall"]);
    assert f[0] == "char" + Stars(1);
    assert f[1] == "*__fastcall"[1..] + Stars(0);
    assert f[0] == "char*" && f[1] == "__fastcall";
    var g := StarFold(["char", "*", "*", "x"]);
    assert g[0] == "char" + Stars(1);
    assert g[1] == "*"[1..] + Stars(1);
    assert g[2] == "*"[1..] + Stars(0);
    assert g[3] == "x"[0..] + Stars(0);
    assert g[0] == "char*" && g[1] == "*" && g[2] == "" && g[3] == "x";
  }

  /** The `__fastcall` rewrite of the arguments: each keeps its text before
      the first `@` and is bound to the argument register of its position.
      The caller has checked that there are enough registers. */
  function FastcallArgs(args: seq<string>, regs: seq<string>): (r: seq<string>)
    requires |args| <= |regs|
    ensures |r| == |args|
  {
    seq(|args|, i requires 0 <= i < |args| => Split(args[i], "@")[0] + "@<" + regs[i] + ">")
  }

  /** A text without `@` is what comes before the `@` added after it. */
  lemma TextBeforeAnnotation(x: string, reg: string)
    requires '@' !in x
    ensures Split(x + "@<" + reg + ">", "@")[0] == x
  {
    var s := x + "@<" + reg + ">";
    var p := Split(s, "@")[0];
    FirstPieceIsPrefix(s, '@');
    assert s[|x|] == '@';
  }

  /** Each rewritten argument keeps its text before the first `@` and ends
      in the annotation for the register of its position. */
  lemma FastcallShape(args: seq<string>, regs: seq<string>)
    requires |args| <= |regs|
    ensures forall i :: 0 <= i < |args| ==>
      var r := FastcallArgs(args, regs)[i];
      && Split(r, "@")[0] == Split(args[i], "@")[0]
      && |r| >= |regs[i]| + 3
      && r[|r| - |regs[i]| - 3..] == "@<" + regs[i] + ">"
  {
    var once := FastcallArgs(args, regs);
    forall i | 0 <= i < |args|
      ensures Split(once[i], "@")[0] == Split(args[i], "@")[0]
    {
      FirstPieceIsPrefix(args[i], '@');
      TextBeforeAnnotation(Split(args[i], "@")[0], regs[i]);
    }
  }

  /** Re-applying the `__fastcall` rewrite changes nothing: the register
      annotation it wrote is discarded and written again. */
  lemma FastcallIdempotent(args: seq<string>, regs: seq<string>)
    requires |args| <= |regs|
    ensures FastcallArgs(FastcallArgs(args, regs), regs) == FastcallArgs(args, regs)
  {
    var once := FastcallArgs(args, regs);
    forall i | 0 <= i < |args|
      ensures FastcallArgs(once, regs)[i] == once[i]
    {
      var x := Split(args[i], "@")[0];
      FirstPieceIsPrefix(args[i], '@');
      TextBeforeAnnotation(x, regs[i]);
    }
  }

  /** The base tokens: the base group cut at single spaces, stars folded. */
  function BaseTokens(g: Groups): (r: seq<string>)
    ensures |r| >= 1
  {
    StarFold(Split(g.base, " "))
  }

  /** The return bindings as written between `@<` and `>`. */
  function WrittenBindings(g: Groups): seq<string> {
    if g.ret.None? then [] else Split(g.ret.value, ", ")
  }

  /** The arguments as written between the parentheses. */
  function WrittenArgs(g: Groups): seq<string> {
    if g.args.None? then [] else Split(g.args.value, ", ")
  }

  /** Drop the first `item` from `base` if it is there. */
  function Discard(base: seq<string>, item: string): seq<string> {
    if item in base then RemoveFirst(base, item) else base
  }

  /** The calling-convention keywords the parser strips, in order. */
  const Conventions: seq<string> := ["__fastcall", "__usercall"]

  /** `Discard` applied for each of `items`, left to right. */
  function DiscardEach(base: seq<string>, items: seq<string>): seq<string> {
    if |items| == 0 then base else Discard(DiscardEach(base, items[..|items| - 1]), items[|items| - 1])
  }

  /** What `parse_current_func_type` returns for a declared type, or why it
      stops: no type, no match of the pattern, too many `__fastcall`
      arguments (the index error of the comprehension), or `__swiftcall`. */
  function ParseSpec(arch: ArchProfile, declared: Option<string>): (r: Result<Signature, Error>)
    requires ValidProfile(arch)
    ensures declared.None? <==> r == Failure(NoDeclaredType)
    ensures r.Failure? ==> r.error.NoDeclaredType? || r.error.MalformedSignature?
                           || r.error.TooManyArguments? || r.error.UnsupportedConvention?
    ensures declared.Some? && r.Success? ==> MatchSignature(declared.value).Some?
  {
    if declared.None? then Failure(NoDeclaredType)
    else match MatchSignature(declared.value)
      case None => Failure(MalformedSignature)
      case Some(g) =>
        var base := BaseTokens(g);
        var given := WrittenBindings(g);
        var ret := if |given| == 0 && Lower(base[0]) != "void" then given + ["0:" + arch.ret[0]] else given;
        var written := WrittenArgs(g);
        if "__fastcall" in base && |written| > |arch.arg| then Failure(TooManyArguments)
        else if "__swiftcall" in base then Failure(UnsupportedConvention)
        else
          var args := if "__fastcall" in base then FastcallArgs(written, arch.arg) else written;
          Success(Signature(DiscardEach(base, Conventions), ret, args))
  }

  /** The parser, step by step on its local lists: split and fold the base,
      add the default binding, rewrite `__fastcall` arguments, reject
      `__swiftcall`, and remove the convention keywords. */
  method ParseCurrentFuncType(arch: ArchProfile, declared: Option<string>) returns (r: Result<Signature, Error>)
    requires ValidProfile(arch)
    ensures r == ParseSpec(arch, declared)
  {
    if declared.None? {
      return Failure(NoDeclaredType);
    }
    var m := MatchSignature(declared.value);
    if m.None? {
      return Failure(MalformedSignature);
    }
    var g := m.value;
    var base := FoldLeadingStars(Split(g.base, " "));
    ghost var folded := base;
    assert folded == BaseTokens(g);
    var retRegs := if g.ret.None? then [] else Split(g.ret.value, ", ");
    assert retRegs == WrittenBindings(g);
    if |retRegs| == 0 && Lower(base[0]) != "void" {
      retRegs := retRegs + ["0:" + arch.ret[0]];
    }
    var args := if g.args.None? then [] else Split(g.args.value, ", ");
    assert args == WrittenArgs(g);
    if "__fastcall" in base {
      if |args| > |arch.arg| {
        return Failure(TooManyArguments);
      }
      args := FastcallArgs(args, arch.arg);
    }
    if "__swiftcall" in base {
      return Failure(UnsupportedConvention);
    }
    ghost var spec := Success(Signature(DiscardEach(folded, Conventions), retRegs, args));
    assert ParseSpec(arch, declared) == spec;
    base := StripConventions(base);
    return Success(Signature(base, retRegs, args));
  }

  /** The parser's loop over the convention keywords: each one is removed
      from the base tokens once, if it is there. */
  method StripConventions(folded: seq<string>) returns (base: seq<string>)
    ensures base == DiscardEach(folded, Conventions)
  {
    base := folded;
    for n := 0 to |Conventions|
      invariant base == DiscardEach(folded, Conventions[..n])
    {
      assert Conventions[..n + 1][..n] == Conventions[..n];
      if Conventions[n] in base {
        base := RemoveFirst(base, Conventions[n]);
      }
    }
    assert Conventions[..|Conventions|] == Conventions;
  }

  /** The parts of a successful parse, named by the groups of the match. */
  lemma ParseParts(arch: ArchProfile, s: string, sig: Signature)
    requires ValidProfile(arch) && ParseSpec(arch, Some(s)) == Success(sig)
    ensures MatchSignature(s).Some?
    ensures var g := MatchSignature(s).value; var base := BaseTokens(g);
      && "__swiftcall" !in base
      && sig.base == DiscardEach(base, Conventions)
      && ("__fastcall" in base ==> |WrittenArgs(g)| <= |arch.arg| && sig.args == FastcallArgs(WrittenArgs(g), arch.arg))
      && ("__fastcall" !in base ==> sig.args == WrittenArgs(g))
  {
  }

  /** The pattern fails to match, and the parse reports a malformed type,
      exactly when the type does not end in `)` or has no `(` after its
      first character. */
  lemma ParseMalformedIff(arch: ArchProfile, s: string)
    requires ValidProfile(arch)
    ensures ParseSpec(arch, Some(s)) == Failure(MalformedSignature) <==>
              !(|s| >= 1 && s[|s| - 1] == ')' && exists q: nat :: 1 <= q && q + 2 <= |s| && s[q] == '(')
  {
    MatchSignatureDefined(s);
  }

  /** Why a matched type is rejected: too many `__fastcall` arguments for
      the argument registers, checked first, then any `__swiftcall` token.
      A type that is not there at all is reported as such. */
  lemma ParseFailures(arch: ArchProfile, s: string)
    requires ValidProfile(arch)
    ensures ParseSpec(arch, None) == Failure(NoDeclaredType)
    ensures MatchSignature(s).Some? ==>
      var g := MatchSignature(s).value; var base := BaseTokens(g);
      var tooMany := "__fastcall" in base && |WrittenArgs(g)| > |arch.arg|;
      && (ParseSpec(arch, Some(s)) == Failure(TooManyArguments) <==> tooMany)
      && (ParseSpec(arch, Some(s)) == Failure(UnsupportedConvention) <==> !tooMany && "__swiftcall" in base)
      && (ParseSpec(arch, Some(s)).Success? <==> !tooMany && "__swiftcall" !in base)
  {
  }

  /** Removing a keyword when present takes exactly one copy of it away. */
  lemma DiscardMultiset(base: seq<string>, item: string)
    ensures multiset(Discard(base, item)) == multiset(base) - multiset{item}
  {
  }

  /** Stripping the convention keywords takes one copy of each away, if
      there is one, and nothing else. */
  lemma DiscardConventions(base: seq<string>)
    ensures multiset(DiscardEach(base, Conventions)) == multiset(base) - multiset{"__fastcall", "__usercall"}
  {
    var once := Discard(base, "__fastcall");
    assert Conventions[..1] == ["__fastcall"];
    assert DiscardEach(base, Conventions[..1]) == once;
    assert DiscardEach(base, Conventions) == Discard(once, "__usercall");
    DiscardMultiset(base, "__fastcall");
    DiscardMultiset(once, "__usercall");
  }

  /** The base of a successful parse: `__swiftcall` was not among the
      folded tokens, and the result is those tokens less one `__fastcall`
      and one `__usercall`, where present. */
  lemma ParseBase(arch: ArchProfile, s: string, sig: Signature)
    requires ValidProfile(arch) && ParseSpec(arch, Some(s)) == Success(sig)
    ensures MatchSignature(s).Some?
    ensures "__swiftcall" !in BaseTokens(MatchSignature(s).value)
    ensures "__swiftcall" !in sig.base
    ensures multiset(sig.base) == multiset(BaseTokens(MatchSignature(s).value)) - multiset{"__fastcall", "__usercall"}
  {
    ParseParts(arch, s, sig);
    var folded := BaseTokens(MatchSignature(s).value);
    DiscardConventions(folded);
    assert multiset(sig.base)["__swiftcall"] <= multiset(folded)["__swiftcall"] == 0;
  }

  /** The return bindings of a successful parse: those written, cut at
      `", "`; otherwise the primary return register at offset 0 unless the
      return type is `void`. They are empty only for an unannotated `void`. */
  lemma ParseReturnBindings(arch: ArchProfile, s: string, sig: Signature)
    requires ValidProfile(arch) && ParseSpec(arch, Some(s)) == Success(sig)
    ensures MatchSignature(s).Some?
    ensures var g := MatchSignature(s).value;
      && (sig.ret == [] <==> g.ret.None? && Lower(BaseTokens(g)[0]) == "void")
      && (g.ret.Some? ==> Join(sig.ret, ", ") == g.ret.value)
      && (g.ret.Some? ==> forall i :: 0 <= i < |sig.ret| ==> !Contains(sig.ret[i], ", "))
      && (g.ret.None? && Lower(BaseTokens(g)[0]) != "void" ==> sig.ret == ["0:" + arch.ret[0]])
  {
  }

  /** The arguments of a successful parse: without `__fastcall` they are the
      written text cut at `", "`; with it, there are as many, each keeps its
      text before the first `@` and ends in the register of its position. */
  lemma ParseArguments(arch: ArchProfile, s: string, sig: Signature)
    requires ValidProfile(arch) && ParseSpec(arch, Some(s)) == Success(sig)
    ensures MatchSignature(s).Some?
    ensures sig.args == [] <==> MatchSignature(s).value.args.None?
    ensures var g := MatchSignature(s).value;
      "__fastcall" !in BaseTokens(g) ==>
        && Join(sig.args, ", ") == (if g.args.Some? then g.args.value else "")
        && forall i :: 0 <= i < |sig.args| ==> !Contains(sig.args[i], ", ")
    ensures var g := MatchSignature(s).value; var w := WrittenArgs(g);
      "__fastcall" in BaseTokens(g) ==>
        && |sig.args| == |w| <= |arch.arg|
        && forall i :: 0 <= i < |w| ==>
             && Split(sig.args[i], "@")[0] == Split(w[i], "@")[0]
             && sig.args[i][|sig.args[i]| - |arch.arg[i]| - 3..] == "@<" + arch.arg[i] + ">"
  {
    ParseParts(arch, s, sig);
    var g := MatchSignature(s).value;
    var w := WrittenArgs(g);
    if "__fastcall" in BaseTokens(g) {
      FastcallShape(w, arch.arg);
    }
  }
}
