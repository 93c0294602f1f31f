/** `SwiftIDA.update_current_func_type`: the parsed triple written back as
    an explicit `__usercall` declaration and handed to `idc.SetType`. */
module Serializer {
  import opened Wrappers
  import opened Text
  import opened SignatureRegex
  import opened Parser

  /** The new type string: base tokens, the `__usercall` convention with the
      placeholder name `func`, the return bindings when there are any, and
      the arguments. */
  function Serialize(sig: Signature): (r: string)
    ensures r == Render(SerializedGroups(sig))
    ensures Join(sig.base, " ") + " __usercall func" <= r && r[|r| - 1] == ')'
  {
    Join(sig.base, " ") + " __usercall func"
    + (if |sig.ret| > 0 then "@<" + Join(sig.ret, ", ") + ">" else "")
    + "(" + Join(sig.args, ", ") + ")"
  }

  /** The groups the parser's pattern should find in a serialized type. */
  function SerializedGroups(sig: Signature): Groups {
    var args := Join(sig.args, ", ");
    Groups(Join(sig.base, " ") + " __usercall func",
           if |sig.ret| > 0 then Some(Join(sig.ret, ", ")) else None,
           if args == "" then None else Some(args))
  }

  /** A serialized type is in the language of the parser's pattern, which
      splits it back at the places the serializer joined it: the whole base
      with the `__usercall func` suffix, the bindings and the arguments.
      This needs base tokens without `(` or `@` and bindings without `(`. */
  lemma SerializeInGrammar(sig: Signature)
    requires forall i :: 0 <= i < |sig.base| ==> '(' !in sig.base[i] && '@' !in sig.base[i]
    requires forall i :: 0 <= i < |sig.ret| ==> '(' !in sig.ret[i]
    ensures MatchSignature(Serialize(sig)) == Some(SerializedGroups(sig))
  {
    var g := SerializedGroups(sig);
    assert Render(g) == Serialize(sig);
    JoinAvoids(sig.base, " ", '(');
    JoinAvoids(sig.base, " ", '@');
    JoinAvoids(sig.ret, ", ", '(');
    var b := Join(sig.base, " ");
    assert forall k :: 0 <= k < |g.base| ==> g.base[k] != '(' && g.base[k] != '@' by {
      forall k | 0 <= k < |g.base| ensures g.base[k] != '(' && g.base[k] != '@' {
        if k < |b| {
          assert g.base[k] == b[k];
        } else {
          assert g.base[k] == " __usercall func"[k - |b|];
        }
      }
    }
    MatchExactly(Serialize(sig), g);
  }

  /** `update_current_func_type` after the string is built: `setType`
      stands for `idc.SetType`, which either accepts the new type or makes
      the edit fail. Errors of the parse pass through unchanged. */
  function Update(parsed: Result<Signature, Error>, setType: string -> bool): (r: Result<string, Error>)
    ensures parsed.Failure? ==> r == Failure(parsed.error)
    ensures parsed.Success? ==> r.Success? == setType(Serialize(parsed.value))
    ensures r.Success? ==> r.value == Serialize(parsed.value)
    ensures parsed.Success? && r.Failure? ==> r.error == TypeCommitFailed
  {
    match parsed
    case Failure(e) => Failure(e)
    case Success(sig) =>
      var t := Serialize(sig);
      if setType(t) then Success(t) else Failure(TypeCommitFailed)
  }
}
