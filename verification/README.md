# SwiftIDA function-type rewriter, modelled in Dafny

SwiftIDA is an IDA Pro plugin. It rewrites the declared type of a
Swift-compiled function so that the decompiler sees the Swift calling
convention. It reads a C-style declaration such as `int __fastcall(char*, int)`
and parses it into three lists:

- the base tokens (return type and convention keywords);
- the return-register bindings;
- the arguments.

An edit is applied to the lists, and the result is written back as an explicit
`__usercall` declaration, such as `int __usercall func@<0:rax>(char*@<rdi>, int@<rsi>)`.

The model covers this rewriter and the per-architecture register table it
uses. Each module follows one part of `swift-ida.py`:

- `Wrappers`: `Option` and `Result`.
- `Text`: the Python built-ins the code relies on, as functions with contracts.
  These are `str.split`, `str.join`, the substring test `in`, `str.lower`,
  `str(int)` and `list.remove`.
- `Registers`: the register table chosen in `SwiftIDA.init`.
- `SignatureRegex`: what `func_regex` captures. It is written as a
  backtracking search with the same preference order as Python's `re`:
  - a lazy base;
  - the optional `@<...>` group tried first, closing at its first possible `>`;
  - a greedy argument group.

  It is checked against a reference predicate, `Decomposes`, which says a
  choice of groups spells the string.
- `Parser`: `parse_current_func_type`, written as a method that does what the
  code does. It runs the nested `while` loop of the star fold in place on the
  token list, appends the default binding, rewrites `__fastcall` arguments,
  rejects `__swiftcall` and removes the convention keywords in a loop. The
  method is proved equal to the function `ParseSpec`, and the lemmas state
  what a parse promises.
- `Serializer`: the format expression of `update_current_func_type`, and the
  commit through `idc.SetType`.
- `Edits`: `add_callee_arg`, `convert_to_usercall` and `make_multi_return`.
  Each is a method on the parse result, specified by a pure edit on the
  parsed triple.
- `Scenarios`: worked examples on the x86-64 table.

Every way the code can stop is an `Error` value:

- no declared type (`get_type` returns `None`);
- no regex match (the `AttributeError` on `match.group`);
- more `__fastcall` arguments than argument registers (the `IndexError` at line 104);
- `__swiftcall`;
- no base token left for `make_multi_return` to overwrite (the `IndexError` at line 164);
- more tuple words than return registers (the `IndexError` at line 166);
- a refused `SetType`.

Details of the code's behaviour that are easy to get wrong, all modelled as
the code has them:

- The default return binding is `0:<first return register>`, for example
  `0:rax`. So `int __fastcall(char*, int)` becomes
  `int __usercall func@<0:rax>(char*@<rdi>, int@<rsi>)`.
- The star fold does not cascade. Each token gives its leading stars to the
  token before it, once, and emptied tokens stay. So `char * * x` becomes
  `["char*", "*", "", "x"]`.
- The base is split on single spaces, not on general whitespace.
- `__swiftcall` is rejected only as a whole base token, not anywhere in the
  string. The too-many-arguments error for `__fastcall` is raised first.
- Removing `__fastcall`/`__usercall` can leave no base token, for example for
  `__fastcall(int)`. `make_multi_return` then fails rather than producing a type.
- Re-parsing the serializer's output keeps `func` as a base token. So
  parse and serialize are not inverse, and no such round trip is claimed.
  `Serializer.SerializeInGrammar` instead proves that the regex splits a
  serialized type at exactly the places where the serializer joined it. This
  holds provided no base token contains `(` or `@` and no binding contains
  `(`. The parser can produce such tokens: `int a@<b>c(x)` parses to the base
  `["int", "a@<b>c"]`, and its serialized form no longer splits that way.

## Model

| member | source | states |
|---|---|---|
| Registers.Resolve | swift-ida.py:29-43 | A table exists exactly for a 64-bit database whose processor name is `metapc` or `arm` in any letter case. `metapc` in any case selects the x86-64 table, and `arm` in any case the ARM64 table. A selected table has a primary return register, three special registers apart from the argument and return registers, and at least as many argument registers as return registers. |
| Registers.X86_64 | swift-ida.py:32-34 | The x86-64 table has a primary return register, three special registers apart from the argument and return registers, and at least as many argument registers as return registers. |
| Registers.Arm64Registers | swift-ida.py:35-39 | The ARM64 table is x0..x7 for returns, x0..x7 for arguments and x20..x22 for self, error return and async context. |
| Registers.ResolveExamples | swift-ida.py:30-43 | `ARM` selects the ARM64 table and `metapc` the x86-64 one. A 32-bit database or another processor is unsupported. |
| Text.Split | swift-ida.py:90 | `str.split`: there is at least one piece, the pieces joined with the separator give the input back, and no piece contains the separator. |
| Text.SplitJoin | swift-ida.py:97 | Splitting undoes joining when no piece contains the separator and the separator cannot overlap itself (true of `" "`, `", "` and `"@"`). |
| Text.FirstPieceIsPrefix | swift-ida.py:104 | `s.split(c)[0]` is a prefix of `s` without `c`, and it is followed by `c` unless it is all of `s`. |
| Text.RemoveFirst | swift-ida.py:110-112 | `list.remove`: the first occurrence goes, the other elements keep their order, and the multiset loses exactly one copy. |
| Text.LowerVoid | swift-ida.py:98 | `t.lower() == "void"` holds exactly for the four letters `void`, each in either case. |
| Text.NatToString | swift-ida.py:153 | `str(n)` is a non-empty string of decimal digits with no leading zero. |
| Text.DecimalRoundTrip | swift-ida.py:166 | Reading the digits of `str(n)` back gives `n`. |
| SignatureRegex.FindBaseEnd | swift-ida.py:10 | The lazy `(.+?)` ends at the first base length where the rest of the pattern can follow, and no shorter one works. |
| SignatureRegex.FindClose | swift-ida.py:10 | The lazy `(.*?)>` closes at the first `>` that is followed by the argument tail. |
| SignatureRegex.GroupsAtSound | swift-ida.py:10 | At any base end where the rest of the pattern matches, the captured groups spell the whole string. |
| SignatureRegex.MatchSignature | swift-ida.py:10 | `func_regex.match`: whatever it returns spells the whole string, with a non-empty base and a non-empty argument group when present. |
| SignatureRegex.MatchLeast | swift-ida.py:10 | Every full match is found. The one returned has the shortest base and, for that base, prefers the return bindings, taking the shortest ones. |
| SignatureRegex.MatchExactly | swift-ida.py:10 | If no `(` or `@` can end the base early and no `(` can end the bindings early, the match returns exactly the intended groups. |
| SignatureRegex.MatchSignatureDefined | swift-ida.py:10 | The pattern matches iff the string ends in `)` and has a `(` after its first character and before its last. |
| Parser.LeadingStarsSplit | swift-ida.py:93-95 | A token is its leading stars followed by a rest that does not start with `*`. |
| Parser.StarFold | swift-ida.py:90-95 | The fold keeps the number of tokens. |
| Parser.FoldLeadingStars | swift-ida.py:90-95 | The nested `while` loop, which moves one star at a time in place, computes exactly the closed-form fold `StarFold`. |
| Parser.StarFoldConcat | swift-ida.py:90-95 | The fold only moves characters: all tokens together spell the same text before and after. |
| Parser.StarFoldPrefix | swift-ida.py:91-95 | Up to token `j`, the folded tokens spell the original ones plus the stars that token `j` still owes its neighbour. |
| Parser.StarFoldExamples | swift-ida.py:92 | `[char, *__fastcall]` folds to `[char*, __fastcall]`, and `char * * x` folds to `[char*, *, "", x]` (no cascading). |
| Parser.FastcallArgs | swift-ida.py:103-106 | The `__fastcall` rewrite keeps the number of arguments. Their shape is stated by `Parser.FastcallShape`. |
| Parser.FastcallShape | swift-ida.py:102-106 | Each `__fastcall` argument keeps its text before the first `@` and ends in `@<arg[i]>` for the register of its position. |
| Parser.FastcallIdempotent | swift-ida.py:102-106 | Rewriting already rewritten `__fastcall` arguments changes nothing. |
| Parser.ParseSpec | swift-ida.py:80-114 | A missing type is reported as such, and only then. A parse fails only with one of the four parse errors, never with an edit's error. A successful parse of a declared type means the pattern matched. |
| Parser.ParseCurrentFuncType | swift-ida.py:80-114 | The parser's steps, loops included, return exactly `ParseSpec`: the parse result or the error the code stops with. |
| Parser.StripConventions | swift-ida.py:110-112 | The keyword loop removes the first `__fastcall`, then the first `__usercall`, each only if present. |
| Parser.ParseMalformedIff | swift-ida.py:88-90 | The parse reports a malformed type iff the string does not end in `)` or has no `(` after its first character. |
| Parser.ParseFailures | swift-ida.py:82-108 | No declared type is its own error. For a matched type, too many `__fastcall` arguments is reported first, then `__swiftcall`; otherwise the parse succeeds. |
| Parser.ParseParts | swift-ida.py:88-112 | A successful parse consists of the folded base less the keywords, and of the written or `__fastcall`-rewritten arguments. |
| Parser.DiscardMultiset | swift-ida.py:111-112 | Removing a keyword takes away exactly one copy of it if present, and nothing else. |
| Parser.DiscardConventions | swift-ida.py:110-112 | Keyword removal takes one `__fastcall` and one `__usercall` from the token multiset. |
| Parser.ParseBase | swift-ida.py:107-112 | After a successful parse, `__swiftcall` is in neither the folded tokens nor the result. The result is the folded tokens less one `__fastcall` and one `__usercall`. |
| Parser.ParseReturnBindings | swift-ida.py:97-99 | The bindings are the written ones, cut at `", "`, if any were written. Otherwise they are `["0:" + ret[0]]` unless the first base token is `void` in any case. They are empty exactly for an unannotated `void`. |
| Parser.ParseArguments | swift-ida.py:101-106 | There are no arguments iff the argument group is absent. Without `__fastcall`, the arguments are the group cut at `", "`. With it, there are as many arguments as written, no more than there are registers, each keeping its text before `@` and bound to its register. |
| Serializer.Serialize | swift-ida.py:117-118 | The new type string is the pattern's groups rendered back: the joined base plus ` __usercall func`, the joined bindings in `@<...>` when there are any, and the joined arguments in parentheses. It starts with the base and ends in `)`. |
| Serializer.SerializeInGrammar | swift-ida.py:116-118 | If no base token contains `(` or `@` and no binding contains `(`, the regex splits a serialized type back into the joined base plus ` __usercall func`, the joined bindings when there are any, and the joined arguments. |
| Serializer.Update | swift-ida.py:116-123 | A parse error passes through unchanged. Otherwise the edit succeeds with the serialized type iff `SetType` accepts it, and fails with `TypeCommitFailed` if not. |
| Edits.WithHiddenArg | swift-ida.py:134-135 | The base, the bindings and the existing arguments are kept. The triple is unchanged iff an argument already contained `@<reg>`. Otherwise exactly `__int64@<reg>` is appended. Afterwards the register is annotated. |
| Edits.HiddenArgIdempotent | swift-ida.py:134-135 | Adding the same hidden argument twice is the same as adding it once. |
| Edits.AddCalleeArg | swift-ida.py:127-138 | The `any` loop and the append give the parse with `WithHiddenArg` for `special[i]`, committed. A parse error passes through. |
| Edits.ConvertToUsercall | swift-ida.py:140-148 | The result is the parse itself, serialized and committed. |
| Edits.TupleBindings | swift-ida.py:166 | There is one binding per tuple word. What each one reads is stated by `Edits.TupleBindingsRead`. |
| Edits.TupleBindingsRead | swift-ida.py:166 | Each tuple binding reads back as the decimal byte offset `8 * j`, a `:`, and return register `j`. |
| Edits.WithTupleReturn | swift-ida.py:153-166 | Base token 0 becomes `swiftida_tuple<n>`, and the other tokens and the arguments are kept. The bindings are `str(8*j) + ":" + ret[j]` for `j < n`. It fails on an empty base and, failing that, when `n` exceeds the return registers. |
| Edits.OfferedTupleSizes | swift-ida.py:65-73 | The offered tuple sizes are exactly 2 up to the number of return registers. |
| Edits.MakeMultiReturn | swift-ida.py:150-169 | The result is the parse with `WithTupleReturn` applied, committed. Parse errors and the two index errors are reported. |
| Scenarios.ParseWorkedExample | swift-ida.py:80-114 | `int __fastcall(char*, int)` on x86-64 parses to `[int]`, `[0:rax]`, `[char*@<rdi>, int@<rsi>]`. |
| Scenarios.ConvertWorkedExample | swift-ida.py:140-148 | Converting that type writes `int __usercall func@<0:rax>(char*@<rdi>, int@<rsi>)`. |
| Scenarios.MultiReturnExample | swift-ida.py:164-166 | A 3-word tuple on x86-64 binds `0:rax`, `8:rdx`, `16:rcx` and names `swiftida_tuple3`. Five words fail with `RegisterCountExceeded`. |
| Scenarios.AddSelfExample | swift-ida.py:134-135 | Adding `self` on x86-64 appends `__int64@<r13>`. |
| Scenarios.FastcallParse | swift-ida.py:97-112 | A `__fastcall` parse without written bindings consists of the stripped base, the default binding and the rewritten arguments. |

## Left out

- The IDA plugin lifecycle and UI are not modelled: `PLUGIN_ENTRY`, action registration, popup hooks, and how `generic_handler` picks the address and refreshes the view. They hold no string logic. The menu sizes of `make_multi_return` are kept as `Edits.OfferedTupleSizes`.
- `idc.get_type` is an `Option<string>` input, and `idc.SetType` is a `string -> bool` parameter. The database they read and write is not modelled.
- Creating the `swiftida_tuple<n>` struct with `get_struc_id`, `add_struc` and `add_struc_member` is not modelled. Only the struct name enters the type string. In the code the struct is created before the parse, even when the parse then fails.
- The `print` logging and the `warning` dialog are not modelled.
- Python's `$` also matching before a final newline is not modelled: declarations are taken to contain no line break.
- Text.Lower: lowers ASCII letters only, not the full Unicode case mapping of `str.lower`. The comparisons with `metapc`, `arm` and `void` depend on it. For these all-ASCII words, lowering ASCII letters gives the same answer as `str.lower`.
- Parser.ParseBase: states the result as a multiset. That the remaining tokens keep their order follows from `Text.RemoveFirst`, used at each step of `DiscardEach`.
- No parse-after-serialize round trip is claimed, because the code does not have one: re-parsing keeps `func` as a base token, and a second star fold can move stars again.
- `add_callee_arg`, `convert_to_usercall` and `make_multi_return` return `False` only for a missing type, and raise for the other errors. All of these are one `Failure` result here, and the difference between returning and raising is not modelled.
