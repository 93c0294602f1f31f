/** What `func_regex`, `^(.+?)(?:@<(.*?)>)?\((.+)?\)$`, captures from a
    declaration without line breaks. The functions follow the order in
    which a backtracking matcher tries the alternatives: the lazy base
    group from length 1 upwards; at each length the optional `@<...>`
    group first, closing at its first possible `>`, then without it; and
    the greedy argument group, which takes everything up to the last `)`. */
module SignatureRegex {
  import opened Wrappers

  /** The three capture groups: the base, the optional return bindings
      between `@<` and `>`, and the optional argument text. */
  datatype Groups = Groups(base: string, ret: Option<string>, args: Option<string>)

  /** The string that a choice of the three groups spells out. */
  function Render(g: Groups): string {
    g.base
    + (if g.ret.Some? then "@<" + g.ret.value + ">" else "")
    + "(" + (if g.args.Some? then g.args.value else "") + ")"
  }

  /** The pattern can match all of `s` with groups `g` (both `.+` groups
      are non-empty). This is the reference the matcher is checked against. */
  predicate Decomposes(s: string, g: Groups) {
    |g.base| >= 1 && (g.args.Some? ==> |g.args.value| >= 1) && Render(g) == s
  }

  /** `\((.+)?\)$` matches from index `q` to the end. */
  predicate TailAt(s: string, q: nat) {
    q + 2 <= |s| && s[q] == '(' && s[|s| - 1] == ')'
  }

  /** The argument group for the `(` at `q`; absent for empty parentheses. */
  function ArgsAt(s: string, q: nat): Option<string>
    requires TailAt(s, q)
  {
    if q + 2 == |s| then None else Some(s[q + 1..|s| - 1])
  }

  /** A `>` at `c` can close the return bindings: the tail follows it. */
  predicate CloseAt(s: string, c: nat) {
    c < |s| && s[c] == '>' && TailAt(s, c + 1)
  }

  /** The lazy `(.*?)>`: the first closing `>` at or after `c`. */
  function FindClose(s: string, c: nat): (r: Option<nat>)
    ensures r.Some? ==> c <= r.value && CloseAt(s, r.value)
    ensures r.Some? ==> forall j: nat :: c <= j < r.value ==> !CloseAt(s, j)
    ensures r.None? ==> forall j: nat :: c <= j ==> !CloseAt(s, j)
    decreases |s| - c
  {
    if c >= |s| then None
    else if CloseAt(s, c) then Some(c)
    else FindClose(s, c + 1)
  }

  /** The optional `@<...>` group tried right after a base of length `k`:
      the index of its closing `>`, if it can match. */
  function BindingsAt(s: string, k: nat): Option<nat> {
    if k + 2 <= |s| && s[k] == '@' && s[k + 1] == '<' then FindClose(s, k + 2) else None
  }

  /** The rest of the pattern matches after a base of length `k`. */
  predicate BaseEndsAt(s: string, k: nat) {
    BindingsAt(s, k).Some? || TailAt(s, k)
  }

  /** The lazy `(.+?)`: the shortest base, at least `k` long, that the
      rest of the pattern can follow. */
  function FindBaseEnd(s: string, k: nat): (r: Option<nat>)
    ensures r.Some? ==> k <= r.value && BaseEndsAt(s, r.value)
    ensures r.Some? ==> forall j: nat :: k <= j < r.value ==> !BaseEndsAt(s, j)
    ensures r.None? ==> forall j: nat :: k <= j ==> !BaseEndsAt(s, j)
    decreases |s| - k
  {
    if k >= |s| then None
    else if BaseEndsAt(s, k) then Some(k)
    else FindBaseEnd(s, k + 1)
  }

  /** The groups captured when the base is `s[..k]`. */
  function GroupsAt(s: string, k: nat): Groups
    requires BaseEndsAt(s, k)
  {
    match BindingsAt(s, k)
    case Some(c) => Groups(s[..k], Some(s[k + 2..c]), ArgsAt(s, c + 1))
    case None => Groups(s[..k], None, ArgsAt(s, k))
  }

  /** `func_regex.match(s)`: `None` when the pattern does not match.
      Whatever it returns is a way for the pattern to match all of `s`. */
  function MatchSignature(s: string): (r: Option<Groups>)
    ensures r.Some? ==> Decomposes(s, r.value)
  {
    match FindBaseEnd(s, 1)
    case None => None
    case Some(k) =>
      GroupsAtSound(s, k);
      Some(GroupsAt(s, k))
  }

  /** Cutting `s` at `i` and `j` and putting the pieces back gives `s`. */
  lemma Cut3(s: string, i: nat, j: nat)
    requires i <= j <= |s|
    ensures s == s[..i] + s[i..j] + s[j..]
  {
  }

  /** The tail from `q` spells `(`, the argument group, `)`. */
  lemma TailSpells(s: string, q: nat)
    requires TailAt(s, q)
    ensures ArgsAt(s, q).Some? ==> |ArgsAt(s, q).value| >= 1
    ensures s[q..] == "(" + (if ArgsAt(s, q).Some? then ArgsAt(s, q).value else "") + ")"
  {
    Cut3(s[q..], 1, |s| - q - 1);
    assert s[q..][1..|s| - q - 1] == s[q + 1..|s| - 1];
  }

  /** Between `k` and a closing `>` at `c`, `s` spells `@<`, the bindings, `>`. */
  lemma BindingsSpell(s: string, k: nat, c: nat)
    requires k + 2 <= c < |s| && s[k] == '@' && s[k + 1] == '<' && s[c] == '>'
    ensures s[k..c + 1] == "@<" + s[k + 2..c] + ">"
  {
    var t := s[k..c + 1];
    Cut3(t, 2, c - k);
    assert t[0] == '@' && t[1] == '<' && t[c - k] == '>';
    assert t[..2] == [t[0], t[1]];
    assert t[..2] == "@<";
    var inner, ret := t[2..c - k], s[k + 2..c];
    assert |inner| == |ret|;
    forall i | 0 <= i < |inner| ensures inner[i] == ret[i] {
      assert inner[i] == t[2 + i] == s[k + 2 + i];
    }
    assert inner == ret;
    assert t[c - k..] == ">";
  }

  /** The groups for any base end at which the rest matches spell out `s`. */
  lemma GroupsAtSound(s: string, k: nat)
    requires 1 <= k && BaseEndsAt(s, k)
    ensures Decomposes(s, GroupsAt(s, k))
  {
    match BindingsAt(s, k)
    case Some(c) =>
      assert k + 2 <= c && CloseAt(s, c);
      var g := Groups(s[..k], Some(s[k + 2..c]), ArgsAt(s, c + 1));
      assert GroupsAt(s, k) == g;
      TailSpells(s, c + 1);
      BindingsSpell(s, k, c);
      Cut3(s, k, c + 1);
      assert Render(g) == s[..k] + s[k..c + 1] + s[c + 1..];
    case None =>
      var g := Groups(s[..k], None, ArgsAt(s, k));
      assert GroupsAt(s, k) == g;
      TailSpells(s, k);
      assert Render(g) == s[..k] + s[k..];
      assert s == s[..k] + s[k..];
  }

  /** Every way for the pattern to match `s` is found, and the matcher
      picks the one a backtracking engine reaches first: the shortest
      base, and for that base the return bindings over none, the shortest
      bindings first. */
  lemma MatchLeast(s: string, g: Groups)
    requires Decomposes(s, g)
    ensures MatchSignature(s).Some?
    ensures |MatchSignature(s).value.base| <= |g.base|
    ensures |MatchSignature(s).value.base| == |g.base| && g.ret.Some? ==>
              MatchSignature(s).value.ret.Some? && |MatchSignature(s).value.ret.value| <= |g.ret.value|
  {
    EndOfBase(s, g);
  }

  /** The pattern can follow the base of any decomposition, and then the
      bindings close no later than that decomposition's. */
  lemma EndOfBase(s: string, g: Groups)
    requires Decomposes(s, g)
    ensures BaseEndsAt(s, |g.base|)
    ensures g.ret.Some? ==> BindingsAt(s, |g.base|).Some? &&
                            BindingsAt(s, |g.base|).value <= |g.base| + 2 + |g.ret.value|
  {
    var k' := |g.base|;
    var a := if g.args.Some? then g.args.value else "";
    if g.ret.Some? {
      var c' := k' + 2 + |g.ret.value|;
      assert s == g.base + "@<" + g.ret.value + ">" + "(" + a + ")";
      assert s[k'] == '@' && s[k' + 1] == '<' && s[c'] == '>' && s[c' + 1] == '(';
      assert CloseAt(s, c');
    } else {
      assert s == g.base + "(" + a + ")";
      assert s[k'] == '(';
      assert TailAt(s, k');
    }
  }

  /** Index of the `(` that opens the argument list in `Render(g)`. */
  function OpenIndex(g: Groups): nat {
    |g.base| + (if g.ret.Some? then |g.ret.value| + 3 else 0)
  }

  /** Where each group sits in `Render(g)`. */
  lemma RenderLayout(g: Groups)
    ensures var s := Render(g); var q := OpenIndex(g);
      && |s| == q + 2 + (if g.args.Some? then |g.args.value| else 0)
      && s[..|g.base|] == g.base
      && s[|g.base|] == (if g.ret.Some? then '@' else '(')
      && (g.ret.Some? ==> s[|g.base| + 2..q - 1] == g.ret.value && s[q - 1] == '>')
      && s[q] == '('
      && s[q + 1..|s| - 1] == (if g.args.Some? then g.args.value else "")
  {
  }

  /** Two decompositions of `s` whose return groups start at the same place
      and close at the same `>`, or are both absent, are the same. */
  lemma SameLayout(s: string, g: Groups, m: Groups)
    requires Decomposes(s, g) && Decomposes(s, m)
    requires |m.base| == |g.base| && m.ret.Some? == g.ret.Some?
    requires g.ret.Some? ==> |m.ret.value| == |g.ret.value|
    ensures m == g
  {
    RenderLayout(g);
    RenderLayout(m);
    assert OpenIndex(m) == OpenIndex(g);
    assert m.base == g.base;
    assert m.ret == g.ret;
    assert m.args == g.args by {
      if m.args.Some? || g.args.Some? {
        assert |s| > OpenIndex(g) + 2;
      }
    }
  }

  /** A decomposition whose base is no longer than that of `g` has the same
      base length, and the same choice of return group, when no `(` or `@`
      sits inside `g`'s base. */
  lemma BasesAgree(s: string, g: Groups, m: Groups)
    requires Decomposes(s, g) && Decomposes(s, m)
    requires forall k :: 1 <= k < |g.base| ==> g.base[k] != '(' && g.base[k] != '@'
    requires |m.base| <= |g.base|
    ensures |m.base| == |g.base| && m.ret.Some? == g.ret.Some?
  {
    RenderLayout(g);
    RenderLayout(m);
    assert s[|m.base|] == (if m.ret.Some? then '@' else '(');
    assert forall i :: 1 <= i < |g.base| ==> s[i] != '(' && s[i] != '@' by {
      assert s[..|g.base|] == g.base;
    }
  }

  /** With equal bases, return bindings no longer than `g`'s are as long as
      `g`'s when those hold no `(`. */
  lemma RetsAgree(s: string, g: Groups, m: Groups)
    requires Decomposes(s, g) && Decomposes(s, m)
    requires |m.base| == |g.base| && g.ret.Some? && m.ret.Some?
    requires '(' !in g.ret.value && |m.ret.value| <= |g.ret.value|
    ensures |m.ret.value| == |g.ret.value|
  {
    RenderLayout(g);
    RenderLayout(m);
    var k, q, r := |g.base|, OpenIndex(g), |m.ret.value|;
    assert s[k + 3 + r] == '(';
    assert forall i :: k + 2 <= i < q - 1 ==> s[i] == g.ret.value[i - k - 2];
  }

  /** A decomposition with a base no longer than that of `g`, and return
      bindings no longer than those of `g` when the bases agree, is `g`
      itself when `g`'s base holds no `(` or `@` and its bindings no `(`. */
  lemma LeastIsExact(s: string, g: Groups, m: Groups)
    requires Decomposes(s, g) && Decomposes(s, m)
    requires forall k :: 1 <= k < |g.base| ==> g.base[k] != '(' && g.base[k] != '@'
    requires g.ret.Some? ==> '(' !in g.ret.value
    requires |m.base| <= |g.base|
    requires |m.base| == |g.base| && g.ret.Some? ==> m.ret.Some? && |m.ret.value| <= |g.ret.value|
    ensures m == g
  {
    BasesAgree(s, g, m);
    if g.ret.Some? {
      RetsAgree(s, g, m);
    }
    SameLayout(s, g, m);
  }

  /** When no `(` or `@` can end the base early and no `(` can close the
      return bindings early, the matcher captures exactly the intended
      groups. */
  lemma MatchExactly(s: string, g: Groups)
    requires Decomposes(s, g)
    requires forall k :: 1 <= k < |g.base| ==> g.base[k] != '(' && g.base[k] != '@'
    requires g.ret.Some? ==> '(' !in g.ret.value
    ensures MatchSignature(s) == Some(g)
  {
    MatchLeast(s, g);
    LeastIsExact(s, g, MatchSignature(s).value);
  }

  /** The pattern matches exactly when `s` ends in `)` and has a `(`
      after its first character and before its last. */
  lemma MatchSignatureDefined(s: string)
    ensures MatchSignature(s).Some? <==>
              |s| >= 1 && s[|s| - 1] == ')' && exists q: nat :: 1 <= q && q + 2 <= |s| && s[q] == '('
  {
    if MatchSignature(s).Some? {
      var k := FindBaseEnd(s, 1).value;
      match BindingsAt(s, k)
      case Some(c) => assert TailAt(s, c + 1);
      case None => assert TailAt(s, k);
    }
    if |s| >= 1 && s[|s| - 1] == ')' && exists q: nat :: 1 <= q && q + 2 <= |s| && s[q] == '(' {
      var q: nat :| 1 <= q && q + 2 <= |s| && s[q] == '(';
      assert BaseEndsAt(s, q);
    }
  }
}
