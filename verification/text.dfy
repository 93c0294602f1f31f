/** The Python string and list built-ins the rewriter is written with:
    `str.split`, `str.join`, `str.lower`, `str(int)`, the substring test
    `in` and `list.remove`. */
module Text {
  import opened Wrappers

  /** `sep` occurs in `s` at index `j`. */
  predicate OccursAt(s: string, sep: string, j: nat) {
    j + |sep| <= |s| && s[j..j + |sep|] == sep
  }

  /** Python's substring test `sep in s`. */
  predicate Contains(s: string, sep: string) {
    exists j: nat :: j <= |s| && OccursAt(s, sep, j)
  }

  /** The leftmost occurrence of `sep` in `s` at or after `from`. */
  function IndexOf(s: string, sep: string, from: nat): (r: Option<nat>)
    requires |sep| > 0
    ensures r.Some? ==> from <= r.value && OccursAt(s, sep, r.value)
    ensures r.Some? ==> forall j: nat :: from <= j < r.value ==> !OccursAt(s, sep, j)
    ensures r.None? ==> forall j: nat :: from <= j ==> !OccursAt(s, sep, j)
    decreases |s| - from
  {
    if from + |sep| > |s| then None
    else if s[from..from + |sep|] == sep then Some(from)
    else IndexOf(s, sep, from + 1)
  }

  /** Python's `sep.join(xs)`. */
  function Join(xs: seq<string>, sep: string): string {
    if |xs| == 0 then ""
    else if |xs| == 1 then xs[0]
    else xs[0] + sep + Join(xs[1..], sep)
  }

  /** Python's `s.split(sep)` for a non-empty separator: cut at every
      occurrence of `sep`, scanning left to right. The pieces join back to
      `s`, there is always at least one, and none of them holds `sep`. */
  function Split(s: string, sep: string): (r: seq<string>)
    requires |sep| > 0
    ensures |r| >= 1
    ensures Join(r, sep) == s
    ensures forall i :: 0 <= i < |r| ==> !Contains(r[i], sep)
    decreases |s|
  {
    match IndexOf(s, sep, 0)
    case None => [s]
    case Some(j) =>
      var head := s[..j];
      assert !Contains(head, sep) by {
        forall i: nat | i <= |head| ensures !OccursAt(head, sep, i) {
          if i + |sep| <= |head| {
            assert i < j;
            assert !OccursAt(s, sep, i);
            assert head[i..i + |sep|] == s[i..i + |sep|];
          }
        }
      }
      var rest := Split(s[j + |sep|..], sep);
      assert s == head + sep + s[j + |sep|..];
      [head] + rest
  }

  /** No proper suffix of `sep` is also a prefix of it, so two occurrences
      of `sep` never overlap (true of `" "`, `", "` and `"@"`). */
  predicate Unbordered(sep: string) {
    forall d :: 0 < d < |sep| ==> sep[d..] != sep[..|sep| - d]
  }

  /** A string without the first character of `sep` does not hold `sep`. */
  lemma LacksFirst(s: string, sep: string)
    requires |sep| > 0 && sep[0] !in s
    ensures !Contains(s, sep)
  {
    forall j: nat | j <= |s| ensures !OccursAt(s, sep, j) {
      assert j + |sep| <= |s| ==> s[j] == s[j..j + |sep|][0];
    }
  }

  /** A text that lacks some character of `sep` does not contain `sep`. */
  lemma LacksChar(s: string, sep: string, d: nat)
    requires d < |sep| && sep[d] !in s
    ensures !Contains(s, sep)
  {
    forall j: nat | j <= |s| ensures !OccursAt(s, sep, j) {
      assert j + |sep| <= |s| ==> s[j + d] == s[j..j + |sep|][d];
    }
  }

  /** Occurrences of an unbordered separator never overlap. */
  lemma NoOverlap(s: string, sep: string, j: nat, k: nat)
    requires Unbordered(sep) && OccursAt(s, sep, k) && j < k < j + |sep|
    ensures !OccursAt(s, sep, j)
  {
    var d := k - j;
    assert sep[d..] != sep[..|sep| - d];
    assert s[k..j + |sep|] == sep[..|sep| - d];
    assert j + |sep| <= |s| ==> s[j..j + |sep|][d..] == s[k..j + |sep|];
  }

  /** `str.split` undoes `str.join` when no piece holds the separator:
      the two are inverse on such lists. */
  lemma {:induction false} SplitJoin(xs: seq<string>, sep: string)
    requires |sep| > 0 && Unbordered(sep) && |xs| >= 1
    requires forall i :: 0 <= i < |xs| ==> !Contains(xs[i], sep)
    ensures Split(Join(xs, sep), sep) == xs
  {
    var s := Join(xs, sep);
    if |xs| > 1 {
      var x := xs[0];
      var rest := Join(xs[1..], sep);
      assert s == x + sep + rest;
      assert OccursAt(s, sep, |x|) by {
        assert s[|x|..|x| + |sep|] == sep;
      }
      forall j: nat | j < |x| ensures !OccursAt(s, sep, j) {
        if j + |sep| <= |x| {
          assert !OccursAt(x, sep, j) by {
            assert !Contains(x, sep);
          }
          assert x[j..j + |sep|] == s[j..j + |sep|];
        } else {
          NoOverlap(s, sep, j, |x|);
        }
      }
      var k := IndexOf(s, sep, 0);
      assert k == Some(|x|);
      assert s[..|x|] == x;
      assert s[|x| + |sep|..] == rest;
      SplitJoin(xs[1..], sep);
      assert xs == [x] + xs[1..];
    }
  }

  /** A character in neither the pieces nor the separator is not in the join. */
  lemma {:induction false} JoinAvoids(xs: seq<string>, sep: string, c: char)
    requires c !in sep && forall i :: 0 <= i < |xs| ==> c !in xs[i]
    ensures c !in Join(xs, sep)
  {
    if |xs| > 1 {
      JoinAvoids(xs[1..], sep, c);
    }
  }

  /** The concatenation of all strings of `xs`, in order. */
  function Concat(xs: seq<string>): string {
    if |xs| == 0 then "" else Concat(xs[..|xs| - 1]) + xs[|xs| - 1]
  }

  /** The first `j` strings spell the first `j - 1` followed by string `j - 1`. */
  lemma ConcatLast(xs: seq<string>, j: nat)
    requires 1 <= j <= |xs|
    ensures Concat(xs[..j]) == Concat(xs[..j - 1]) + xs[j - 1]
  {
    assert xs[..j][..j - 1] == xs[..j - 1];
  }

  /** Python's `str.lower()`, restricted to ASCII letters. */
  function LowerChar(c: char): char {
    if 'A' <= c <= 'Z' then (c as int + 32) as char else c
  }

  function Lower(s: string): (r: string)
    ensures |r| == |s|
    ensures forall i :: 0 <= i < |s| ==> r[i] == LowerChar(s[i])
  {
    seq(|s|, i requires 0 <= i < |s| => LowerChar(s[i]))
  }

  /** The comparison `t.lower() == "void"` accepts `void` in any mix of
      letter cases and nothing else. */
  lemma LowerVoid(t: string)
    ensures Lower(t) == "void" <==>
              |t| == 4 && t[0] in "vV" && t[1] in "oO" && t[2] in "iI" && t[3] in "dD"
  {
    if |t| == 4 && Lower(t) == "void" {
      assert LowerChar(t[0]) == 'v' && LowerChar(t[1]) == 'o';
      assert LowerChar(t[2]) == 'i' && LowerChar(t[3]) == 'd';
    }
    if |t| == 4 && t[0] in "vV" && t[1] in "oO" && t[2] in "iI" && t[3] in "dD" {
      assert Lower(t)[0] == 'v' && Lower(t)[1] == 'o' && Lower(t)[2] == 'i' && Lower(t)[3] == 'd';
    }
  }

  function DigitChar(d: nat): char
    requires d < 10
  {
    ('0' as int + d) as char
  }

  /** Python's `str(n)` (decimal, no sign, no leading zero) for a natural `n`. */
  function NatToString(n: nat): (r: string)
    ensures |r| >= 1
    ensures forall i :: 0 <= i < |r| ==> '0' <= r[i] <= '9'
    ensures r[0] == '0' ==> n == 0
    decreases n
  {
    if n < 10 then [DigitChar(n)] else NatToString(n / 10) + [DigitChar(n % 10)]
  }

  /** The value of a string of decimal digits. */
  function DecimalValue(s: string): nat
    requires forall i :: 0 <= i < |s| ==> '0' <= s[i] <= '9'
  {
    if |s| == 0 then 0
    else 10 * DecimalValue(s[..|s| - 1]) + (s[|s| - 1] as int - '0' as int)
  }

  /** `str(n)` spells out exactly `n`: reading the digits back gives `n`. */
  lemma {:induction false} DecimalRoundTrip(n: nat)
    ensures DecimalValue(NatToString(n)) == n
  {
    if n >= 10 {
      DecimalRoundTrip(n / 10);
      var s := NatToString(n);
      assert s[..|s| - 1] == NatToString(n / 10);
    }
  }

  /** The index of the first occurrence of `x` in `xs`. */
  function FirstIndex<T(==)>(xs: seq<T>, x: T): (i: nat)
    requires x in xs
    ensures i < |xs| && xs[i] == x && x !in xs[..i]
  {
    if xs[0] == x then 0
    else
      var i := FirstIndex(xs[1..], x);
      assert xs[..i + 1] == [xs[0]] + xs[1..][..i];
      i + 1
  }

  /** Python's `xs.remove(x)`, which its callers only use when `x in xs`:
      the first occurrence of `x` goes and everything else keeps its order,
      so exactly one `x` fewer is left. */
  function RemoveFirst<T(==)>(xs: seq<T>, x: T): (r: seq<T>)
    requires x in xs
    ensures |r| == |xs| - 1
    ensures multiset(r) == multiset(xs) - multiset{x}
    ensures exists i :: 0 <= i < |xs| && xs[i] == x && x !in xs[..i] && r == xs[..i] + xs[i + 1..]
  {
    var i := FirstIndex(xs, x);
    assert xs == xs[..i] + [x] + xs[i + 1..];
    xs[..i] + xs[i + 1..]
  }

  /** The text of `s` before the first `c` (Python's `s.split(c)[0]`) is a
      prefix of `s` that holds no `c`, and it stops at a `c` or at the end. */
  lemma {:induction false} FirstPieceIsPrefix(s: string, c: char)
    ensures var p := Split(s, [c])[0];
      p <= s && c !in p && (|p| < |s| ==> s[|p|] == c)
  {
    var r := Split(s, [c]);
    var p := r[0];
    forall i | 0 <= i < |p| ensures p[i] != c {
      assert !OccursAt(p, [c], i);
      assert p[i..i + 1] == [p[i]];
    }
    if |r| > 1 {
      assert s == p + [c] + Join(r[1..], [c]);
    }
  }
}
