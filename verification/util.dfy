/**
 * The helpers of src/util.c (copied unchanged in src/util/util.c): `rdigit`,
 * a random decimal digit, and `strrepl`, which overwrites occurrences of one
 * character of a C string with characters drawn from a generator.
 *
 * `random()` is an input: the value it returned. The generator `f` is the
 * sequence of characters its successive calls return. A C string is a
 * sequence holding a NUL somewhere; the string proper ends at the first one.
 */
module Util {
  /** `RAND_MAX` of glibc: `random()` returns a value in 0 .. 2^31 - 1. */
  const RAND_MAX: int := 0x7fff_ffff

  predicate IsDigit(c: char) {
    '0' <= c <= '9'
  }

  /** `rdigit`: the last decimal digit of the value `random()` returned, as a character. */
  function RDigit(r: int): (c: char)
    requires 0 <= r <= RAND_MAX
    ensures IsDigit(c)
  {
    ((r % 10) + 48) as char
  }

  /** Every digit comes out of `rdigit` for some value of `random()`: the ten values 0 .. 9 give '0' .. '9'. */
  lemma RDigitOnto(c: char)
    requires IsDigit(c)
    ensures exists r | 0 <= r <= RAND_MAX :: RDigit(r) == c
  {
    var r := c as int - 48;
    assert RDigit(r) == c;
  }

  // ---------------------------------------------------------------------
  // C strings

  /** A terminated C string: a NUL lies within the buffer. */
  predicate Terminated(s: seq<char>) {
    '\0' in s
  }

  /** `strlen`: the index of the first NUL. */
  function Strlen(s: seq<char>): (n: nat)
    requires Terminated(s)
    ensures n < |s| && s[n] == '\0'
    ensures forall j | 0 <= j < n :: s[j] != '\0'
  {
    if s[0] == '\0' then 0 else 1 + Strlen(s[1..])
  }

  /** The number of occurrences of `i` in `s`, counted from the front. */
  function Occ(s: seq<char>, i: char): nat {
    if |s| == 0 then 0
    else Occ(s[..|s| - 1], i) + (if s[|s| - 1] == i then 1 else 0)
  }

  /** `Occ` counts what a multiset of the characters counts. */
  lemma {:induction false} OccMultiset(s: seq<char>, i: char)
    ensures Occ(s, i) == multiset(s)[i]
  {
    if |s| > 0 {
      OccMultiset(s[..|s| - 1], i);
      assert s == s[..|s| - 1] + [s[|s| - 1]];
    }
  }

  /** A longer prefix holds at least as many occurrences. */
  lemma {:induction false} OccMonotone(s: seq<char>, i: char, a: nat, b: nat)
    requires a <= b <= |s|
    ensures Occ(s[..a], i) <= Occ(s[..b], i)
    decreases b - a
  {
    if a < b {
      OccMonotone(s, i, a, b - 1);
      assert s[..b][..b - 1] == s[..b - 1];
    }
  }

  // ---------------------------------------------------------------------
  // strrepl

  /** How many characters `strrepl` replaces, and so how many times it calls the generator. */
  function Replacements(src: seq<char>, i: char, first: bool): nat
    requires Terminated(src)
  {
    var n := Occ(src[..Strlen(src)], i);
    if first && n > 1 then 1 else n
  }

  /** Whether `strrepl` overwrites position `j`: it holds `i`, it lies before the first NUL, and (with `first`) no earlier position holds `i`. */
  predicate Hit(src: seq<char>, i: char, first: bool, j: nat)
    requires Terminated(src)
  {
    && j < Strlen(src) && src[j] == i
    && (!first || Occ(src[..j], i) == 0)
  }

  /**
   * What `strrepl` leaves in the buffer and returns, stated position by
   * position: the k-th occurrence of `i` before the first NUL takes the
   * generator's k-th character (only the first occurrence with `first`);
   * every other position keeps its character.
   */
  function Replace(src: seq<char>, i: char, gen: seq<char>, first: bool): (r: (seq<char>, nat))
    requires Terminated(src) && Replacements(src, i, first) <= |gen|
    ensures |r.0| == |src|
    ensures forall j | 0 <= j < |src| && src[j] != i :: r.0[j] == src[j]
    ensures r.0[Strlen(src)] == src[Strlen(src)]
  {
    var dst := seq(|src|, j requires 0 <= j < |src| =>
      if Hit(src, i, first, j) then
        OccMonotone(src, i, j + 1, Strlen(src));
        assert src[..j + 1][..j] == src[..j];
        gen[Occ(src[..j], i)]
      else src[j]);
    (dst, Replacements(src, i, first))
  }

  /**
   * `strrepl`: scan up to the NUL, overwriting each `i` with the next
   * generated character and counting; with `first`, stop after the first.
   * A replaced position is never read again, so a generated NUL does not
   * end the scan.
   */
  method StrRepl(src: seq<char>, i: char, gen: seq<char>, first: bool) returns (dst: seq<char>, repl: nat)
    requires Terminated(src) && Replacements(src, i, first) <= |gen|
    ensures (dst, repl) == Replace(src, i, gen, first)
  {
    var len := Strlen(src);
    dst := src;
    repl := 0;
    var count := 0;
    while dst[count] != '\0'
      invariant 0 <= count <= len && |dst| == |src|
      invariant repl == Occ(src[..count], i)
      invariant first ==> repl == 0
      invariant forall j | 0 <= j < count :: dst[j] == Replace(src, i, gen, first).0[j]
      invariant forall j | count <= j < |src| :: dst[j] == src[j]
      decreases len - count
    {
      assert src[..count + 1][..count] == src[..count];
      if dst[count] == i {
        OccMonotone(src, i, count + 1, len);
        dst := dst[count := gen[repl]];
        repl := repl + 1;
        if first {
          forall j | count < j < |src| ensures dst[j] == Replace(src, i, gen, first).0[j] {
            if j < len {
              OccMonotone(src, i, count + 1, j);
            }
          }
          assert dst == Replace(src, i, gen, first).0;
          return;
        }
      }
      count := count + 1;
    }
    assert src[..count] == src[..len];
    assert dst == Replace(src, i, gen, first).0;
  }

  // ---------------------------------------------------------------------
  // Properties of strrepl

  /** Only the positions holding `i` change; the buffer keeps its size and everything from the first NUL on. */
  lemma OnlyTargetsChange(src: seq<char>, i: char, gen: seq<char>, first: bool, j: nat)
    requires Terminated(src) && Replacements(src, i, first) <= |gen|
    requires j < |src|
    ensures var dst := Replace(src, i, gen, first).0;
      |dst| == |src| && (src[j] != i || j >= Strlen(src) ==> dst[j] == src[j])
  {
  }

  /** Without `first`, the count is the number of `i` before the NUL, and each occurrence is replaced in order by the generator's characters. */
  lemma ReplaceAll(src: seq<char>, i: char, gen: seq<char>)
    requires Terminated(src) && Replacements(src, i, false) <= |gen|
    ensures var (dst, repl) := Replace(src, i, gen, false);
      && repl == multiset(src[..Strlen(src)])[i]
      && forall j | 0 <= j < Strlen(src) && src[j] == i ::
           multiset(src[..j])[i] < |gen| && dst[j] == gen[multiset(src[..j])[i]]
  {
    var len := Strlen(src);
    OccMultiset(src[..len], i);
    forall j | 0 <= j < len && src[j] == i
      ensures multiset(src[..j])[i] < |gen| && Replace(src, i, gen, false).0[j] == gen[multiset(src[..j])[i]]
    {
      OccMultiset(src[..j], i);
      OccMonotone(src, i, j + 1, len);
      assert src[..j + 1][..j] == src[..j];
    }
  }

  /** Only the first occurrence before the NUL is replaced with `first`, by the generator's first character; the count is 0 or 1. */
  lemma ReplaceFirst(src: seq<char>, i: char, gen: seq<char>, p: nat)
    requires Terminated(src) && 1 <= |gen|
    requires p < Strlen(src) && src[p] == i && i !in src[..p]
    ensures Replace(src, i, gen, true) == (src[p := gen[0]], 1)
  {
    var len := Strlen(src);
    OccMultiset(src[..p], i);
    assert src[..p + 1][..p] == src[..p];
    assert Occ(src[..p + 1], i) == 1;
    OccMonotone(src, i, p + 1, len);
    assert Replacements(src, i, true) == 1;
    var dst := Replace(src, i, gen, true).0;
    forall j | 0 <= j < |src| ensures dst[j] == src[p := gen[0]][j] {
      if j < p {
        assert src[j] == src[..p][j];
      } else if j == p {
        assert Hit(src, i, true, j);
      } else if j < len {
        OccMonotone(src, i, p + 1, j);
      }
    }
    assert dst == src[p := gen[0]];
  }

  /** With no `i` before the NUL nothing is replaced, in either mode. */
  lemma ReplaceNone(src: seq<char>, i: char, gen: seq<char>, first: bool)
    requires Terminated(src) && i !in src[..Strlen(src)]
    ensures Replacements(src, i, first) == 0 && Replace(src, i, gen, first) == (src, 0)
  {
    OccMultiset(src[..Strlen(src)], i);
    assert Replacements(src, i, first) == 0;
    var dst := Replace(src, i, gen, first).0;
    forall j | 0 <= j < |src| ensures dst[j] == src[j] {
      if j < Strlen(src) {
        assert src[j] == src[..Strlen(src)][j];
      }
    }
    assert dst == src;
  }

  /** The NUL is never replaced: the scan stops at it. */
  lemma NulNeverReplaced(src: seq<char>, gen: seq<char>, first: bool)
    requires Terminated(src)
    ensures Replacements(src, '\0', first) == 0 && Replace(src, '\0', gen, first) == (src, 0)
  {
    ReplaceNone(src, '\0', gen, first);
  }

  /**
   * Replacing every `i` with digits from `rdigit` (when `i` is not a digit
   * and not NUL) leaves a string of the same length with no `i` left in it,
   * so a second call finds nothing to replace.
   */
  lemma DigitsReplaceAll(src: seq<char>, i: char, rs: seq<int>, gen2: seq<char>)
    requires Terminated(src) && !IsDigit(i) && i != '\0'
    requires forall k | 0 <= k < |rs| :: 0 <= rs[k] <= RAND_MAX
    requires Replacements(src, i, false) <= |rs|
    ensures var gen := seq(|rs|, k requires 0 <= k < |rs| => RDigit(rs[k]));
      var dst := Replace(src, i, gen, false).0;
      && Terminated(dst) && Strlen(dst) == Strlen(src)
      && i !in dst[..Strlen(dst)]
      && Replacements(dst, i, false) == 0 && Replace(dst, i, gen2, false) == (dst, 0)
  {
    var gen := seq(|rs|, k requires 0 <= k < |rs| => RDigit(rs[k]));
    var len := Strlen(src);
    var dst := Replace(src, i, gen, false).0;
    forall j | 0 <= j < len ensures dst[j] != '\0' && dst[j] != i {
      if src[j] == i {
        assert Hit(src, i, false, j);
        OccMonotone(src, i, j + 1, len);
        assert src[..j + 1][..j] == src[..j];
        assert IsDigit(dst[j]);
      }
    }
    assert dst[len] == '\0';
    assert Strlen(dst) == len by {
      StrlenAt(dst, len);
    }
    assert i !in dst[..len];
    ReplaceNone(dst, i, gen2, false);
  }

  /** The first NUL is where no earlier character is NUL. */
  lemma {:induction false} StrlenAt(s: seq<char>, n: nat)
    requires n < |s| && s[n] == '\0'
    requires forall j | 0 <= j < n :: s[j] != '\0'
    ensures Strlen(s) == n
  {
    if n > 0 {
      StrlenAt(s[1..], n - 1);
    }
  }
}
