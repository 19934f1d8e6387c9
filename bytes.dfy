/** Bytes of the KERN_PROCARGS2 buffer, and the Swift collection operations the
    decoder applies to them: `prefix(while:)`, `drop(while:)`,
    `split(separator: 0)` and the split of an environment line at its first `=`. */
module Bytes {

  /** One octet of the buffer (an element of Foundation's `Data`). */
  type Byte = b: int | 0 <= b < 0x100

  const NUL: Byte := 0x00
  /** ASCII `=`; it never occurs inside a multi-byte UTF-8 character. */
  const EQUALS: Byte := 0x3D

  predicate NullFree(s: seq<Byte>) {
    NUL !in s
  }

  predicate AllNul(s: seq<Byte>) {
    forall i :: 0 <= i < |s| ==> s[i] == NUL
  }

  function Zeros(n: nat): (z: seq<Byte>)
    ensures |z| == n && AllNul(z)
  {
    seq(n, _ => NUL)
  }

  /** Each string laid out followed by one NUL terminator, back to back. */
  function Terminated(xs: seq<seq<Byte>>): seq<Byte>
  {
    if xs == [] then [] else xs[0] + [NUL] + Terminated(xs[1..])
  }

  /** `prefix(while: { $0 != 0 })`: the longest null-free prefix. Nothing
      says a NUL must follow it: at the end of the buffer it is the whole rest. */
  function PrefixWhileNonNull(s: seq<Byte>): (p: seq<Byte>)
    ensures p <= s && NullFree(p)
    ensures |p| < |s| ==> s[|p|] == NUL
  {
    if s == [] || s[0] == NUL then [] else [s[0]] + PrefixWhileNonNull(s[1..])
  }

  /** `drop(while: { $0 == 0 })`: what is left after every leading NUL. */
  function DropWhileNull(s: seq<Byte>): (t: seq<Byte>)
    ensures |t| <= |s| && s == Zeros(|s| - |t|) + t
    ensures t == [] || t[0] != NUL
  {
    if s != [] && s[0] == NUL then DropWhileNull(s[1..]) else s
  }

  /** `split(separator: 0)` with Swift's default `omittingEmptySubsequences: true`:
      the maximal null-free runs, empty runs left out. */
  function SplitOnNull(s: seq<Byte>): (runs: seq<seq<Byte>>)
    ensures forall i :: 0 <= i < |runs| ==> runs[i] != [] && NullFree(runs[i])
    decreases |s|
  {
    if s == [] then []
    else if s[0] == NUL then SplitOnNull(s[1..])
    else
      var run := PrefixWhileNonNull(s);
      [run] + SplitOnNull(s[|run|..])
  }

  /** `split(separator: "=", maxSplits: 1, omittingEmptySubsequences: false)`:
      the whole line as one part when it has no `=`, otherwise the part before
      its first `=` and the part after it (either may be empty). */
  function SplitOnceAtEquals(line: seq<Byte>): (parts: seq<seq<Byte>>)
    ensures |parts| == 1 || |parts| == 2
    ensures |parts| == 2 <==> EQUALS in line
    ensures |parts| == 1 ==> parts[0] == line
    ensures |parts| == 2 ==> EQUALS !in parts[0] && line == parts[0] + [EQUALS] + parts[1]
  {
    if line == [] then [line]
    else if line[0] == EQUALS then [[], line[1..]]
    else
      var rest := SplitOnceAtEquals(line[1..]);
      if |rest| == 1 then [line] else [[line[0]] + rest[0], rest[1]]
  }

  lemma TakeDrop<T>(s: seq<T>, k: nat)
    requires k <= |s|
    ensures s == s[..k] + s[k..]
  {
  }

  lemma AppendParts<T>(x: seq<T>, y: seq<T>)
    ensures (x + y)[..|x|] == x && (x + y)[|x|..] == y
  {
  }

  lemma DropAppend<T>(x: seq<T>, y: seq<T>, k: nat)
    requires k <= |x|
    ensures (x + y)[k..] == x[k..] + y
  {
  }

  lemma AppendAssoc<T>(a: seq<T>, b: seq<T>, c: seq<T>)
    ensures a + b + c == a + (b + c)
  {
  }

  /** The null-free prefix stops at the first NUL, whatever follows it. */
  lemma {:induction false} PrefixStopsAtNul(a: seq<Byte>, b: seq<Byte>)
    ensures PrefixWhileNonNull(a + [NUL] + b) == PrefixWhileNonNull(a)
  {
    if a != [] && a[0] != NUL {
      assert (a + [NUL] + b)[1..] == a[1..] + [NUL] + b;
      PrefixStopsAtNul(a[1..], b);
    }
  }

  /** A null-free prefix that stops short of the end is followed by its NUL. */
  lemma PrefixThenNul(s: seq<Byte>)
    requires |PrefixWhileNonNull(s)| < |s|
    ensures var p := PrefixWhileNonNull(s); s == p + [NUL] + s[|p| + 1..]
  {
    var p := PrefixWhileNonNull(s);
    assert s == s[..|p|] + [s[|p|]] + s[|p| + 1..];
  }

  /** A null-free string is its own null-free prefix. */
  lemma {:induction false} PrefixOfNullFree(p: seq<Byte>)
    requires NullFree(p)
    ensures PrefixWhileNonNull(p) == p
  {
    if p != [] {
      PrefixOfNullFree(p[1..]);
    }
  }

  /** Leading NULs are dropped exactly: what follows them is kept whole. */
  lemma {:induction false} DropZeros(k: nat, x: seq<Byte>)
    requires x == [] || x[0] != NUL
    ensures DropWhileNull(Zeros(k) + x) == x
  {
    if k > 0 {
      assert (Zeros(k) + x)[1..] == Zeros(k - 1) + x;
      DropZeros(k - 1, x);
    } else {
      assert Zeros(k) + x == x;
    }
  }

  /** A NUL separates runs: splitting `a ++ [0] ++ b` is splitting `a` and `b`
      apart. So doubled and trailing NULs add nothing and end nothing. */
  lemma {:induction false} SplitConcat(a: seq<Byte>, b: seq<Byte>)
    ensures SplitOnNull(a + [NUL] + b) == SplitOnNull(a) + SplitOnNull(b)
    decreases |a|
  {
    var s := a + [NUL] + b;
    if a == [] {
      assert s[1..] == b;
    } else {
      var k := if a[0] == NUL then 1 else |PrefixWhileNonNull(a)|;
      assert s[k..] == a[k..] + [NUL] + b by {
        DropAppend(a + [NUL], b, k);
        DropAppend(a, [NUL], k);
      }
      SplitConcat(a[k..], b);
      if a[0] != NUL {
        PrefixStopsAtNul(a, b);
        AppendAssoc([PrefixWhileNonNull(a)], SplitOnNull(a[k..]), SplitOnNull(b));
      }
    }
  }

  /** A region holding only NULs has no run. */
  lemma {:induction false} SplitAllNul(s: seq<Byte>)
    ensures AllNul(s) ==> SplitOnNull(s) == []
    decreases |s|
  {
    if s != [] && AllNul(s) {
      SplitAllNul(s[1..]);
    }
  }

  /** Trailing NULs (tail padding) never add a run. */
  lemma SplitTrailingZeros(a: seq<Byte>, k: nat)
    ensures SplitOnNull(a + Zeros(k)) == SplitOnNull(a)
  {
    if k > 0 {
      assert a + Zeros(k) == a + [NUL] + Zeros(k - 1);
      SplitConcat(a, Zeros(k - 1));
      SplitAllNul(Zeros(k - 1));
    } else {
      assert a + Zeros(k) == a;
    }
  }

  /** Non-empty null-free strings, each terminated, split back into themselves. */
  lemma {:induction false} SplitTerminated(xs: seq<seq<Byte>>)
    requires forall i :: 0 <= i < |xs| ==> xs[i] != [] && NullFree(xs[i])
    ensures SplitOnNull(Terminated(xs)) == xs
  {
    if xs != [] {
      SplitConcat(xs[0], Terminated(xs[1..]));
      SplitTerminated(xs[1..]);
      var x := xs[0];
      PrefixOfNullFree(x);
      assert x[|x|..] == [];
      assert SplitOnNull(x) == [x] + SplitOnNull([]);
    }
  }

  /** A line built as key, `=`, value splits back into that key and value
      when the key holds no `=`. */
  lemma {:induction false} SplitOnceAtEqualsOf(key: seq<Byte>, value: seq<Byte>)
    requires EQUALS !in key
    ensures SplitOnceAtEquals(key + [EQUALS] + value) == [key, value]
  {
    var line := key + [EQUALS] + value;
    if key == [] {
      assert line[1..] == value;
    } else {
      assert line[1..] == key[1..] + [EQUALS] + value;
      SplitOnceAtEqualsOf(key[1..], value);
      assert [line[0]] + key[1..] == key;
    }
  }

  /** Every string laid out by `Terminated` contributes one NUL, and exactly
      one when the strings are null-free. */
  lemma {:induction false} TerminatedNulCount(xs: seq<seq<Byte>>)
    ensures multiset(Terminated(xs))[NUL] >= |xs|
    ensures (forall i :: 0 <= i < |xs| ==> NullFree(xs[i])) ==> multiset(Terminated(xs))[NUL] == |xs|
  {
    if xs != [] {
      TerminatedNulCount(xs[1..]);
      assert forall i :: 1 <= i < |xs| ==> xs[i] == xs[1..][i - 1];
      assert multiset(Terminated(xs)) == multiset(xs[0]) + multiset([NUL]) + multiset(Terminated(xs[1..]));
    }
  }
}
