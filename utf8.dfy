/** UTF-8 well-formedness, the condition under which Foundation's
    `String(bytes:encoding: .utf8)` yields a string instead of nil. It follows
    the UTF8-octets grammar of section 4 of RFC 3629, read left to right with
    a byte index; a decoded string is kept as the bytes it was decoded from. */
module Utf8 {
  import opened Bytes

  /** UTF8-tail: %x80-BF. */
  predicate IsContinuation(b: Byte) {
    0x80 <= b <= 0xBF
  }

  /** The length of the well-formed character (UTF8-1 to UTF8-4) that starts
      at index `i` of `s`, or 0 when none does. */
  function CharLengthAt(s: seq<Byte>, i: nat): (n: nat)
    requires i <= |s|
    ensures i + n <= |s| && n <= 4
  {
    var m := |s| - i;
    if m == 0 then 0
    else if s[i] < 0x80 then 1
    else if 0xC2 <= s[i] <= 0xDF then
      if 2 <= m && IsContinuation(s[i + 1]) then 2 else 0
    else if s[i] == 0xE0 then
      if 3 <= m && 0xA0 <= s[i + 1] <= 0xBF && IsContinuation(s[i + 2]) then 3 else 0
    else if 0xE1 <= s[i] <= 0xEC || 0xEE <= s[i] <= 0xEF then
      if 3 <= m && IsContinuation(s[i + 1]) && IsContinuation(s[i + 2]) then 3 else 0
    else if s[i] == 0xED then
      if 3 <= m && 0x80 <= s[i + 1] <= 0x9F && IsContinuation(s[i + 2]) then 3 else 0
    else if s[i] == 0xF0 then
      if 4 <= m && 0x90 <= s[i + 1] <= 0xBF && IsContinuation(s[i + 2]) && IsContinuation(s[i + 3]) then 4 else 0
    else if 0xF1 <= s[i] <= 0xF3 then
      if 4 <= m && IsContinuation(s[i + 1]) && IsContinuation(s[i + 2]) && IsContinuation(s[i + 3]) then 4 else 0
    else if s[i] == 0xF4 then
      if 4 <= m && 0x80 <= s[i + 1] <= 0x8F && IsContinuation(s[i + 2]) && IsContinuation(s[i + 3]) then 4 else 0
    else 0
  }

  /** UTF8-octets = *( UTF8-char ), for the bytes of `s` from index `i` on. */
  predicate ValidFrom(s: seq<Byte>, i: nat)
    requires i <= |s|
    decreases |s| - i
  {
    i == |s| || (var n := CharLengthAt(s, i); n > 0 && ValidFrom(s, i + n))
  }

  /** `String(bytes:encoding: .utf8)` succeeds; it does on the empty text.
      What it implies byte by byte is `ValidFromBytes`. */
  predicate ValidUtf8(s: seq<Byte>)
    ensures s == [] ==> ValidUtf8(s)
  {
    ValidFrom(s, 0)
  }

  /** ASCII text is well-formed, and well-formed text never holds a byte that
      RFC 3629 rules out everywhere (0xC0, 0xC1, 0xF5 to 0xFF). */
  lemma {:induction false} ValidFromBytes(s: seq<Byte>, i: nat)
    requires i <= |s|
    ensures (forall j :: i <= j < |s| ==> s[j] < 0x80) ==> ValidFrom(s, i)
    ensures ValidFrom(s, i) ==> forall j :: i <= j < |s| ==> s[j] != 0xC0 && s[j] != 0xC1 && s[j] < 0xF5
    decreases |s| - i
  {
    if i < |s| {
      var n := CharLengthAt(s, i);
      if n > 0 {
        ValidFromBytes(s, i + n);
        forall k | i < k < i + n ensures IsContinuation(s[k]) {
          CharTailAt(s, i, k);
        }
      }
    }
  }

  /** After its lead byte, a character holds only UTF8-tail bytes. */
  lemma CharTailAt(s: seq<Byte>, i: nat, k: nat)
    requires i <= |s| && i < k < i + CharLengthAt(s, i)
    ensures IsContinuation(s[k])
  {
  }

  /** A character is recognised from its own bytes alone. */
  lemma CharLengthLocal(s: seq<Byte>, t: seq<Byte>, i: nat)
    requires i <= |s| && CharLengthAt(s, i) > 0
    requires i + CharLengthAt(s, i) <= |t|
    requires forall k :: i <= k < i + CharLengthAt(s, i) ==> t[k] == s[k]
    ensures CharLengthAt(t, i) == CharLengthAt(s, i)
  {
  }

  /** The same bytes to the end read the same, wherever they are placed. */
  lemma {:induction false} ValidFromShift(p: seq<Byte>, y: seq<Byte>, j: nat)
    requires j <= |y|
    ensures ValidFrom(p + y, |p| + j) == ValidFrom(y, j)
    decreases |y| - j
  {
    var s := p + y;
    if j < |y| {
      var n := CharLengthAt(y, j);
      assert CharLengthAt(s, |p| + j) == n by {
        assert forall k :: |p| + j <= k < |s| ==> s[k] == y[k - |p|];
      }
      if n > 0 {
        ValidFromShift(p, y, j + n);
      }
    }
  }

  /** Two well-formed texts laid side by side are well-formed. */
  lemma ConcatValid(a: seq<Byte>, b: seq<Byte>)
    requires ValidUtf8(a) && ValidUtf8(b)
    ensures ValidUtf8(a + b)
  {
    ConcatValidFrom(a, b, 0);
  }

  lemma {:induction false} ConcatValidFrom(a: seq<Byte>, b: seq<Byte>, i: nat)
    requires i <= |a| && ValidFrom(a, i) && ValidUtf8(b)
    ensures ValidFrom(a + b, i)
    decreases |a| - i
  {
    if i == |a| {
      ValidFromShift(a, b, 0);
    } else {
      var n := CharLengthAt(a, i);
      CharLengthLocal(a, a + b, i);
      ConcatValidFrom(a, b, i + n);
    }
  }

  /** An ASCII byte never sits inside a multi-byte character (section 3 of
      RFC 3629), so a well-formed text cut around one is well-formed on both
      sides. */
  lemma SplitAtAscii(a: seq<Byte>, c: Byte, b: seq<Byte>)
    requires c < 0x80
    requires ValidUtf8(a + [c] + b)
    ensures ValidUtf8(a) && ValidUtf8(b)
  {
    SplitAtAsciiFrom(a, c, b, 0);
  }

  lemma {:induction false} SplitAtAsciiFrom(a: seq<Byte>, c: Byte, b: seq<Byte>, i: nat)
    requires c < 0x80 && i <= |a|
    requires ValidFrom(a + [c] + b, i)
    ensures ValidFrom(a, i) && ValidUtf8(b)
    decreases |a| - i
  {
    var s := a + [c] + b;
    var n := CharLengthAt(s, i);
    if i == |a| {
      assert s[|a|] == c;
      assert s == (a + [c]) + b;
      ValidFromShift(a + [c], b, 0);
    } else {
      assert n <= |a| - i by {
        if |a| < i + n {
          CharTailAt(s, i, |a|);
        }
      }
      CharLengthLocal(s, a, i);
      SplitAtAsciiFrom(a, c, b, i + n);
    }
  }
}
