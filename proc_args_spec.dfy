/** What decoding a KERN_PROCARGS2 buffer yields, as functions over the bytes,
    and the properties of that decoding. The buffer is laid out as
      argc (4 bytes, little-endian) ++ exec path ++ NUL padding
      ++ argc arguments, each NUL-terminated ++ KEY=VALUE environment runs.
    `SysCall.DecodeArgs` computes `ProcArgs` with a cursor and loops. */
module ProcArgsSpec {
  import opened Bytes
  import opened Utf8
  import opened SysCallTypes

  /** The guard of `args`: the 4-byte count plus at least a NUL-terminated empty path. */
  const MIN_BUFFER_SIZE: nat := 6
  const COUNT_SIZE: nat := 4
  const UINT32_LIMIT: nat := 0x1_0000_0000

  // ----- the argument count -------------------------------------------------

  /** Swift's `reversed()` on the first four bytes. */
  function Reversed(s: seq<Byte>): (r: seq<Byte>)
    ensures |r| == |s|
    ensures forall i :: 0 <= i < |s| ==> r[i] == s[|s| - 1 - i]
  {
    if s == [] then [] else Reversed(s[1..]) + [s[0]]
  }

  /** `$0 << 8 | UInt32($1)` on a `UInt32`: the shift drops the top byte, and
      the `|` then fills the low byte, which the shift left zero. */
  function ShiftOr(acc: nat, b: Byte): (r: nat)
    requires acc < UINT32_LIMIT
    ensures r < UINT32_LIMIT && r % 0x100 == b
  {
    (acc % 0x100_0000) * 0x100 + b
  }

  /** `reduce(0, { $0 << 8 | UInt32($1) })`: a left fold of `ShiftOr`. */
  function FoldShiftOr(acc: nat, bytes: seq<Byte>): (r: nat)
    requires acc < UINT32_LIMIT
    ensures r < UINT32_LIMIT
    decreases |bytes|
  {
    if bytes == [] then acc else FoldShiftOr(ShiftOr(acc, bytes[0]), bytes[1..])
  }

  /** `count32`: the first four bytes, reversed and folded, a `UInt32`. Its
      value is the little-endian reading (`CountIsLittleEndian`). */
  function Count(header: seq<Byte>): (n: nat)
    requires |header| == COUNT_SIZE
    ensures n < UINT32_LIMIT
  {
    FoldShiftOr(0, Reversed(header))
  }

  /** The count is the little-endian reading of the four bytes, hence below 2^32. */
  lemma CountIsLittleEndian(header: seq<Byte>)
    requires |header| == COUNT_SIZE
    ensures Count(header) ==
      header[0] as int + 0x100 * header[1] as int + 0x1_0000 * header[2] as int + 0x100_0000 * header[3] as int
    ensures Count(header) < UINT32_LIMIT
  {
    var h0, h1, h2, h3 := header[0] as int, header[1] as int, header[2] as int, header[3] as int;
    var r := Reversed(header);
    assert r == [header[3], header[2], header[1], header[0]];
    var a1 := ShiftOr(0, header[3]);
    assert a1 == h3;
    var a2 := ShiftOr(a1, header[2]);
    assert a1 % 0x100_0000 == a1;
    assert a2 == 0x100 * h3 + h2;
    var a3 := ShiftOr(a2, header[1]);
    assert a2 % 0x100_0000 == a2;
    assert a3 == 0x1_0000 * h3 + 0x100 * h2 + h1;
    var a4 := ShiftOr(a3, header[0]);
    assert a3 % 0x100_0000 == a3;
    assert a4 == 0x100_0000 * h3 + 0x1_0000 * h2 + 0x100 * h1 + h0;
    assert r[1..] == [header[2], header[1], header[0]];
    assert r[1..][1..] == [header[1], header[0]];
    assert r[1..][1..][1..] == [header[0]];
    calc {
      Count(header);
      FoldShiftOr(a1, r[1..]);
      FoldShiftOr(a2, r[1..][1..]);
      FoldShiftOr(a3, r[1..][1..][1..]);
      FoldShiftOr(a4, []);
    }
  }

  // ----- the arguments ------------------------------------------------------

  /** The `for _ in 0..<count32` loop, from the state it leaves after `n` more
      rounds: `acc` holds the arguments read so far. Each round takes the
      null-free run, requires it to be UTF-8, and requires a byte (the NUL
      terminator) after it. Yields the arguments and the unread rest. */
  function ParseArgs(s: seq<Byte>, n: nat, acc: seq<seq<Byte>>): (r: Result<(seq<seq<Byte>>, seq<Byte>)>)
    ensures r.Failure? ==> r.error == ArgsError
    decreases n
  {
    if n == 0 then Success((acc, s))
    else
      var arg := PrefixWhileNonNull(s);
      if !ValidUtf8(arg) then Failure(ArgsError)
      else if |arg| == |s| then Failure(ArgsError)
      else ParseArgs(s[|arg| + 1..], n - 1, acc + [arg])
  }

  /** On success exactly `n` arguments are added after `acc`, in buffer order,
      each null-free UTF-8 and each consuming its bytes plus one terminator. */
  lemma {:induction false} ParseArgsShape(s: seq<Byte>, n: nat, acc: seq<seq<Byte>>)
    returns (args: seq<seq<Byte>>, rest: seq<Byte>)
    requires ParseArgs(s, n, acc).Success?
    ensures ParseArgs(s, n, acc) == Success((acc + args, rest))
    ensures |args| == n && ArgsOk(args)
    ensures s == Terminated(args) + rest
    decreases n
  {
    if n == 0 {
      args, rest := [], s;
      assert acc + args == acc;
    } else {
      var arg := PrefixWhileNonNull(s);
      var tail := s[|arg| + 1..];
      assert ParseArgs(s, n, acc) == ParseArgs(tail, n - 1, acc + [arg]);
      var more;
      more, rest := ParseArgsShape(tail, n - 1, acc + [arg]);
      args := [arg] + more;
      AppendAssoc(acc, [arg], more);
      TerminatedConsRest(arg, more, rest);
      assert args[1..] == more;
      PrefixThenNul(s);
    }
  }


  /** Every string is null-free UTF-8. */
  predicate ArgsOk(xs: seq<seq<Byte>>) {
    xs == [] || (NullFree(xs[0]) && ValidUtf8(xs[0]) && ArgsOk(xs[1..]))
  }

  lemma {:induction false} ArgsOkAt(xs: seq<seq<Byte>>)
    requires ArgsOk(xs)
    ensures forall i :: 0 <= i < |xs| ==> NullFree(xs[i]) && ValidUtf8(xs[i])
  {
    if xs != [] {
      ArgsOkAt(xs[1..]);
      forall i | 1 <= i < |xs| ensures NullFree(xs[i]) && ValidUtf8(xs[i]) {
        assert xs[i] == xs[1..][i - 1];
      }
    }
  }

  lemma TerminatedConsRest(x: seq<Byte>, xs: seq<seq<Byte>>, rest: seq<Byte>)
    ensures Terminated([x] + xs) + rest == x + [NUL] + (Terminated(xs) + rest)
  {
    assert ([x] + xs)[1..] == xs;
  }

  /** Arguments laid out with their terminators are read back exactly. */
  lemma {:induction false} ParseArgsOfTerminated(xs: seq<seq<Byte>>, rest: seq<Byte>, acc: seq<seq<Byte>>)
    requires ArgsOk(xs)
    ensures ParseArgs(Terminated(xs) + rest, |xs|, acc) == Success((acc + xs, rest))
  {
    if xs == [] {
      assert acc + xs == acc;
      assert Terminated(xs) + rest == rest;
    } else {
      var x := xs[0];
      var tail := Terminated(xs[1..]) + rest;
      TerminatedStep(xs, rest);
      ParseArgsOfTerminated(xs[1..], rest, acc + [x]);
      AppendAssoc(acc, [x], xs[1..]);
      assert [x] + xs[1..] == xs;
    }
  }

  /** The first of several terminated strings is read as one null-free run. */
  lemma TerminatedStep(xs: seq<seq<Byte>>, rest: seq<Byte>)
    requires xs != [] && NullFree(xs[0])
    ensures var s := Terminated(xs) + rest;
      && PrefixWhileNonNull(s) == xs[0]
      && |xs[0]| < |s|
      && s[|xs[0]| + 1..] == Terminated(xs[1..]) + rest
  {
    var x := xs[0];
    var tail := Terminated(xs[1..]) + rest;
    var s := Terminated(xs) + rest;
    assert s == x + [NUL] + tail;
    PrefixStopsAtNul(x, tail);
    PrefixOfNullFree(x);
    assert s[|x| + 1..] == tail;
  }

  lemma ParseArgsNulCount(s: seq<Byte>, n: nat, acc: seq<seq<Byte>>)
    ensures ParseArgs(s, n, acc).Success? ==> multiset(s)[NUL] >= n
  {
    if ParseArgs(s, n, acc).Success? {
      var args, rest := ParseArgsShape(s, n, acc);
      TerminatedNulCount(args);
      assert multiset(s) == multiset(Terminated(args)) + multiset(rest);
    }
  }

  /** A declared count above the number of NUL bytes left is a failure, never
      a shorter argument list. */
  lemma ParseArgsTooFewNuls(s: seq<Byte>, n: nat, acc: seq<seq<Byte>>)
    requires multiset(s)[NUL] < n
    ensures ParseArgs(s, n, acc) == Failure(ArgsError)
  {
    ParseArgsNulCount(s, n, acc);
  }

  // ----- the environment ----------------------------------------------------

  type Entry = (seq<Byte>, seq<Byte>)

  /** A run the environment loop accepts: UTF-8 with at least one `=`. */
  predicate EntryLineOk(line: seq<Byte>) {
    ValidUtf8(line) && EQUALS in line
  }

  /** Every run is one the environment loop accepts. */
  predicate LinesOk(lines: seq<seq<Byte>>) {
    lines == [] || (EntryLineOk(lines[0]) && LinesOk(lines[1..]))
  }

  lemma {:induction false} LinesOkAt(lines: seq<seq<Byte>>)
    ensures LinesOk(lines) <==> forall i :: 0 <= i < |lines| ==> EntryLineOk(lines[i])
  {
    if lines != [] {
      LinesOkAt(lines[1..]);
      assert forall i :: 1 <= i < |lines| ==> lines[i] == lines[1..][i - 1];
    }
  }

  lemma {:induction false} LinesOkConcat(la: seq<seq<Byte>>, lb: seq<seq<Byte>>)
    ensures LinesOk(la + lb) <==> LinesOk(la) && LinesOk(lb)
  {
    if la == [] {
      assert la + lb == lb;
    } else {
      assert (la + lb)[1..] == la[1..] + lb;
      LinesOkConcat(la[1..], lb);
    }
  }

  /** The key (before the first `=`) and value (after it) of an accepted run. */
  function EntryOf(line: seq<Byte>): (e: Entry)
    requires EQUALS in line
    ensures line == e.0 + [EQUALS] + e.1 && EQUALS !in e.0
  {
    var kv := SplitOnceAtEquals(line);
    (kv[0], kv[1])
  }

  function Entries(lines: seq<seq<Byte>>): (entries: seq<Entry>)
    requires LinesOk(lines)
    ensures |entries| == |lines|
  {
    if lines == [] then [] else [EntryOf(lines[0])] + Entries(lines[1..])
  }

  lemma {:induction false} EntriesConcat(la: seq<seq<Byte>>, lb: seq<seq<Byte>>)
    requires LinesOk(la) && LinesOk(lb)
    ensures LinesOk(la + lb) && Entries(la + lb) == Entries(la) + Entries(lb)
  {
    LinesOkConcat(la, lb);
    if la == [] {
      assert la + lb == lb;
    } else {
      assert (la + lb)[0] == la[0];
      DropAppend(la, lb, 1);
      EntriesConcat(la[1..], lb);
      AppendAssoc([EntryOf(la[0])], Entries(la[1..]), Entries(lb));
    }
  }

  /** The reference meaning of a list of entries: a key is bound when some
      entry has it, and the binding of a key is stated by its last entry. */
  function EnvOf(entries: seq<Entry>): (env: map<seq<Byte>, seq<Byte>>)
    ensures entries != [] ==> var last := entries[|entries| - 1]; last.0 in env && env[last.0] == last.1
  {
    if entries == [] then map[]
    else
      var rest := EnvOf(entries[1..]);
      if entries[0].0 in rest then rest else rest[entries[0].0 := entries[0].1]
  }

  /** No later entry has the key of entry `i`. */
  predicate LastWithKey(entries: seq<Entry>, i: nat)
    requires i < |entries|
  {
    forall j :: i < j < |entries| ==> entries[j].0 != entries[i].0
  }

  /** Last write wins: the keys are those of the entries, and each key is bound
      to the value of its last entry. */
  lemma {:induction false} EnvOfLastWriteWins(entries: seq<Entry>)
    ensures forall k :: k in EnvOf(entries) <==> exists i :: 0 <= i < |entries| && entries[i].0 == k
    ensures forall i :: 0 <= i < |entries| && LastWithKey(entries, i) ==> EnvOf(entries)[entries[i].0] == entries[i].1
  {
    if entries != [] {
      var rest := entries[1..];
      EnvOfLastWriteWins(rest);
      forall k ensures k in EnvOf(entries) <==> exists i :: 0 <= i < |entries| && entries[i].0 == k {
        if exists i :: 0 <= i < |rest| && rest[i].0 == k {
          var i :| 0 <= i < |rest| && rest[i].0 == k;
          assert entries[i + 1].0 == k;
        }
        if exists i :: 0 <= i < |entries| && entries[i].0 == k {
          var i :| 0 <= i < |entries| && entries[i].0 == k;
          if i > 0 {
            assert rest[i - 1].0 == k;
          }
        }
      }
      forall i | 0 <= i < |entries| && LastWithKey(entries, i)
        ensures EnvOf(entries)[entries[i].0] == entries[i].1
      {
        if i == 0 {
          assert entries[0].0 !in EnvOf(rest) by {
            forall j | 0 <= j < |rest| ensures rest[j].0 != entries[0].0 {
              assert rest[j] == entries[j + 1];
            }
          }
        } else {
          assert LastWithKey(rest, i - 1) by {
            forall j | i - 1 < j < |rest| ensures rest[j].0 != rest[i - 1].0 {
              assert entries[j + 1].0 != entries[i].0;
            }
          }
          if entries[i].0 == entries[0].0 {
            assert rest[i - 1].0 == entries[0].0;
          }
        }
      }
    }
  }

  /** Entries that follow one another: the later list's bindings win. */
  lemma {:induction false} EnvOfConcat(e1: seq<Entry>, e2: seq<Entry>)
    ensures EnvOf(e1 + e2) == EnvOf(e1) + EnvOf(e2)
  {
    if e1 == [] {
      assert e1 + e2 == e2;
      assert map[] + EnvOf(e2) == EnvOf(e2);
    } else {
      assert (e1 + e2)[1..] == e1[1..] + e2;
      EnvOfConcat(e1[1..], e2);
    }
  }

  /** Every binding of `EnvOf` comes from one well-formed entry. */
  predicate EntryOk(key: seq<Byte>, value: seq<Byte>) {
    && NullFree(key) && EQUALS !in key && ValidUtf8(key)
    && NullFree(value) && ValidUtf8(value)
  }

  lemma {:induction false} EnvOfKeepsEntryOk(entries: seq<Entry>)
    requires forall i :: 0 <= i < |entries| ==> EntryOk(entries[i].0, entries[i].1)
    ensures forall k :: k in EnvOf(entries) ==> EntryOk(k, EnvOf(entries)[k])
  {
    if entries != [] {
      EnvOfKeepsEntryOk(entries[1..]);
    }
  }

  /** A null-free run accepted by the loop splits into a well-formed entry. */
  lemma EntryOfLineOk(line: seq<Byte>)
    requires NullFree(line) && EntryLineOk(line)
    ensures EntryOk(EntryOf(line).0, EntryOf(line).1)
  {
    var (k, v) := EntryOf(line);
    SplitAtAscii(k, EQUALS, v);
    assert forall b :: b in k ==> b in line;
    assert forall b :: b in v ==> b in line;
  }

  lemma {:induction false} EntriesOk(lines: seq<seq<Byte>>)
    requires LinesOk(lines)
    requires forall i :: 0 <= i < |lines| ==> NullFree(lines[i])
    ensures forall i :: 0 <= i < |lines| ==> EntryOk(Entries(lines)[i].0, Entries(lines)[i].1)
  {
    if lines != [] {
      EntryOfLineOk(lines[0]);
      EntriesOk(lines[1..]);
      assert forall i :: 1 <= i < |lines| ==> Entries(lines)[i] == Entries(lines[1..])[i - 1];
    }
  }

  /** The `for line in remaining.split(separator: 0)` loop, from the map `env`
      it has built so far. The `line.isEmpty` `break` is kept as written. */
  function ParseEnv(lines: seq<seq<Byte>>, env: map<seq<Byte>, seq<Byte>>): (r: Result<map<seq<Byte>, seq<Byte>>>)
    ensures r.Failure? ==> r.error == ArgsError
  {
    if lines == [] then Success(env)
    else if lines[0] == [] then Success(env)
    else if !ValidUtf8(lines[0]) then Failure(ArgsError)
    else
      var kv := SplitOnceAtEquals(lines[0]);
      if |kv| != 2 then Failure(ArgsError)
      else ParseEnv(lines[1..], env[kv[0] := kv[1]])
  }

  /** Binding `k` and then adding `r` is adding what `EnvOf` adds for an entry
      `(k, v)` in front of `r`'s entries. */
  lemma UpdateThenUnion(acc: map<seq<Byte>, seq<Byte>>, k: seq<Byte>, v: seq<Byte>, r: map<seq<Byte>, seq<Byte>>)
    ensures acc[k := v] + r == acc + (if k in r then r else r[k := v])
  {
  }

  /** Over non-empty runs the loop fails exactly when some run is not UTF-8 or
      has no `=`, and otherwise adds `EnvOf` of the entries over `acc`. */
  lemma {:induction false} ParseEnvIsEnvOf(lines: seq<seq<Byte>>, acc: map<seq<Byte>, seq<Byte>>)
    requires forall i :: 0 <= i < |lines| ==> lines[i] != []
    ensures ParseEnv(lines, acc) ==
      if LinesOk(lines) then Success(acc + EnvOf(Entries(lines))) else Failure(ArgsError)
  {
    if lines == [] {
      assert acc + map[] == acc;
    } else if EntryLineOk(lines[0]) {
      var (k, v) := EntryOf(lines[0]);
      var tail := lines[1..];
      ParseEnvIsEnvOf(tail, acc[k := v]);
      if LinesOk(tail) {
        assert Entries(lines)[1..] == Entries(tail);
        UpdateThenUnion(acc, k, v, EnvOf(Entries(tail)));
      }
    }
  }

  /** The environment read from the bytes left after the last argument: it
      fails only with `.args`. */
  function EnvFromRegion(region: seq<Byte>): (r: Result<map<seq<Byte>, seq<Byte>>>)
    ensures r.Failure? ==> r.error == ArgsError
  {
    ParseEnv(SplitOnNull(region), map[])
  }

  /** The `break` never fires: every non-empty run is parsed, the decode fails
      exactly when one of them is not UTF-8 or has no `=`, and otherwise the
      environment is the last-write-wins map of all of them. */
  lemma EnvFromRegionIsEnvOf(region: seq<Byte>)
    ensures var lines := SplitOnNull(region);
      EnvFromRegion(region) ==
        if LinesOk(lines) then Success(EnvOf(Entries(lines))) else Failure(ArgsError)
  {
    var lines := SplitOnNull(region);
    ParseEnvIsEnvOf(lines, map[]);
    if LinesOk(lines) {
      assert map[] + EnvOf(Entries(lines)) == EnvOf(Entries(lines));
    }
  }

  /** Every binding decoded from a region is a well-formed entry. */
  lemma EnvFromRegionOk(region: seq<Byte>)
    requires EnvFromRegion(region).Success?
    ensures var env := EnvFromRegion(region).value;
      forall k :: k in env ==> EntryOk(k, env[k])
  {
    var lines := SplitOnNull(region);
    EnvFromRegionIsEnvOf(region);
    EntriesOk(lines);
    EnvOfKeepsEntryOk(Entries(lines));
  }

  /** Two regions joined by a NUL decode as both regions, the later one's
      bindings winning: no run ends the environment early. */
  lemma EnvRegionConcat(a: seq<Byte>, b: seq<Byte>)
    ensures EnvFromRegion(a + [NUL] + b) ==
      if EnvFromRegion(a).Success? && EnvFromRegion(b).Success?
      then Success(EnvFromRegion(a).value + EnvFromRegion(b).value)
      else Failure(ArgsError)
  {
    var la, lb := SplitOnNull(a), SplitOnNull(b);
    SplitConcat(a, b);
    EnvFromRegionIsEnvOf(a);
    EnvFromRegionIsEnvOf(b);
    EnvFromRegionIsEnvOf(a + [NUL] + b);
    LinesOkConcat(la, lb);
    if LinesOk(la) && LinesOk(lb) {
      EntriesConcat(la, lb);
      EnvOfConcat(Entries(la), Entries(lb));
    }
  }

  /** Empty runs (doubled, leading or trailing NULs) change nothing. */
  lemma EnvRegionSkipsEmptyRuns(a: seq<Byte>, b: seq<Byte>)
    ensures EnvFromRegion(a + [NUL, NUL] + b) == EnvFromRegion(a + [NUL] + b)
    ensures EnvFromRegion([NUL] + a) == EnvFromRegion(a)
    ensures EnvFromRegion(a + [NUL]) == EnvFromRegion(a)
  {
    assert a + [NUL, NUL] + b == a + [NUL] + ([NUL] + b);
    SplitConcat(a, [NUL] + b);
    SplitConcat(a, b);
    assert ([NUL] + b)[1..] == b;
    assert [NUL] + a == [] + [NUL] + a;
    SplitConcat([], a);
    assert a + [NUL] == a + [NUL] + [];
    SplitConcat(a, []);
    assert SplitOnNull(a) + [] == SplitOnNull(a);
  }

  // ----- the whole buffer ---------------------------------------------------

  /** The decoding part of `SysCall.args`. */
  function ProcArgs(data: seq<Byte>): (r: Result<Args>)
    ensures |data| < MIN_BUFFER_SIZE ==> r == Failure(ArgsError)
    ensures r.Failure? ==> r.error == ArgsError
  {
    if |data| < MIN_BUFFER_SIZE then Failure(ArgsError)
    else
      var count := Count(data[..COUNT_SIZE]);
      var afterCount := data[COUNT_SIZE..];
      var path := PrefixWhileNonNull(afterCount);
      if !ValidUtf8(path) then Failure(ArgsError)
      else
        match ParseArgs(DropWhileNull(afterCount[|path|..]), count, [])
        case Failure(e) => Failure(e)
        case Success((args, region)) =>
          match EnvFromRegion(region)
          case Failure(e) => Failure(e)
          case Success(env) => Success(Args(path, args, env))
  }

  /** What every decoded record satisfies: null-free UTF-8 path and arguments,
      and environment keys without `=`. */
  predicate WellFormed(a: Args) {
    && NullFree(a.path) && ValidUtf8(a.path)
    && (forall i :: 0 <= i < |a.args| ==> NullFree(a.args[i]) && ValidUtf8(a.args[i]))
    && (forall k :: k in a.env ==> EntryOk(k, a.env[k]))
  }

  /** After the count come the path, every NUL that follows it, and the
      argument region; with no padding at all, nothing follows the path. */
  lemma PathLayout(d: seq<Byte>)
    ensures var path := PrefixWhileNonNull(d);
      var argsRegion := DropWhileNull(d[|path|..]);
      var pad := |d| - |path| - |argsRegion|;
      && d == path + Zeros(pad) + argsRegion
      && (pad == 0 ==> argsRegion == [])
  {
    var path := PrefixWhileNonNull(d);
    var afterPath := d[|path|..];
    var argsRegion := DropWhileNull(afterPath);
    TakeDrop(d, |path|);
    assert afterPath == [] || afterPath[0] == NUL;
    AppendAssoc(path, Zeros(|afterPath| - |argsRegion|), argsRegion);
  }

  /** A region that starts with a non-NUL byte has a non-empty first string. */
  lemma FirstStringNonEmpty(xs: seq<seq<Byte>>, rest: seq<Byte>)
    requires Terminated(xs) + rest == [] || (Terminated(xs) + rest)[0] != NUL
    ensures xs != [] ==> xs[0] != []
    ensures Terminated(xs) + rest == [] ==> xs == [] && rest == []
  {
    if xs != [] {
      var s := Terminated(xs) + rest;
      var tail := Terminated(xs[1..]) + rest;
      assert s == xs[0] + [NUL] + tail;
      assert s[|xs[0]|] == NUL;
    }
  }

  /** The bytes after the count, when the argument loop succeeds on them:
      the path, its padding, the terminated arguments and what is left. */
  lemma AfterCountLayout(d: seq<Byte>, count: nat) returns (pad: nat, args: seq<seq<Byte>>, region: seq<Byte>)
    requires ParseArgs(DropWhileNull(d[|PrefixWhileNonNull(d)|..]), count, []).Success?
    ensures var path := PrefixWhileNonNull(d);
      && ParseArgs(DropWhileNull(d[|path|..]), count, []) == Success((args, region))
      && d == path + Zeros(pad) + Terminated(args) + region
      && (Terminated(args) + region == [] || (Terminated(args) + region)[0] != NUL)
      && (pad == 0 ==> args == [] && region == [])
      && (args != [] ==> args[0] != [])
      && |args| == count
      && (forall i :: 0 <= i < |args| ==> NullFree(args[i]) && ValidUtf8(args[i]))
  {
    var path := PrefixWhileNonNull(d);
    var argsRegion := DropWhileNull(d[|path|..]);
    pad := |d| - |path| - |argsRegion|;
    PathLayout(d);
    args, region := ParseArgsShape(argsRegion, count, []);
    assert [] + args == args;
    AppendAssoc(path + Zeros(pad), Terminated(args), region);
    FirstStringNonEmpty(args, region);
    ArgsOkAt(args);
  }

  /** A successful decode lays the buffer out as count, path, `pad` NULs, the
      terminated arguments and the environment `region`. The padding is all
      the NULs after the path; the path may lack its terminator only when
      nothing follows it; and the first argument is never empty. */
  lemma DecodedLayout(data: seq<Byte>) returns (pad: nat, region: seq<Byte>)
    requires ProcArgs(data).Success?
    ensures var a := ProcArgs(data).value;
      && MIN_BUFFER_SIZE <= |data|
      && |a.args| == Count(data[..COUNT_SIZE])
      && data[COUNT_SIZE..] == a.path + Zeros(pad) + Terminated(a.args) + region
      && (Terminated(a.args) + region == [] || (Terminated(a.args) + region)[0] != NUL)
      && (pad == 0 ==> a.args == [] && region == [])
      && (a.args != [] ==> a.args[0] != [])
      && EnvFromRegion(region) == Success(a.env)
      && WellFormed(a)
  {
    var args;
    pad, args, region := AfterCountLayout(data[COUNT_SIZE..], Count(data[..COUNT_SIZE]));
    EnvFromRegionOk(region);
  }

  /** A buffer whose count exceeds the NUL bytes after it fails lazily, with
      the same `ArgsError`, and never yields fewer arguments. */
  lemma ProcArgsTooFewNuls(data: seq<Byte>)
    requires MIN_BUFFER_SIZE <= |data|
    requires multiset(data[COUNT_SIZE..])[NUL] < Count(data[..COUNT_SIZE])
    ensures ProcArgs(data) == Failure(ArgsError)
  {
    var d := data[COUNT_SIZE..];
    var path := PrefixWhileNonNull(d);
    var argsRegion := DropWhileNull(d[|path|..]);
    var m := |d| - |argsRegion|;
    assert argsRegion == d[m..];
    assert d == d[..m] + argsRegion;
    assert multiset(d) == multiset(d[..m]) + multiset(argsRegion);
    ParseArgsTooFewNuls(argsRegion, Count(data[..COUNT_SIZE]), []);
  }
}
