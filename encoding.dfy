/** The buffer the kernel writes for KERN_PROCARGS2, built from its parts,
    and the round trip: decoding such a buffer gives the parts back. */
module ProcArgsEncoding {
  import opened Bytes
  import opened Utf8
  import opened SysCallTypes
  import opened ProcArgsSpec

  /** A count as four little-endian bytes, the way argc heads the buffer. */
  function LE32(n: nat): (h: seq<Byte>)
    requires n < UINT32_LIMIT
    ensures |h| == COUNT_SIZE
  {
    var q1 := n / 0x100;
    var q2 := q1 / 0x100;
    [n % 0x100, q1 % 0x100, q2 % 0x100, q2 / 0x100]
  }

  /** The count read back from `LE32(n)` is `n`. */
  lemma {:induction false} CountOfLE32(n: nat)
    requires n < UINT32_LIMIT
    ensures Count(LE32(n)) == n
  {
    var h := LE32(n);
    CountIsLittleEndian(h);
    var q1 := n / 0x100;
    var q2 := q1 / 0x100;
    assert n == h[0] as int + 0x100 * q1;
    assert q1 == h[1] as int + 0x100 * q2;
    assert q2 == h[2] as int + 0x100 * h[3] as int;
  }

  /** An environment entry as its `KEY=VALUE` line. */
  function EntryLine(e: Entry): (line: seq<Byte>)
    ensures EQUALS in line
  {
    e.0 + [EQUALS] + e.1
  }

  function EntryLines(entries: seq<Entry>): (lines: seq<seq<Byte>>)
    ensures |lines| == |entries|
  {
    if entries == [] then [] else [EntryLine(entries[0])] + EntryLines(entries[1..])
  }

  /** The lines of well-formed entries are accepted by the environment loop
      and split back into the same entries. */
  lemma EntriesOfLines(entries: seq<Entry>)
    requires forall i :: 0 <= i < |entries| ==> EntryOk(entries[i].0, entries[i].1)
    ensures var lines := EntryLines(entries);
      && LinesOk(lines) && Entries(lines) == entries
      && forall i :: 0 <= i < |lines| ==> lines[i] != [] && NullFree(lines[i])
  {
    var lines := EntryLines(entries);
    EntryLinesAt(entries);
    forall i | 0 <= i < |lines| ensures EntryLineOk(lines[i]) && lines[i] != [] && NullFree(lines[i]) {
      EntryLineWellFormed(entries[i].0, entries[i].1);
    }
    LinesOkAt(lines);
    EntriesOfEntryLines(entries);
  }

  lemma {:induction false} EntryLinesAt(entries: seq<Entry>)
    ensures forall i :: 0 <= i < |entries| ==> EntryLines(entries)[i] == EntryLine(entries[i])
  {
    if entries != [] {
      EntryLinesAt(entries[1..]);
      assert forall i :: 1 <= i < |entries| ==> EntryLines(entries)[i] == EntryLines(entries[1..])[i - 1];
    }
  }

  /** Each line is split back into its own entry. */
  lemma {:induction false} EntriesOfEntryLines(entries: seq<Entry>)
    requires forall i :: 0 <= i < |entries| ==> EntryOk(entries[i].0, entries[i].1)
    requires LinesOk(EntryLines(entries))
    ensures Entries(EntryLines(entries)) == entries
  {
    if entries != [] {
      var e, more := entries[0], entries[1..];
      var lines := EntryLines(entries);
      assert lines[1..] == EntryLines(more);
      assert forall i :: 0 <= i < |more| ==> more[i] == entries[i + 1];
      EntriesOfEntryLines(more);
      SplitOnceAtEqualsOf(e.0, e.1);
      assert entries == [e] + more;
    }
  }

  /** A KERN_PROCARGS2 buffer: the count, the executable path, `pad` NULs (its
      terminator and any alignment), each argument and each `KEY=VALUE` line
      with its terminator, and `tail` NULs of slack at the end. */
  function Encode(header: seq<Byte>, path: seq<Byte>, pad: nat, args: seq<seq<Byte>>, entries: seq<Entry>, tail: nat): seq<Byte>
    requires |header| == COUNT_SIZE
  {
    header + (path + Zeros(pad) + (Terminated(args) + (Terminated(EntryLines(entries)) + Zeros(tail))))
  }

  /** Every part of a buffer takes room: each string its terminator at least. */
  lemma {:induction false} EncodeLength(header: seq<Byte>, path: seq<Byte>, pad: nat, args: seq<seq<Byte>>, entries: seq<Entry>, tail: nat)
    requires |header| == COUNT_SIZE
    ensures |Encode(header, path, pad, args, entries, tail)| >= COUNT_SIZE + |path| + pad + |args|
  {
    TerminatedLength(args);
  }

  lemma {:induction false} TerminatedLength(xs: seq<seq<Byte>>)
    ensures |Terminated(xs)| >= |xs|
  {
    if xs != [] {
      TerminatedLength(xs[1..]);
    }
  }

  /** The path is read up to its first padding NUL, and the rest starts
      with the padding. */
  lemma {:induction false} PathOfEncoded(path: seq<Byte>, pad: nat, body: seq<Byte>)
    requires NullFree(path) && pad >= 1
    ensures var d := path + Zeros(pad) + body;
      PrefixWhileNonNull(d) == path && d[|path|..] == Zeros(pad) + body
  {
    var d := path + Zeros(pad) + body;
    assert d == path + [NUL] + (Zeros(pad - 1) + body);
    PrefixStopsAtNul(path, Zeros(pad - 1) + body);
    PrefixOfNullFree(path);
    DropAppend(path, Zeros(pad) + body, |path|);
    AppendAssoc(path, Zeros(pad), body);
  }

  /** Terminated non-empty null-free strings start with a non-NUL byte. */
  lemma {:induction false} TerminatedStartsNonNul(xs: seq<seq<Byte>>, rest: seq<Byte>)
    requires xs != [] && xs[0] != [] && NullFree(xs[0])
    ensures (Terminated(xs) + rest)[0] != NUL
  {
    assert (Terminated(xs) + rest)[0] == xs[0][0];
    assert xs[0][0] in xs[0];
  }

  /** After the path, the padding is skipped, the arguments are read back,
      and what is left decodes to the environment. */
  lemma {:induction false} AfterPathOfEncoded(pad: nat, args: seq<seq<Byte>>, entries: seq<Entry>, tail: nat)
    returns (region: seq<Byte>)
    requires ArgsOk(args)
    requires args != [] ==> args[0] != []
    requires forall i :: 0 <= i < |entries| ==> EntryOk(entries[i].0, entries[i].1)
    ensures var body := Terminated(args) + (Terminated(EntryLines(entries)) + Zeros(tail));
      ParseArgs(DropWhileNull(Zeros(pad) + body), |args|, []) == Success((args, region))
    ensures EnvFromRegion(region) == Success(EnvOf(entries))
  {
    var lines := EntryLines(entries);
    var envBytes := Terminated(lines) + Zeros(tail);
    var body := Terminated(args) + envBytes;
    if args != [] {
      region := envBytes;
      TerminatedStartsNonNul(args, envBytes);
      DropZeros(pad, body);
      ParseArgsOfTerminated(args, envBytes, []);
      assert [] + args == args;
      EnvOfEncoded(entries, tail);
    } else if entries != [] {
      region := envBytes;
      EntriesOfLines(entries);
      TerminatedStartsNonNul(lines, Zeros(tail));
      assert body == envBytes;
      DropZeros(pad, body);
      EnvOfEncoded(entries, tail);
    } else {
      region := [];
      assert Zeros(pad) + body == Zeros(pad + tail) + [];
      DropZeros(pad + tail, []);
      SplitAllNul([]);
    }
  }

  /** The environment lines and the slack after them decode to `EnvOf`. */
  lemma {:induction false} EnvOfEncoded(entries: seq<Entry>, tail: nat)
    requires forall i :: 0 <= i < |entries| ==> EntryOk(entries[i].0, entries[i].1)
    ensures EnvFromRegion(Terminated(EntryLines(entries)) + Zeros(tail)) == Success(EnvOf(entries))
  {
    var lines := EntryLines(entries);
    EntriesOfLines(entries);
    SplitTerminated(lines);
    SplitTrailingZeros(Terminated(lines), tail);
    EnvFromRegionIsEnvOf(Terminated(lines) + Zeros(tail));
  }

  /** `ProcArgs` put together from what each of its steps yields. */
  lemma {:induction false} ProcArgsOfSteps(data: seq<Byte>, path: seq<Byte>, args: seq<seq<Byte>>, region: seq<Byte>,
                        env: map<seq<Byte>, seq<Byte>>)
    requires MIN_BUFFER_SIZE <= |data|
    requires PrefixWhileNonNull(data[COUNT_SIZE..]) == path && ValidUtf8(path)
    requires ParseArgs(DropWhileNull(data[COUNT_SIZE..][|path|..]), Count(data[..COUNT_SIZE]), [])
      == Success((args, region))
    requires EnvFromRegion(region) == Success(env)
    ensures ProcArgs(data) == Success(Args(path, args, env))
  {
  }

  /** `ProcArgs` fails when its argument loop does. */
  lemma {:induction false} ProcArgsOfFailedArgs(data: seq<Byte>, path: seq<Byte>)
    requires MIN_BUFFER_SIZE <= |data|
    requires PrefixWhileNonNull(data[COUNT_SIZE..]) == path
    requires ParseArgs(DropWhileNull(data[COUNT_SIZE..][|path|..]), Count(data[..COUNT_SIZE]), []).Failure?
    ensures ProcArgs(data) == Failure(ArgsError)
  {
  }

  /** The path's terminator is not checked: a buffer that ends inside the
      path decodes, with no arguments and no environment, when the count is
      0, and fails when it is not, for want of a first argument. */
  lemma {:induction false} UnterminatedPath(header: seq<Byte>, path: seq<Byte>)
    requires |header| == COUNT_SIZE && NullFree(path) && ValidUtf8(path)
    ensures ProcArgs(header + path) ==
      if |header + path| < MIN_BUFFER_SIZE || Count(header) != 0 then Failure(ArgsError)
      else Success(Args(path, [], map[]))
  {
    var data := header + path;
    if MIN_BUFFER_SIZE <= |data| {
      AppendParts(header, path);
      PrefixOfNullFree(path);
      assert path[|path|..] == [];
      assert DropWhileNull([]) == [];
      if Count(header) == 0 {
        assert EnvFromRegion([]) == Success(map[]);
        ProcArgsOfSteps(data, path, [], [], map[]);
      } else {
        assert PrefixWhileNonNull([]) == [];
        ProcArgsOfFailedArgs(data, path);
      }
    }
  }

  /** Decoding an encoded buffer gives back the path, the arguments and the
      environment, later entries overriding earlier ones; only a buffer too
      short for the guard fails. The first argument must be non-empty: an
      empty one's terminator is taken for padding (`EmptyFirstArgumentShifts`). */
  lemma {:induction false} RoundTrip(header: seq<Byte>, path: seq<Byte>, pad: nat, args: seq<seq<Byte>>, entries: seq<Entry>, tail: nat)
    requires |header| == COUNT_SIZE && Count(header) == |args|
    requires NullFree(path) && ValidUtf8(path) && pad >= 1
    requires ArgsOk(args)
    requires args != [] ==> args[0] != []
    requires forall i :: 0 <= i < |entries| ==> EntryOk(entries[i].0, entries[i].1)
    ensures var data := Encode(header, path, pad, args, entries, tail);
      ProcArgs(data) ==
        if |data| < MIN_BUFFER_SIZE then Failure(ArgsError)
        else Success(Args(path, args, EnvOf(entries)))
  {
    var data := Encode(header, path, pad, args, entries, tail);
    if MIN_BUFFER_SIZE <= |data| {
      var body := Terminated(args) + (Terminated(EntryLines(entries)) + Zeros(tail));
      var d := path + Zeros(pad) + body;
      AppendParts(header, d);
      PathOfEncoded(path, pad, body);
      var region := AfterPathOfEncoded(pad, args, entries, tail);
      ProcArgsOfSteps(data, path, args, region, EnvOf(entries));
    }
  }

  /** Terminating two lists of strings one after the other. */
  lemma {:induction false} TerminatedConcat(xs: seq<seq<Byte>>, ys: seq<seq<Byte>>)
    ensures Terminated(xs + ys) == Terminated(xs) + Terminated(ys)
  {
    if xs == [] {
      assert xs + ys == ys;
    } else {
      assert (xs + ys)[0] == xs[0];
      DropAppend(xs, ys, 1);
      TerminatedConcat(xs[1..], ys);
      AppendAssoc(xs[0] + [NUL], Terminated(xs[1..]), Terminated(ys));
    }
  }

  /** A well-formed entry's line is null-free UTF-8. */
  lemma {:induction false} EntryLineWellFormed(k: seq<Byte>, v: seq<Byte>)
    requires EntryOk(k, v)
    ensures NullFree(EntryLine((k, v))) && ValidUtf8(EntryLine((k, v)))
  {
    assert ValidUtf8([EQUALS]);
    ConcatValid(k, [EQUALS]);
    ConcatValid(k + [EQUALS], v);
  }

  /** Moving one NUL from the front of the arguments into the padding. */
  lemma {:induction false} ShiftedBody(path: seq<Byte>, pad: nat, t: seq<Byte>, m: seq<Byte>, e: seq<Byte>, z: seq<Byte>)
    ensures path + Zeros(pad) + (([NUL] + t) + ((m + e) + z))
      == path + Zeros(pad + 1) + ((t + m) + (e + z))
  {
    AppendAssoc(m, e, z);
    AppendAssoc([NUL], t, m + (e + z));
    AppendAssoc(path + Zeros(pad), [NUL], t + (m + (e + z)));
    AppendAssoc(path, Zeros(pad), [NUL]);
    assert Zeros(pad) + [NUL] == Zeros(pad + 1);
    AppendAssoc(t, m, e + z);
  }

  /** The terminated forms of the pieces that `ShiftedEncodings` moves. */
  lemma {:induction false} ShiftedPieces(rest: seq<seq<Byte>>, entries: seq<Entry>)
    requires entries != []
    ensures var l := EntryLine(entries[0]);
      && Terminated([[]] + rest) == [NUL] + Terminated(rest)
      && Terminated(EntryLines(entries)) == (l + [NUL]) + Terminated(EntryLines(entries[1..]))
      && Terminated(rest + [l]) == Terminated(rest) + (l + [NUL])
  {
    var l := EntryLine(entries[0]);
    assert EntryLines(entries)[1..] == EntryLines(entries[1..]);
    assert ([[]] + rest)[1..] == rest;
    TerminatedConcat(rest, [l]);
    assert Terminated([l]) == l + [NUL];
  }

  /** The buffer for an empty first argument, arguments `rest` and entries
      `entries` is byte for byte the buffer for one more padding NUL,
      arguments `rest` followed by the first entry's line, and the other
      entries. */
  lemma {:induction false} ShiftedEncodings(header: seq<Byte>, path: seq<Byte>, pad: nat, rest: seq<seq<Byte>>, entries: seq<Entry>, tail: nat)
    requires |header| == COUNT_SIZE && entries != []
    ensures Encode(header, path, pad, [[]] + rest, entries, tail)
      == Encode(header, path, pad + 1, rest + [EntryLine(entries[0])], entries[1..], tail)
  {
    var l := EntryLine(entries[0]);
    ShiftedPieces(rest, entries);
    ShiftedBody(path, pad, Terminated(rest), l + [NUL], Terminated(EntryLines(entries[1..])), Zeros(tail));
  }

  /** Appending a null-free UTF-8 string keeps every argument readable. */
  lemma {:induction false} ArgsOkAppend(rest: seq<seq<Byte>>, l: seq<Byte>)
    requires ArgsOk(rest) && NullFree(l) && ValidUtf8(l)
    ensures ArgsOk(rest + [l])
  {
    if rest == [] {
      assert rest + [l] == [l] && [l][1..] == [];
    } else {
      assert (rest + [l])[0] == rest[0];
      assert (rest + [l])[1..] == rest[1..] + [l];
      ArgsOkAppend(rest[1..], l);
    }
  }

  /** With at least one argument the buffer is never too short, so it
      always decodes back into its parts. */
  lemma {:induction false} RoundTripNonEmpty(header: seq<Byte>, path: seq<Byte>, pad: nat, args: seq<seq<Byte>>, entries: seq<Entry>, tail: nat)
    requires |header| == COUNT_SIZE && Count(header) == |args|
    requires NullFree(path) && ValidUtf8(path) && pad >= 1
    requires args != [] && args[0] != []
    requires ArgsOk(args)
    requires forall i :: 0 <= i < |entries| ==> EntryOk(entries[i].0, entries[i].1)
    ensures ProcArgs(Encode(header, path, pad, args, entries, tail)) == Success(Args(path, args, EnvOf(entries)))
  {
    EncodeLength(header, path, pad, args, entries, tail);
    RoundTrip(header, path, pad, args, entries, tail);
  }

  /** The shifted buffer decodes as any buffer with arguments does. */
  lemma {:induction false} DecodeShifted(header: seq<Byte>, path: seq<Byte>, pad: nat, rest: seq<seq<Byte>>,
                                         line: seq<Byte>, more: seq<Entry>, tail: nat)
    requires |header| == COUNT_SIZE && Count(header) == |rest + [line]|
    requires NullFree(path) && ValidUtf8(path) && pad >= 1
    requires rest + [line] != [] && (rest + [line])[0] != []
    requires ArgsOk(rest + [line])
    requires forall i :: 0 <= i < |more| ==> EntryOk(more[i].0, more[i].1)
    ensures ProcArgs(Encode(header, path, pad + 1, rest + [line], more, tail))
      == Success(Args(path, rest + [line], EnvOf(more)))
  {
    var args := rest + [line];
    var data := Encode(header, path, pad + 1, args, more, tail);
    var body := Terminated(args) + (Terminated(EntryLines(more)) + Zeros(tail));
    EncodeLength(header, path, pad + 1, args, more, tail);
    AppendParts(header, path + Zeros(pad + 1) + body);
    PathOfEncoded(path, pad + 1, body);
    var region := AfterPathOfEncoded(pad + 1, args, more, tail);
    ProcArgsOfSteps(data, path, args, region, EnvOf(more));
  }

  /** An empty first argument is not read back: its terminator joins the
      path's padding, every later argument moves up one place, and the
      first environment line is read as the last argument and is missing
      from the environment. */
  lemma {:induction false} EmptyFirstArgumentShifts(header: seq<Byte>, path: seq<Byte>, pad: nat, rest: seq<seq<Byte>>,
                                 entries: seq<Entry>, tail: nat)
    requires |header| == COUNT_SIZE && Count(header) == |rest| + 1
    requires NullFree(path) && ValidUtf8(path) && pad >= 1
    requires ArgsOk(rest)
    requires rest != [] ==> rest[0] != []
    requires entries != []
    requires forall i :: 0 <= i < |entries| ==> EntryOk(entries[i].0, entries[i].1)
    ensures ProcArgs(Encode(header, path, pad, [[]] + rest, entries, tail))
      == Success(Args(path, rest + [EntryLine(entries[0])], EnvOf(entries[1..])))
  {
    ShiftedEncodings(header, path, pad, rest, entries, tail);
    EntryLineWellFormed(entries[0].0, entries[0].1);
    assert forall i :: 0 <= i < |entries[1..]| ==> entries[1..][i] == entries[i + 1];
    var line := EntryLine(entries[0]);
    ArgsOkAppend(rest, line);
    assert (rest + [line])[0] == if rest == [] then line else rest[0];
    DecodeShifted(header, path, pad, rest, EntryLine(entries[0]), entries[1..], tail);
  }

  /** An empty first argument with no environment line after the arguments:
      its terminator joins the padding, so the loop needs one more NUL after
      the last argument. With later arguments and at least one NUL of slack
      it reads that slack as an empty last argument; otherwise it fails. */
  lemma {:induction false} EmptyFirstArgumentNoEnvironment(header: seq<Byte>, path: seq<Byte>, pad: nat,
                                                           rest: seq<seq<Byte>>, tail: nat)
    requires |header| == COUNT_SIZE && Count(header) == |rest| + 1
    requires NullFree(path) && ValidUtf8(path) && pad >= 1
    requires ArgsOk(rest)
    requires rest != [] ==> rest[0] != []
    ensures ProcArgs(Encode(header, path, pad, [[]] + rest, [], tail)) ==
      if rest != [] && tail >= 1 then Success(Args(path, rest + [[]], map[])) else Failure(ArgsError)
  {
    var data := Encode(header, path, pad, [[]] + rest, [], tail);
    var body := Terminated(rest) + Zeros(tail);
    var d := path + Zeros(pad + 1) + body;
    EmptyFirstLayout(header, path, pad, rest, tail);
    AppendParts(header, d);
    PathOfEncoded(path, pad + 1, body);
    TerminatedLength(rest);
    if MIN_BUFFER_SIZE <= |data| {
      var r := ArgsAfterEmptyFirst(pad, rest, tail);
      if rest != [] && tail >= 1 {
        ProcArgsOfSteps(data, path, rest + [[]], r, map[]);
      } else {
        ProcArgsOfFailedArgs(data, path);
      }
    }
  }

  /** The buffer with an empty first argument and no environment line. */
  lemma {:induction false} EmptyFirstLayout(header: seq<Byte>, path: seq<Byte>, pad: nat, rest: seq<seq<Byte>>, tail: nat)
    requires |header| == COUNT_SIZE
    ensures Encode(header, path, pad, [[]] + rest, [], tail)
      == header + (path + Zeros(pad + 1) + (Terminated(rest) + Zeros(tail)))
  {
    var t := Terminated(rest);
    assert ([[]] + rest)[1..] == rest;
    assert Terminated([[]] + rest) == [NUL] + t;
    assert Terminated(EntryLines([])) == [];
    ShiftedBody(path, pad, t, [], [], Zeros(tail));
  }

  /** The argument loop over that buffer, after the padding: one round more
      than there are terminated arguments. */
  lemma {:induction false} ArgsAfterEmptyFirst(pad: nat, rest: seq<seq<Byte>>, tail: nat) returns (region: seq<Byte>)
    requires ArgsOk(rest)
    requires rest != [] ==> rest[0] != []
    ensures var s := DropWhileNull(Zeros(pad + 1) + (Terminated(rest) + Zeros(tail)));
      ParseArgs(s, |rest| + 1, []) ==
        if rest != [] && tail >= 1 then Success((rest + [[]], region)) else Failure(ArgsError)
    ensures rest != [] && tail >= 1 ==> EnvFromRegion(region) == Success(map[])
  {
    var body := Terminated(rest) + Zeros(tail);
    region := [];
    if rest == [] {
      assert Zeros(pad + 1) + body == Zeros(pad + 1 + tail) + [];
      DropZeros(pad + 1 + tail, []);
      assert PrefixWhileNonNull([]) == [];
    } else {
      TerminatedStartsNonNul(rest, Zeros(tail));
      DropZeros(pad + 1, body);
      ArgsOkAt(rest);
      if tail == 0 {
        assert body == Terminated(rest);
        TerminatedNulCount(rest);
        ParseArgsTooFewNuls(body, |rest| + 1, []);
      } else {
        region := Zeros(tail - 1);
        TerminatedConcat(rest, [[]]);
        assert Terminated([[]]) == [NUL];
        assert body == Terminated(rest + [[]]) + region by {
          assert Zeros(tail) == [NUL] + region;
          AppendAssoc(Terminated(rest), [NUL], region);
        }
        ArgsOkAppend(rest, []);
        ParseArgsOfTerminated(rest + [[]], region, []);
        assert [] + (rest + [[]]) == rest + [[]];
        SplitAllNul(region);
      }
    }
  }
}
