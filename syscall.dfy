/** The decoding part of `SysCall.args`, written as the Swift code runs it:
    one cursor `remaining` into the buffer, advanced past the count, the path
    and its padding, then once per argument, and finally split into the
    environment runs. Fetching the buffer is not part of this model; the
    method starts from the bytes the kernel wrote. */
module SysCall {
  import opened Bytes
  import opened Utf8
  import opened SysCallTypes
  import opened ProcArgsSpec

  /** Decodes a KERN_PROCARGS2 buffer. It computes exactly `ProcArgs(data)`,
      so every property proved of `ProcArgs` holds of its result. */
  method DecodeArgs(data: seq<Byte>) returns (r: Result<Args>)
    ensures r == ProcArgs(data)
  {
    var remaining := data;
    if |remaining| < MIN_BUFFER_SIZE {
      return Failure(ArgsError);
    }
    var count32 := Count(remaining[..COUNT_SIZE]);
    remaining := remaining[COUNT_SIZE..];
    var pathBytes := PrefixWhileNonNull(remaining);
    if !ValidUtf8(pathBytes) {
      return Failure(ArgsError);
    }
    remaining := remaining[|pathBytes|..];
    remaining := DropWhileNull(remaining);

    ghost var argsRegion := remaining;
    var arguments: seq<seq<Byte>> := [];
    for i := 0 to count32
      invariant ParseArgs(argsRegion, count32, []) == ParseArgs(remaining, count32 - i, arguments)
    {
      var argBytes := PrefixWhileNonNull(remaining);
      if !ValidUtf8(argBytes) {
        return Failure(ArgsError);
      }
      arguments := arguments + [argBytes];
      remaining := remaining[|argBytes|..];
      if |remaining| == 0 {
        return Failure(ArgsError);
      }
      remaining := remaining[1..];
    }

    var env := ReadEnvironment(remaining);
    if env.Failure? {
      return Failure(env.error);
    }
    return Success(Args(pathBytes, arguments, env.value));
  }

  /** The `for line in remaining.split(separator: 0)` loop of `args`: it
      fills the environment map from the bytes after the last argument,
      and computes exactly `EnvFromRegion(region)`. */
  method ReadEnvironment(region: seq<Byte>) returns (r: Result<map<seq<Byte>, seq<Byte>>>)
    ensures r == EnvFromRegion(region)
  {
    var lines := SplitOnNull(region);
    var env: map<seq<Byte>, seq<Byte>> := map[];
    for j := 0 to |lines|
      invariant EnvFromRegion(region) == ParseEnv(lines[j..], env)
    {
      var line := lines[j];
      if line == [] {
        break;
      }
      if !ValidUtf8(line) {
        return Failure(ArgsError);
      }
      var kv := SplitOnceAtEquals(line);
      if |kv| != 2 {
        return Failure(ArgsError);
      }
      env := env[kv[0] := kv[1]];
    }
    return Success(env);
  }
}
