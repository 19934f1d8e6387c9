/** The result types of `SysCall.args`: its error enum and the decoded record. */
module SysCallTypes {
  import opened Bytes

  type Int32 = x: int | -0x8000_0000 <= x < 0x8000_0000

  /** `SysCall.Error`: a nonzero `sysctl` status, an error thrown by the
      buffer fetch (opaque here), or a malformed argument buffer. The decoder
      itself only ever produces `ArgsError`. */
  datatype Error = Rv(code: Int32) | Wrapped | ArgsError

  /** Swift's `Result<_, SysCall.Error>`. */
  datatype Result<T> = Success(value: T) | Failure(error: Error)

  /** `SysCall.Args`: the executable path, the arguments in buffer order and
      the environment. Strings are kept as their UTF-8 bytes. */
  datatype Args = Args(path: seq<Byte>, args: seq<seq<Byte>>, env: map<seq<Byte>, seq<Byte>>)
}
