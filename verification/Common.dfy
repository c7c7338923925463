/** Vocabulary shared by the modules: optional values, status codes and byte strings. */
module Common {

  datatype Option<+T> = None | Some(value: T)

  /** The status codes of the C++ `Status` class; messages are not modelled. */
  datatype Status =
    | Ok
    | NotFound
    | AlreadyExists
    | InvalidArgument
    | IOError
    | ResourceExhausted
    | Unavailable
    | Internal

  type byte = x: int | 0 <= x < 256
  type uint32 = x: int | 0 <= x < 0x1_0000_0000
  type uint64 = x: int | 0 <= x < 0x1_0000_0000_0000_0000
  type int64 = x: int | -0x8000_0000_0000_0000 <= x < 0x8000_0000_0000_0000

  /** A `std::string`: names, paths, keys and serialized values are all byte strings. */
  type Text = seq<byte>

  const SLASH: byte := 0x2F

  function Min(a: int, b: int): int { if a <= b then a else b }

  ghost function Elements<T>(s: seq<T>): set<T>
  {
    set x | x in s
  }
}
