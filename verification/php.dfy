/** The pieces of PHP's runtime behaviour that the generators and the composer rely on. */
module Php {

  /** A byte, as `ord()` returns it for one character of a binary string. */
  newtype byte = x: int | 0 <= x < 256

  /** PHP's nullable scalar, used for `?int` parameters. */
  datatype Option<T> = None | Some(value: T)

  /** The values an alphabet argument can take: `null`, a string, or (the untyped legacy
      setter only) an array of symbols. */
  datatype Value = Null | Str(s: string) | Arr(items: seq<string>)

  /** PHP's `empty()` on these values: `null`, `""`, `"0"` and the empty array are empty. */
  predicate IsEmpty(v: Value) {
    match v
    case Null => true
    case Str(s) => s == "" || s == "0"
    case Arr(items) => |items| == 0
  }

  function Max(a: int, b: int): int {
    if a >= b then a else b
  }

  /** `str_split($s)` with the default chunk length of one. */
  function StrSplit(s: string): (parts: seq<string>)
    ensures |parts| == |s|
    ensures forall i :: 0 <= i < |s| ==> |parts[i]| == 1 && parts[i][0] == s[i]
  {
    seq(|s|, i requires 0 <= i < |s| => [s[i]])
  }

  /** The string a loop of `$string .= $part` builds from the parts, in order. */
  function Concat(parts: seq<string>): string
    decreases |parts|
  {
    if |parts| == 0 then "" else Concat(parts[..|parts| - 1]) + parts[|parts| - 1]
  }
}
