/** Small types shared by every module. */
module Basics {
  datatype Option<+T> = None | Some(value: T)

  type Byte = b: int | 0 <= b < 256

  type Bytes = seq<Byte>

  predicate IsAscii(s: string) {
    forall i | 0 <= i < |s| :: (s[i] as int) < 0x80
  }
}
