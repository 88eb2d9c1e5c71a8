/** What several models share: optional results, bytes, word sizes, C characters and small functions. */
module Common {

  datatype Option<+T> = None | Some(value: T)

  type byte = b: int | 0 <= b < 256

  const WORD_32 := 0x1_0000_0000
  const WORD_64 := 0x1_0000_0000_0000_0000

  const NUL := '\0'

  function Abs(n: int): nat { if n < 0 then -n else n }

  predicate Distinct(l: seq<nat>) {
    forall i, j :: 0 <= i < j < |l| ==> l[i] != l[j]
  }

  /** The bytes of `data` put at address `at`. */
  function Spliced(m: seq<byte>, at: nat, data: seq<byte>): (r: seq<byte>)
    requires at + |data| <= |m|
    ensures |r| == |m|
    ensures forall i :: 0 <= i < |m| ==> r[i] == if at <= i < at + |data| then data[i - at] else m[i]
  {
    m[..at] + data + m[at + |data|..]
  }

  /** isspace, and the characters atoi skips. */
  predicate IsSpace(c: char) {
    c == ' ' || c == '\t' || c == '\n' || c == 11 as char || c == 12 as char || c == '\r'
  }
}
