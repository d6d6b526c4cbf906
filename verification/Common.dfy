/** Types and machine operations that several modules share. */
module Common {
  import opened Arith

  type Byte = b: int | 0 <= b < 256 witness 0

  datatype Option<T> = None | Some(value: T)

  /** What a 32-bit word keeps of a number. */
  function Word(x: int): nat { x % WORD }

  /** `(uint32_t)(a - b)`, which depends only on what words keep of a and b. */
  function Sub32(a: nat, b: nat): nat { (a - b) % WORD }

  /** Replace |data| bytes at off. */
  function Splice(s: seq<Byte>, off: nat, data: seq<Byte>): (r: seq<Byte>)
    requires off + |data| <= |s|
    ensures |r| == |s|
    ensures forall i :: 0 <= i < |s| ==> r[i] == if off <= i < off + |data| then data[i - off] else s[i]
  {
    s[..off] + data + s[off + |data|..]
  }
}
