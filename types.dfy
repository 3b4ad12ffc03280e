/** Value types shared by the string scanners and the IP literal parser. */
module Types {

  /** One byte of a Go string. */
  type Byte = b: int | 0 <= b < 256

  /** Absent / present value; `None` plays the role of Go's nil IP. */
  datatype Option<+T> = None | Some(value: T)

  /** `n` zero bytes. */
  function Zeros(n: nat): (z: seq<Byte>)
    ensures |z| == n
    ensures forall k | 0 <= k < n :: z[k] == 0
  {
    seq(n, _ => 0)
  }
}
