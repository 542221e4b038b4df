// What several modules share.
module Base {
  datatype Option<+T> = None | Some(value: T)

  type Byte = b: int | 0 <= b < 0x100

  predicate IsDigit(c: char) { '0' <= c <= '9' }

  function Zeros(n: nat): (z: seq<nat>)
    ensures |z| == n && forall i :: 0 <= i < n ==> z[i] == 0
  {
    seq(n, _ => 0)
  }

  // The signed number that a word of the given size holds for x.
  function Wrap(x: int, size: int): int
    requires size > 0
  {
    var r := x % size;
    if r < size / 2 then r else r - size
  }
}
