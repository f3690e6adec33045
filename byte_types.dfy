/** Shared vocabulary: octets and an optional value. */
module ByteTypes {

  /** One octet, as stored in a Uint8Array or a Node.js Buffer. */
  newtype byte = x: int | 0 <= x < 256

  datatype Option<+T> = None | Some(value: T) {
    function GetOr(default: T): T {
      match this
      case Some(v) => v
      case None => default
    }
  }

  /** JavaScript's indexed read `a[i]`: the byte when `i` is in range,
      and -1 (standing for `undefined`, equal to no byte value) otherwise. */
  function At(s: seq<byte>, i: int): (r: int)
    ensures -1 <= r < 256
    ensures r == -1 <==> !(0 <= i < |s|)
    ensures 0 <= i < |s| ==> r == s[i] as int
  {
    if 0 <= i < |s| then s[i] as int else -1
  }
}
