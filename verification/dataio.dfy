/**
 * java.io.DataOutput.writeInt and java.io.DataInput.readInt: an int travels as
 * four bytes, high byte first, in two's complement.
 */
module DataIO {
  import opened Wrappers
  import opened JavaText

  type byte = x: int | 0 <= x < 256

  /** The four bytes writeInt emits for v. */
  function WriteInt(v: int32): (bs: seq<byte>)
    ensures |bs| == 4
  {
    var u := if v < 0 then v as int + 0x1_0000_0000 else v as int;
    var b3 := u % 256;
    var r1 := u / 256;
    var b2 := r1 % 256;
    var r2 := r1 / 256;
    var b1 := r2 % 256;
    var b0 := r2 / 256;
    [b0, b1, b2, b3]
  }

  /** readInt on a stream: the int its first four bytes encode and the rest, or EOF. */
  function ReadInt(bs: seq<byte>): (r: Result<(int32, seq<byte>)>)
    ensures r.Success? <==> |bs| >= 4
    ensures r.Success? ==> r.value.1 == bs[4..]
  {
    if |bs| < 4 then Failure(EndOfFile)
    else
      var u: int := ((bs[0] as int * 256 + bs[1]) * 256 + bs[2]) * 256 + bs[3];
      Success((if u > MaxInt then u - 0x1_0000_0000 else u, bs[4..]))
  }

  /** Whatever follows the four bytes of v is left for the next read. */
  lemma ReadWriteInt(v: int32, rest: seq<byte>)
    ensures ReadInt(WriteInt(v) + rest) == Success((v, rest))
  {
    var u := if v < 0 then v as int + 0x1_0000_0000 else v as int;
    var r1 := u / 256;
    var r2 := r1 / 256;
    assert u == r1 * 256 + u % 256;
    assert r1 == r2 * 256 + r1 % 256;
    assert r2 == (r2 / 256) * 256 + r2 % 256;
    assert (WriteInt(v) + rest)[4..] == rest;
  }
}
