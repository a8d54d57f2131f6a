/** Reading up to a delimiter, four bytes at a time while there are four. */
module EatBytes {
  import opened Utf8
  import opened WordTricks

  /** The bytes before the first delimiter and the rest from it on; or the whole buffer when there is none. */
  method EatBytesUntil(buffer: seq<Byte>, delim: Byte) returns (value: seq<Byte>, success: bool, rest: seq<Byte>)
    ensures success <==> delim in buffer
    ensures success ==> buffer == value + rest && delim !in value && rest != [] && rest[0] == delim
    ensures !success ==> value == [] && rest == buffer
  {
    var p := 0;
    while |buffer| - p >= 4
      invariant 0 <= p <= |buffer| && delim !in buffer[..p]
    {
      var has := HasByteAt(buffer, p, delim);
      if has { break; }
      assert buffer[..p + 4] == buffer[..p] + buffer[p..p + 4];
      p := p + 4;
    }
    while p < |buffer|
      invariant 0 <= p <= |buffer| && delim !in buffer[..p]
    {
      if buffer[p] == delim {
        return buffer[..p], true, buffer[p..];
      }
      assert buffer[..p + 1] == buffer[..p] + [buffer[p]];
      p := p + 1;
    }
    assert buffer[..p] == buffer;
    return [], false, buffer;
  }
}
