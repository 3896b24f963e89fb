/** Moving bytes inside fixed buffers. */
module Buffers {
  import opened Bytes

  /** memmove of the bytes from `used` on to the front. */
  method Slide(buffer: array<byte>, used: nat, have: nat)
    requires used <= have <= buffer.Length
    modifies buffer
    ensures buffer[..have - used] == old(buffer[used..have])
  {
    for i := 0 to have - used
      invariant buffer[..i] == old(buffer[used..used + i])
      invariant buffer[i..] == old(buffer[i..])
    {
      buffer[i] := buffer[used + i];
    }
  }

  ghost function Splice(s: seq<byte>, at: nat, bytes: seq<byte>): seq<byte>
    requires at + |bytes| <= |s|
  {
    s[..at] + bytes + s[at + |bytes|..]
  }

  /** Writes bytes right after those already placed at `at` in a buffer that held `was`. */
  method Append(buf: array<byte>, pos: nat, bytes: seq<byte>,
                ghost was: seq<byte>, ghost at: nat, ghost done: seq<byte>)
    requires |was| == buf.Length && at + |done| == pos && pos + |bytes| <= buf.Length
    requires buf[..] == Splice(was, at, done)
    modifies buf
    ensures buf[..] == Splice(was, at, done + bytes)
  {
    for i := 0 to |bytes|
      invariant buf[..] == Splice(was, at, done + bytes[..i])
    {
      buf[pos + i] := bytes[i];
      assert bytes[..i + 1] == bytes[..i] + [bytes[i]];
    }
    assert bytes[..|bytes|] == bytes;
  }

  lemma SpliceSlice(s: seq<byte>, at: nat, bytes: seq<byte>)
    requires at + |bytes| <= |s|
    ensures |Splice(s, at, bytes)| == |s|
    ensures Splice(s, at, bytes)[at..at + |bytes|] == bytes
  {
  }

  lemma StartSplice(s: seq<byte>, at: nat)
    requires at <= |s|
    ensures Splice(s, at, []) == s
  {
  }
}
