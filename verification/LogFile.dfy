/**
 The log file as the server's system calls see it. Every call may fail, reads and writes
 may be short; what a call does when it succeeds is fixed.
 */
module LogFile {
  import opened Bytes

  datatype Call = Reading | Appending | Truncating | Syncing | Closing

  class File {
    var content: seq<byte>  // what the file holds now
    var durable: seq<byte>  // what it held at the last successful sync
    var pos: nat            // the read offset
    ghost var failed: seq<Call>  // history: the calls that have failed

    constructor (bytes: seq<byte>)
      ensures content == durable == bytes && pos == 0 && failed == []
    {
      content, durable, pos, failed := bytes, bytes, 0, [];
    }

    /** read(2): any positive number of available bytes up to the limit, zero only at the end. */
    method Read(buf: array<byte>, at: nat, limit: nat) returns (n: int)
      requires pos <= |content| && 0 < limit && at + limit <= buf.Length
      modifies this`pos, this`failed, buf
      ensures -1 <= n <= limit && failed == old(failed) + if n < 0 then [Reading] else []
      ensures n == 0 ==> old(pos) == |content|
      ensures pos == (if n < 0 then old(pos) else old(pos) + n) <= |content|
      ensures n >= 0 ==> buf[..at + n] == old(buf[..at]) + content[old(pos)..pos]
    {
      n :| -1 <= n <= limit && pos + n <= |content| && (n == 0 ==> pos == |content|);
      if n < 0 {
        failed := failed + [Reading];
        return;
      }
      for i := 0 to n
        modifies buf
        invariant buf[..at + i] == old(buf[..at]) + content[pos..pos + i]
      {
        buf[at + i] := content[pos + i];
      }
      pos := pos + n;
    }

    /** write(2) on a descriptor opened for appending: any positive number of bytes, or an error; writing
        nothing is one too. */
    method Append(bytes: seq<byte>) returns (n: int)
      requires bytes != []
      modifies this`content, this`failed
      ensures -1 <= n <= |bytes| && failed == old(failed) + if n <= 0 then [Appending] else []
      ensures content == old(content) + bytes[..if n < 0 then 0 else n]
    {
      n :| -1 <= n <= |bytes|;
      if n > 0 {
        content := content + bytes[..n];
      } else {
        failed := failed + [Appending];
      }
    }

    method Truncate(len: nat) returns (ok: bool)
      requires len <= |content|
      modifies this`content, this`failed
      ensures content == if ok then old(content)[..len] else old(content)
      ensures failed == old(failed) + if ok then [] else [Truncating]
    {
      ok := *;
      if ok {
        content := content[..len];
      } else {
        failed := failed + [Truncating];
      }
    }

    method Sync() returns (ok: bool)
      modifies this`durable, this`failed
      ensures durable == if ok then content else old(durable)
      ensures failed == old(failed) + if ok then [] else [Syncing]
    {
      ok := *;
      if ok {
        durable := content;
      } else {
        failed := failed + [Syncing];
      }
    }

    method Close() returns (ok: bool)
      modifies this`failed
      ensures failed == old(failed) + if ok then [] else [Closing]
    {
      ok := *;
      if !ok {
        failed := failed + [Closing];
      }
    }
  }
}
