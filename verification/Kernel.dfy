/** The operating system's `write`, as far as the filter relies on it. */
module Kernel {
  import opened Bytes

  class Kernel {
    /** The bytes delivered so far to each descriptor. */
    var files: map<int, seq<Byte>>

    /**
     How many more times in a row a write may deliver nothing.  It is refilled with an arbitrary
     number whenever bytes are delivered, so any finite pattern of failures and short writes
     can happen; only a write that fails for ever is excluded.
     */
    var stalls: nat

    constructor ()
      ensures files == map[]
    {
      files := map[];
      stalls := *;
    }

    function Contents(fd: int): seq<Byte>
      reads this
    {
      if fd in files then files[fd] else []
    }

    /** Delivers some prefix of `data` and returns its length, or fails with -1. */
    method Write(fd: int, data: seq<Byte>) returns (written: int)
      modifies this
      ensures -1 <= written <= |data|
      ensures Contents(fd) == old(Contents(fd)) + data[..if written < 0 then 0 else written]
      ensures forall f :: f != fd ==> Contents(f) == old(Contents(f))
      ensures |data| > 0 && written <= 0 ==> stalls < old(stalls)
    {
      var limit := if stalls > 0 || |data| == 0 then -1 else 1;
      assert limit <= |data| <= |data|;
      written :| limit <= written <= |data|;
      if written > 0 {
        files := files[fd := Contents(fd) + data[..written]];
        stalls := *;
      } else if stalls > 0 {
        stalls := stalls - 1;
      }
    }
  }
}
