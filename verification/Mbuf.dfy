/** `mbuf_*` of `src/mongoose.c`: the growable byte buffer every connection and pipe works on. */
module Mbuf {
  import opened Bytes

  const MAX_HEADROOM: nat := 1024

  /** Capacity after growing for `need` bytes: half as much again, with bounded headroom. */
  function GrownSize(need: nat): (size: nat)
    ensures need <= size <= need + MAX_HEADROOM
  {
    need + if need / 2 > MAX_HEADROOM then MAX_HEADROOM else need / 2
  }

  class Mbuf {
    var buf: array<byte>
    var len: nat

    ghost predicate Valid()
      reads this
    {
      len <= buf.Length
    }

    ghost function Contents(): (s: seq<byte>)
      requires Valid()
      reads this, buf
      ensures |s| == len
    {
      buf[..len]
    }

    constructor (size: nat)
      ensures Valid() && fresh(buf) && buf.Length == size && Contents() == []
    {
      buf := new byte[size];
      len := 0;
    }

    method Append(data: seq<byte>)
      requires Valid()
      modifies this, buf
      ensures Valid() && Contents() == old(Contents()) + data
      ensures old(len) + |data| <= old(buf.Length) ==> buf == old(buf)
      ensures old(len) + |data| > old(buf.Length) ==> fresh(buf) && buf.Length == GrownSize(old(len) + |data|)
    {
      if len + |data| > buf.Length {
        var grown := new byte[GrownSize(len + |data|)];
        forall i | 0 <= i < len {
          grown[i] := buf[i];
        }
        buf := grown;
      }
      forall i | 0 <= i < |data| {
        buf[len + i] := data[i];
      }
      len := len + |data|;
    }

    method Remove(n: nat)
      requires Valid()
      modifies this`len, buf
      ensures Valid()
      ensures Contents() == if n <= old(len) then old(Contents())[n..] else old(Contents())
    {
      if 0 < n <= len {
        forall i | 0 <= i < len - n {
          buf[i] := buf[n + i];
        }
        len := len - n;
      }
    }

    /** `memmove` of everything from `src` on down to `dst`, shortening the contents accordingly. */
    method CloseGap(dst: nat, src: nat)
      requires Valid() && dst <= src <= len
      modifies this`len, buf
      ensures Valid() && Contents() == old(Contents())[..dst] + old(Contents())[src..]
    {
      ghost var all := Contents();
      forall i | 0 <= i < len - src {
        buf[dst + i] := buf[src + i];
      }
      len := len - (src - dst);
      assert buf[..dst] == all[..dst] && buf[dst..len] == all[src..];
      assert buf[..len] == buf[..dst] + buf[dst..len];
    }

    /** `memmove` of `n` bytes inside the contents, downwards. */
    method MoveDown(dst: nat, src: nat, n: nat)
      requires Valid() && dst <= src && src + n <= len
      modifies buf
      ensures Valid()
      ensures var all := old(Contents()); Contents() == all[..dst] + all[src..src + n] + all[dst + n..]
    {
      forall i | 0 <= i < n {
        buf[dst + i] := buf[src + i];
      }
    }
  }
}
