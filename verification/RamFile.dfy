/** Regular files of `oslabs/kernel/src/vfs.c`: growth by doubling, and read, write and seek through a
shared cursor.

Sizes and offsets are C `int`s; `LIMIT` keeps them and the doubled capacities below overflow.  Bytes in
a gap left by seeking past the end are whatever the buffer holds.
 */
module RamFile {
  import opened Common

  const LIMIT: nat := 0x4000_0000

  // ------------------------------------------------------------------ files as byte sequences

  function Max(a: nat, b: nat): nat { if a < b then b else a }

  /** `after` is `before` with `buf` written at `off`. */
  ghost predicate Overwrites(before: seq<int>, off: nat, buf: seq<int>, after: seq<int>) {
    && |after| == Max(|before|, off + |buf|)
    && (forall i :: off <= i < off + |buf| ==> after[i] == buf[i - off])
    && (forall i :: 0 <= i < |before| && !(off <= i < off + |buf|) ==> after[i] == before[i])
  }

  /** What a read of `n` bytes at `off` returns. */
  function ReadAt(content: seq<int>, off: nat, n: nat): seq<int> {
    content[Min(off, |content|)..Min(off + n, |content|)]
  }

  function Sum(ns: seq<nat>): nat {
    if ns == [] then 0 else ns[0] + Sum(ns[1..])
  }

  /** The results of consecutive reads of the given sizes, joined. */
  function ReadChunks(content: seq<int>, off: nat, ns: seq<nat>): seq<int>
    decreases |ns|
  {
    if ns == [] then []
    else
      var chunk := ReadAt(content, off, ns[0]);
      chunk + ReadChunks(content, off + |chunk|, ns[1..])
  }

  lemma SplitRead(content: seq<int>, off: nat, a: nat, b: nat)
    ensures ReadAt(content, off, a) + ReadAt(content, off + |ReadAt(content, off, a)|, b) == ReadAt(content, off, a + b)
  {
  }

  lemma ReadNothing(content: seq<int>, off: nat)
    ensures ReadAt(content, off, 0) == []
  {
  }

  /** However a read is cut into chunks, the content comes once and in order. */
  lemma {:induction false} ChunksInOrder(content: seq<int>, off: nat, ns: seq<nat>, chunks: seq<int>)
    requires chunks == ReadChunks(content, off, ns)
    ensures chunks == ReadAt(content, off, Sum(ns))
    decreases |ns|
  {
    if ns == [] {
      ReadNothing(content, off);
    } else {
      var chunk := ReadAt(content, off, ns[0]);
      var rest, total := ReadChunks(content, off + |chunk|, ns[1..]), Sum(ns[1..]);
      ChunksInOrder(content, off + |chunk|, ns[1..], rest);
      SplitRead(content, off, ns[0], total);
      assert chunks == chunk + rest;
    }
  }

  /** Reading a whole file in chunks yields the file. */
  lemma ReadWhole(content: seq<int>, ns: seq<nat>)
    requires Sum(ns) >= |content|
    ensures ReadChunks(content, 0, ns) == content
  {
    ChunksInOrder(content, 0, ns, ReadChunks(content, 0, ns));
  }

  /** What was written is read back, in any chunks. */
  lemma WriteThenRead(before: seq<int>, off: nat, buf: seq<int>, after: seq<int>, ns: seq<nat>)
    requires Overwrites(before, off, buf, after) && Sum(ns) == |buf|
    ensures ReadChunks(after, off, ns) == buf
  {
    ChunksInOrder(after, off, ns, ReadChunks(after, off, ns));
  }

  // ------------------------------------------------------------------ the buffer

  class Inode {
    var data: array<int>
    var size: nat

    ghost predicate Valid()
      reads this
    {
      size <= data.Length
    }

    ghost function Content(): seq<int>
      requires Valid()
      reads this, data
    {
      data[..size]
    }

    constructor ()
      ensures Valid() && Content() == [] && fresh(data)
    {
      data := new int[0];
      size := 0;
    }

    /** `igrow`: room for `need` bytes; the content stays. */
    method Grow(need: nat)
      requires Valid() && need <= LIMIT
      modifies this`data
      ensures Valid() && Content() == old(Content()) && data.Length >= need
      ensures data == old(data) || fresh(data)
      ensures old(data.Length) < 2 * LIMIT ==> data.Length < 2 * LIMIT
    {
      if need <= data.Length {
        return;
      }
      var newcap := if data.Length != 0 then data.Length else 256;
      while newcap < need
        invariant 0 < newcap && (newcap == data.Length || newcap == 256 || newcap < 2 * need)
        decreases need - newcap
      {
        newcap := newcap * 2;
      }
      var nd := new int[newcap];
      var i := 0;
      while i < size
        invariant data == old(data) && i <= size <= data.Length < newcap == nd.Length
        invariant forall k :: 0 <= k < i ==> nd[k] == data[k]
      {
        nd[i] := data[i];
        i := i + 1;
      }
      data := nd;
    }
  }

  /** The `memcpy` of a write. */
  method CopyIn(data: array<int>, off: nat, buf: seq<int>)
    requires off + |buf| <= data.Length
    modifies data
    ensures forall k :: 0 <= k < data.Length ==> data[k] == if off <= k < off + |buf| then buf[k - off] else old(data[k])
  {
    var i := 0;
    while i < |buf|
      invariant i <= |buf|
      invariant forall k :: 0 <= k < data.Length ==> data[k] == if off <= k < off + i then buf[k - off] else old(data[k])
    {
      data[off + i] := buf[i];
      i := i + 1;
    }
  }

  /** An open file: the entry that duplicated descriptors share. */
  class Cursor {
    const ip: Inode
    var off: nat
    const readable: bool
    const writable: bool

    constructor (ip: Inode, readable: bool, writable: bool)
      ensures this.ip == ip && off == 0 && this.readable == readable && this.writable == writable
    {
      this.ip := ip;
      off := 0;
      this.readable := readable;
      this.writable := writable;
    }

    /** `vfs_read` of a regular file. */
    method Read(n: int) returns (r: int, buf: seq<int>)
      requires ip.Valid()
      modifies this`off
      ensures r == if !readable || n < 0 then -1 else |ReadAt(ip.Content(), old(off), n)|
      ensures buf == if !readable || n < 0 then [] else ReadAt(ip.Content(), old(off), n)
      ensures off == old(off) + |buf|
    {
      if !readable || n < 0 {
        return -1, [];
      }
      if off >= ip.size {
        return 0, [];
      }
      var c := if n < ip.size - off then n else ip.size - off;
      buf := ip.data[off..off + c];
      assert ip.Content()[off..off + c] == buf;
      off := off + c;
      r := c;
    }

    /** `vfs_write` of a regular file: exactly the written range changes, and the file ends at the larger of
        its old size and the end of the write. */
    method Write(buf: seq<int>) returns (r: int)
      requires ip.Valid() && off + |buf| <= LIMIT
      modifies this`off, ip, ip.data
      ensures ip.Valid() && (ip.data == old(ip.data) || fresh(ip.data))
      ensures r == if writable then |buf| else -1
      ensures writable ==> Overwrites(old(ip.Content()), old(off), buf, ip.Content()) && off == old(off) + |buf|
      ensures !writable ==> ip.Content() == old(ip.Content()) && off == old(off)
    {
      if !writable {
        return -1;
      }
      ip.Grow(off + |buf|);
      assert ip.data[..ip.size] == old(ip.Content());
      CopyIn(ip.data, off, buf);
      off := off + |buf|;
      if off > ip.size {
        ip.size := off;
      }
      r := |buf|;
    }

    /** `vfs_lseek`: whence 0, 1, 2 is from the start, the cursor, the end. */
    method Seek(to: int, whence: int) returns (r: int)
      requires ip.Valid()
      modifies this`off
      ensures var base := if whence == 0 then 0 else if whence == 1 then old(off) else ip.size;
              if 0 <= whence <= 2 && base + to >= 0 then r == base + to == off else r == -1 && off == old(off)
    {
      var base := 0;
      if whence == 0 {
      } else if whence == 1 {
        base := off;
      } else if whence == 2 {
        base := ip.size;
      } else {
        return -1;
      }
      var np := base + to;
      if np < 0 {
        return -1;
      }
      off := np;
      r := np;
    }
  }
}
