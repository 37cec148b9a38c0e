/** The shared-memory circular buffer for audio blocks, with its 32-bit address arithmetic. */
module ShmRing {
  import opened Common

  const MAGIC: nat := 0xABCD_ABCD
  const OVERHEAD: nat := 128

  /** The control block and the data area [startAddr, endAddr). */
  datatype Ring = Ring(header: nat, readAddr: nat, writeAddr: nat, startAddr: nat, endAddr: nat,
                       totalBufSize: nat, readErrCnt: nat, readErrorEmpty: nat, writeErrorFull: nat,
                       data: seq<Byte>)

  ghost predicate Valid(g: Ring) {
    && g.startAddr <= g.readAddr <= g.endAddr < U32
    && g.startAddr <= g.writeAddr <= g.endAddr
    && g.endAddr - g.startAddr == |g.data| == g.totalBufSize
  }

  /** Bytes available, as the reader computes them; when the writer is behind, the
      expression is taken modulo 2^32. */
  function Avail(readAddr: nat, writeAddr: nat, size: nat): nat {
    if writeAddr >= readAddr then writeAddr - readAddr else (size - readAddr - writeAddr) % U32
  }

  datatype ReadResult = Data(bytes: seq<Byte>) | NoData | Split

  /** 32-bit sum of an address and a length. */
  function Sum32(addr: nat, len: nat): nat {
    if addr + len < U32 then addr + len else (addr + len) % U32
  }

  predicate Readable(g: Ring, len: nat) {
    g.header == MAGIC && Avail(g.readAddr, g.writeAddr, g.totalBufSize) >= len
  }

  /** The sum wraps past 2^32 and so slips under the end check: the copy would run out of the area. */
  predicate WildRead(g: Ring, len: nat) {
    Readable(g, len) && g.readAddr + len >= U32 && Sum32(g.readAddr, len) <= g.endAddr
  }

  predicate WildWrite(g: Ring, len: nat) {
    g.header == MAGIC && g.writeAddr + len >= U32 && Sum32(g.writeAddr, len) <= g.endAddr
  }

  /** A read of `len` bytes; `Split` is the case that would run over the end. */
  function Read(g: Ring, len: nat): (r: (Ring, ReadResult))
    requires Valid(g) && !WildRead(g, len)
    ensures Valid(r.0)
  {
    if Readable(g, len) then
      if Sum32(g.readAddr, len) <= g.endAddr then
        var off, next := g.readAddr - g.startAddr, Sum32(g.readAddr, len);
        (g.(readAddr := if next == g.endAddr then g.startAddr else next), Data(g.data[off..off + len]))
      else (g.(readErrorEmpty := g.readErrorEmpty + 1), Split)
    else (g.(readErrCnt := g.readErrCnt + 1), NoData)
  }

  function Put(data: seq<Byte>, off: nat, block: seq<Byte>): (r: seq<Byte>)
    requires off + |block| <= |data|
    ensures |r| == |data|
  {
    data[..off] + block + data[off + |block|..]
  }

  lemma PutSnoc(data: seq<Byte>, off: nat, block: seq<Byte>, i: nat)
    requires i < |block| && off + |block| <= |data|
    ensures Put(data, off, block[..i])[off + i := block[i]] == Put(data, off, block[..i + 1])
  {
    assert block[..i + 1] == block[..i] + [block[i]];
  }

  /** A write; there is no check against the reader, only against the end of the area. */
  function Write(g: Ring, block: seq<Byte>): (r: Ring)
    requires Valid(g) && !WildWrite(g, |block|)
    ensures Valid(r)
  {
    if g.header != MAGIC then g
    else if Sum32(g.writeAddr, |block|) <= g.endAddr then
      var next := Sum32(g.writeAddr, |block|);
      g.(data := Put(g.data, g.writeAddr - g.startAddr, block),
         writeAddr := if next == g.endAddr then g.startAddr else next)
    else g.(writeErrorFull := g.writeErrorFull + 1)
  }

  /** When the end check passes, the copy stays inside the area exactly when the call is not wild. */
  lemma CopyStaysInside(g: Ring, len: nat)
    requires Valid(g)
    ensures Readable(g, len) && Sum32(g.readAddr, len) <= g.endAddr ==>
              (g.startAddr <= g.readAddr && g.readAddr + len <= g.endAddr <==> !WildRead(g, len))
    ensures g.header == MAGIC && Sum32(g.writeAddr, len) <= g.endAddr ==>
              (g.startAddr <= g.writeAddr && g.writeAddr + len <= g.endAddr <==> !WildWrite(g, len))
  {
  }

  /** What a read gets, byte by byte, and when. Without the magic number it gets nothing and moves no
      address. */
  lemma ReadOutcome(g: Ring, len: nat)
    requires Valid(g) && !WildRead(g, len)
    ensures var (r, out) := Read(g, len);
            var enough := g.header == MAGIC && Avail(g.readAddr, g.writeAddr, g.totalBufSize) >= len;
            && (out.Data? <==> enough && g.readAddr + len <= g.endAddr)
            && (out.Split? <==> enough && g.readAddr + len > g.endAddr)
            && (out.Data? ==>
                  && |out.bytes| == len
                  && (forall i :: 0 <= i < len ==> out.bytes[i] == g.data[g.readAddr + i - g.startAddr])
                  && r == g.(readAddr := r.readAddr)
                  && r.readAddr == if g.readAddr + len == g.endAddr then g.startAddr else g.readAddr + len)
            && (out.Split? ==> r == g.(readErrorEmpty := g.readErrorEmpty + 1))
            && (out.NoData? ==> r == g.(readErrCnt := g.readErrCnt + 1))
  {
  }

  /** What a write changes, byte by byte, and when. Without the magic number it changes nothing. */
  lemma WriteOutcome(g: Ring, block: seq<Byte>)
    requires Valid(g) && !WildWrite(g, |block|)
    ensures var r, off, fits := Write(g, block), g.writeAddr - g.startAddr, g.writeAddr + |block| <= g.endAddr;
            && (g.header != MAGIC ==> r == g)
            && (g.header == MAGIC && !fits ==> r == g.(writeErrorFull := g.writeErrorFull + 1))
            && (g.header == MAGIC && fits ==>
                  && r == g.(data := r.data, writeAddr := r.writeAddr)
                  && r.writeAddr == (if g.writeAddr + |block| == g.endAddr then g.startAddr
                                     else g.writeAddr + |block|)
                  && |r.data| == |g.data|
                  && forall i :: 0 <= i < |g.data| ==>
                       r.data[i] == if off <= i < off + |block| then block[i - off] else g.data[i])
  {
  }

  /** Data size after flooring to whole blocks. */
  function DataSize(totalSize: nat, blockSize: nat): nat
    requires totalSize >= OVERHEAD && blockSize > 0
  {
    (totalSize - OVERHEAD) / blockSize * blockSize
  }

  /** The largest number of whole blocks that fits beside the control block. */
  lemma DataSizeExactly(totalSize: nat, blockSize: nat)
    requires totalSize >= OVERHEAD && blockSize > 0
    ensures var size := DataSize(totalSize, blockSize);
            && (exists n: nat :: size == n * blockSize)
            && OVERHEAD + size <= totalSize < OVERHEAD + size + blockSize
  {
    var n: nat := (totalSize - OVERHEAD) / blockSize;
    assert DataSize(totalSize, blockSize) == n * blockSize;
  }

  function Fresh(address: nat, size: nat): Ring {
    var start := address + OVERHEAD;
    Ring(MAGIC, start, start, start, start + size, size, 0, 0, 0, seq(size, _ => 0))
  }

  /** The shared-memory object itself. */
  class ShmObj {
    var header: nat
    var readAddr: nat
    var writeAddr: nat
    var startAddr: nat
    var endAddr: nat
    var totalBufSize: nat
    var readErrCnt: nat
    var readErrorEmpty: nat
    var writeErrorFull: nat
    const data: array<Byte>

    ghost function State(): Ring
      reads this, data
    {
      Ring(header, readAddr, writeAddr, startAddr, endAddr, totalBufSize,
           readErrCnt, readErrorEmpty, writeErrorFull, data[..])
    }

    /** Clears the memory and creates a ring with the size floored to whole blocks. */
    constructor InitShm(address: nat, blockSize: nat, totalSize: nat)
      requires blockSize > 0 && totalSize >= OVERHEAD && address + totalSize < U32
      ensures fresh(data) && Valid(State())
      ensures State() == Fresh(address, DataSize(totalSize, blockSize))
    {
      var bufSize := DataSize(totalSize, blockSize) + OVERHEAD;
      var dataAddr, dataSize := address + OVERHEAD, bufSize - OVERHEAD;
      header := MAGIC;
      readAddr, writeAddr, startAddr, endAddr := dataAddr, dataAddr, dataAddr, dataAddr + dataSize;
      readErrCnt, readErrorEmpty, writeErrorFull := 0, 0, 0;
      totalBufSize := dataSize;
      data := new Byte[dataSize](_ => 0);
    }

    method ShmRead(len: nat) returns (out: ReadResult)
      requires Valid(State()) && !WildRead(State(), len)
      modifies this
      ensures Valid(State()) && (State(), out) == Read(old(State()), len)
    {
      var avail := if writeAddr >= readAddr then writeAddr - readAddr
                   else (totalBufSize - readAddr - writeAddr) % U32;
      if header == MAGIC && avail >= len {
        if (readAddr + len) % U32 <= endAddr {
          out := Data(data[readAddr - startAddr..readAddr - startAddr + len]);
          readAddr := readAddr + len;
          if readAddr == endAddr {
            readAddr := startAddr;
          }
        } else {
          readErrorEmpty := readErrorEmpty + 1;
          out := Split;
        }
      } else {
        readErrCnt := readErrCnt + 1;
        out := NoData;
      }
    }

    /** The copy of a write, byte by byte. */
    method CopyIn(off: nat, block: seq<Byte>)
      requires off + |block| <= data.Length
      modifies data
      ensures data[..] == Put(old(data[..]), off, block)
    {
      var i := 0;
      assert Put(data[..], off, block[..0]) == data[..];
      while i < |block|
        invariant 0 <= i <= |block|
        invariant data[..] == Put(old(data[..]), off, block[..i])
      {
        PutSnoc(old(data[..]), off, block, i);
        data[off + i] := block[i];
        i := i + 1;
      }
      assert block[..i] == block;
    }

    method ShmWrite(block: seq<Byte>)
      requires Valid(State()) && !WildWrite(State(), |block|)
      modifies this, data
      ensures Valid(State()) && State() == Write(old(State()), block)
    {
      if header == MAGIC {
        if (writeAddr + |block|) % U32 <= endAddr {
          CopyIn(writeAddr - startAddr, block);
          writeAddr := writeAddr + |block|;
          if writeAddr == endAddr {
            writeAddr := startAddr;
          }
        } else {
          writeErrorFull := writeErrorFull + 1;
        }
      }
    }
  }
}
