/** The buffered writer: a ring buffer in front of a descriptor that may write partly, ask to retry, or fail. */
module BufferedWriter {
  import opened Common
  import opened Bytes
  import opened RingBuffer

  /** What one `write` call on the descriptor does. */
  datatype Outcome = Takes(n: nat) | Again | Fails

  /** A descriptor that follows `script`, and after it takes whatever it is given. */
  class Device {
    var script: seq<Outcome>
    var delivered: Bytes

    constructor (script: seq<Outcome>)
      ensures this.script == script && delivered == []
    {
      this.script, delivered := script, [];
    }

    /** The call takes a prefix of `buf`; -1 stands for an error. */
    method Write(buf: Bytes) returns (n: int, again: bool)
      modifies this
      ensures -1 <= n <= |buf|
      ensures delivered == old(delivered) + if n > 0 then buf[..n] else []
      ensures n <= 0 && buf != [] ==> |script| < |old(script)|
      ensures |script| <= |old(script)|
    {
      again := false;
      if script == [] {
        n := |buf|;
      } else {
        match script[0] {
          case Takes(k) => n := Min(k, |buf|);
          case Again => n, again := -1, true;
          case Fails => n := -1;
        }
        script := script[1..];
      }
      if n > 0 {
        delivered := delivered + buf[..n];
      }
    }
  }

  class BufferedWriter {
    var fd: int
    const ring: RingBuffer
    const device: Device
    ghost var accepted: Bytes  // every byte taken from callers since construction

    /** Delivered bytes followed by buffered bytes are the accepted bytes, in order. */
    ghost predicate Valid()
      reads this, ring, ring.buffer, device
    {
      && ring.Valid()
      && device.delivered + ring.Contents() == accepted
    }

    constructor (fd: int, size: nat, device: Device)
      requires device.delivered == []
      ensures Valid() && accepted == [] && this.fd == fd && this.device == device
      ensures fresh(ring) && fresh(ring.buffer) && ring.buffer.Length == size
    {
      this.fd, this.device := fd, device;
      ring := new RingBuffer(size);
      accepted := [];
    }

    /** One run of the ring handed to the descriptor until it takes something or fails for good. */
    method WriteFront() returns (rc: RC, written: nat)
      requires Valid() && ring.dataSize > 0
      modifies ring`dataSize, device
      ensures Valid() && written + ring.dataSize == old(ring.dataSize)
      ensures rc == SUCCESS <==> written > 0
      ensures rc == SUCCESS || rc == IOERR_WRITE
      ensures |device.script| <= |old(device.script)|
    {
      hide RingBuffer.Contents;
      var pos, len := ring.Front();
      var buf := ring.buffer[pos..pos + len];
      ghost var before := ring.Contents();
      var n := 0;
      while n == 0
        invariant 0 <= n <= len && ring.dataSize == old(ring.dataSize)
        invariant ring.Valid() && ring.Contents() == before
        invariant device.delivered == old(device.delivered) + buf[..n]
        invariant |device.script| <= |old(device.script)|
        decreases n == 0, |device.script|
      {
        var again;
        n, again := device.Write(buf);
        if n < 0 {
          if again {
            n := 0;
          } else {
            return IOERR_WRITE, 0;
          }
        }
      }
      var rc' := ring.Forward(n);
      Conserved(old(device.delivered), before, n);
      assert buf[..n] == before[..n];
      return SUCCESS, n;
    }

    static lemma Conserved(delivered: Bytes, contents: Bytes, n: nat)
      requires n <= |contents|
      ensures (delivered + contents[..n]) + contents[n..] == delivered + contents
    {
    }

    /** Hands over buffered bytes until at least `size` were taken, the ring is empty, or the descriptor fails. */
    method FlushInternal(size: int) returns (rc: RC)
      requires Valid()
      modifies ring`dataSize, device
      ensures rc == SUCCESS || rc == INVALID_ARGUMENT || rc == IOERR_WRITE
      ensures Valid() && ring.dataSize <= old(ring.dataSize)
      ensures rc == INVALID_ARGUMENT <==> fd < 0
      ensures rc == SUCCESS ==> ring.dataSize == 0 || old(ring.dataSize) - ring.dataSize >= size
      ensures fd >= 0 && old(ring.dataSize) == 0 ==> rc == SUCCESS
    {
      hide RingBuffer.Contents;
      if fd < 0 {
        return INVALID_ARGUMENT;
      }
      rc := SUCCESS;
      var writeSize := 0;
      while rc == SUCCESS && ring.dataSize > 0 && size > writeSize
        invariant Valid() && writeSize + ring.dataSize == old(ring.dataSize) && rc == SUCCESS
        decreases ring.dataSize
      {
        var written;
        rc, written := WriteFront();
        if rc != SUCCESS {
          return;
        }
        writeSize := writeSize + written;
      }
    }

    /** Accepts a prefix of the first `size` bytes of `data`. */
    method Write(data: Bytes, size: int) returns (rc: RC, writeSize: nat)
      requires Valid() && size <= |data|
      modifies this`accepted, ring, ring.buffer, device
      ensures rc == SUCCESS || rc == INVALID_ARGUMENT || rc == IOERR_WRITE
      ensures Valid()
      ensures writeSize <= |data| && accepted == old(accepted) + data[..writeSize]
      ensures rc != SUCCESS ==> writeSize == 0
      ensures rc == INVALID_ARGUMENT <==> fd < 0 || (size < 0 && rc != IOERR_WRITE)
      ensures rc == SUCCESS ==> writeSize <= size
      ensures rc == SUCCESS && size > 0 ==> (writeSize > 0 <==> ring.buffer.Length > 0)
      ensures fd >= 0 && size >= 0 && ring.buffer.Length == 0 ==> rc == SUCCESS
    {
      hide RingBuffer.Contents;
      if fd < 0 {
        return INVALID_ARGUMENT, 0;
      }
      if ring.Remain() == 0 {
        rc := FlushInternal(size);
        if rc != SUCCESS {
          return rc, 0;
        }
      }
      ghost var before := ring.Contents();
      rc, writeSize := ring.Write(data, size);
      accepted := accepted + data[..writeSize];
      assert device.delivered + (before + data[..writeSize]) == (device.delivered + before) + data[..writeSize];
    }

    /** Accepts all of it, or a prefix when the descriptor fails. With no capacity a pass accepts nothing and
        leaves everything as it was, so the loop goes on forever. */
    method WriteN(data: Bytes, size: int) returns (rc: RC, forever: bool, ghost taken: nat)
      requires Valid() && size <= |data|
      modifies this`accepted, ring, ring.buffer, device
      ensures rc == SUCCESS || rc == INVALID_ARGUMENT || rc == IOERR_WRITE
      ensures Valid()
      ensures forever <==> fd >= 0 && size > 0 && ring.buffer.Length == 0
      ensures taken <= |data| && accepted == old(accepted) + data[..taken]
      ensures forever ==> taken == 0
      ensures !forever && rc == SUCCESS ==> fd >= 0 && taken == if size < 0 then 0 else size
      ensures rc == INVALID_ARGUMENT <==> fd < 0
      ensures rc != SUCCESS ==> taken < size || taken == 0
    {
      hide RingBuffer.Contents;
      if fd < 0 {
        return INVALID_ARGUMENT, false, 0;
      }
      var writeSize := 0;
      while writeSize < size
        invariant Valid() && 0 <= writeSize <= |data| && (writeSize <= size || writeSize == 0)
        invariant accepted == old(accepted) + data[..writeSize]
        invariant writeSize > 0 ==> ring.buffer.Length > 0
        decreases size - writeSize
      {
        var n;
        rc, n := Write(data[writeSize..], size - writeSize);
        assert data[..writeSize] + data[writeSize..][..n] == data[..writeSize + n];
        if rc != SUCCESS {
          return rc, false, writeSize;
        }
        if n == 0 {
          return rc, true, writeSize;
        }
        writeSize := writeSize + n;
      }
      return SUCCESS, false, writeSize;
    }

    /** Hands over everything, so that all accepted bytes are delivered. */
    method Flush() returns (rc: RC)
      requires Valid()
      modifies ring`dataSize, device
      ensures rc == SUCCESS || rc == INVALID_ARGUMENT || rc == IOERR_WRITE
      ensures Valid()
      ensures rc == INVALID_ARGUMENT <==> fd < 0
      ensures rc == SUCCESS ==> device.delivered == accepted && ring.dataSize == 0
    {
      hide RingBuffer.Contents;
      if fd < 0 {
        return INVALID_ARGUMENT;
      }
      rc := SUCCESS;
      while rc == SUCCESS && ring.dataSize > 0
        invariant Valid() && (rc == SUCCESS || rc == IOERR_WRITE)
        decreases rc == SUCCESS, ring.dataSize
      {
        rc := FlushInternal(ring.dataSize);
      }
    }

    /** A failed flush leaves the writer open. */
    method Close() returns (rc: RC)
      requires Valid()
      modifies this`fd, ring`dataSize, device
      ensures Valid()
      ensures rc == SUCCESS || rc == IOERR_WRITE
      ensures fd == if rc == SUCCESS && old(fd) >= 0 then -1 else old(fd)
      ensures rc == SUCCESS && old(fd) >= 0 ==> device.delivered == accepted
      ensures old(fd) < 0 ==> rc == SUCCESS && device.delivered == old(device.delivered)
    {
      if fd < 0 {
        return SUCCESS;
      }
      rc := Flush();
      if rc != SUCCESS {
        return rc;
      }
      fd := -1;
      return SUCCESS;
    }
  }
}
