/** The stream writer of the flash copy (internal/storage/writer.go), over a file whose operations may fail. */
module Writer {
  import opened Bytes

  const BUF_SIZE: nat := 256 * 1024
  const SYNC_THRESHOLD: nat := 1024 * 1024

  /** What the operating system does with an operation. A failing write may still write a part. */
  datatype Outcome = Works | Fails(written: nat)

  class File {
    var outcomes: seq<Outcome>
    var contents: seq<byte>
    var synced: nat               // the first bytes of the contents that survive a power cut
    var open: bool
    var present: bool

    constructor (outcomes: seq<Outcome>)
      ensures this.outcomes == outcomes && contents == [] && synced == 0 && open && present
    {
      this.outcomes, contents, synced, open, present := outcomes, [], 0, true, true;
    }

    /** Nothing fails from here on. */
    ghost predicate Healthy()
      reads this
    {
      open && NoneFails()
    }

    ghost predicate NoneFails()
      reads this
    {
      forall o <- outcomes :: o.Works?
    }

    method NextOutcome() returns (o: Outcome)
      modifies this`outcomes
      ensures old(Healthy()) ==> o.Works? && Healthy()
      ensures old(NoneFails()) ==> NoneFails()
    {
      o := if outcomes == [] then Works else outcomes[0];
      outcomes := if outcomes == [] then [] else outcomes[1..];
      if !open {
        o := Fails(0);
      }
    }

    method Write(data: seq<byte>) returns (n: nat, ok: bool)
      modifies this`outcomes, this`contents
      ensures n <= |data| && (ok ==> n == |data|) && (old(Healthy()) ==> ok && Healthy())
      ensures contents == old(contents) + data[..n]
    {
      var o := NextOutcome();
      ok := o.Works?;
      n := if ok || o.written > |data| then |data| else o.written;
      contents := contents + data[..n];
    }

    method Sync() returns (ok: bool)
      modifies this`outcomes, this`synced
      ensures synced == (if ok then |contents| else old(synced)) && (old(Healthy()) ==> ok && Healthy())
    {
      var o := NextOutcome();
      ok := o.Works?;
      if ok {
        synced := |contents|;
      }
    }

    method Close() returns (ok: bool)
      modifies this`outcomes, this`open
      ensures !open && (old(Healthy()) ==> ok) && (old(NoneFails()) ==> NoneFails())
    {
      var o := NextOutcome();
      ok := o.Works?;
      open := false;
    }

    /** Removing a file does not need it open. */
    method Remove() returns (ok: bool)
      modifies this`outcomes, this`present
      ensures present == (old(present) && !ok) && (old(NoneFails()) ==> ok)
    {
      ok := outcomes == [] || outcomes[0].Works?;
      outcomes := if outcomes == [] then [] else outcomes[1..];
      if ok {
        present := false;
      }
    }
  }

  /** bufio.Writer: an error is kept and returned by every later operation. */
  class Buffer {
    const file: File
    var buffered: seq<byte>
    var failed: bool

    ghost predicate Healthy()
      reads this, file
    {
      !failed && file.Healthy()
    }

    constructor (file: File)
      ensures this.file == file && buffered == [] && !failed
    {
      this.file, buffered, failed := file, [], false;
    }

    /** Whatever happens, no byte is lost between buffer and file. */
    method Flush() returns (ok: bool)
      modifies this, file`outcomes, file`contents
      ensures ok == !failed && (old(Healthy()) ==> Healthy())
      ensures file.contents + buffered == old(file.contents + buffered) && old(|file.contents|) <= |file.contents|
      ensures |buffered| <= old(|buffered|) && (ok ==> buffered == [])
    {
      if failed {
        return false;
      }
      if buffered == [] {
        return true;
      }
      var n;
      n, ok := file.Write(buffered);
      SplitAt(old(file.contents), buffered, n);
      buffered := buffered[n..];
      failed := !ok;
    }

    /** The first n bytes are accepted, all of them unless there is an error. */
    method Write(p: seq<byte>) returns (n: nat, ok: bool)
      requires |buffered| <= BUF_SIZE
      modifies this, file`outcomes, file`contents
      ensures n <= |p| && ok == !failed && (ok ==> n == |p|) && (old(Healthy()) ==> Healthy())
      ensures file.contents + buffered == old(file.contents + buffered) + p[..n]
      ensures old(|file.contents|) <= |file.contents|
      ensures |buffered| <= BUF_SIZE
    {
      n := 0;
      ghost var before := file.contents + buffered;
      while |p| - n > BUF_SIZE - |buffered| && !failed
        invariant n <= |p| && |buffered| <= BUF_SIZE && (old(Healthy()) ==> Healthy())
        invariant file.contents + buffered == before + p[..n] && old(|file.contents|) <= |file.contents|
        decreases |p| - n, |buffered|, if failed then 0 else 1
      {
        var k: nat;
        if buffered == [] {
          k := WriteDirectly(p[n..]);
        } else {
          k := Fill(p[n..]);
        }
        Extend(before, p, n, k);
        n := n + k;
      }
      if failed {
        return n, false;
      }
      Extend(before, p, n, |p| - n);
      Join3(file.contents, buffered, p[n..]);
      buffered := buffered + p[n..];
      return |p|, true;
    }

    /** A large write passes an empty buffer by. */
    method WriteDirectly(p: seq<byte>) returns (n: nat)
      requires buffered == [] && !failed
      modifies this`failed, file`outcomes, file`contents
      ensures n <= |p| && (!failed ==> n == |p|) && (old(Healthy()) ==> Healthy())
      ensures file.contents == old(file.contents) + p[..n]
    {
      var ok;
      n, ok := file.Write(p);
      failed := !ok;
    }

    /** Fills the buffer and flushes it. */
    method Fill(p: seq<byte>) returns (n: nat)
      requires 0 < |buffered| <= BUF_SIZE && BUF_SIZE - |buffered| < |p| && !failed
      modifies this, file`outcomes, file`contents
      ensures n == BUF_SIZE - old(|buffered|) && |buffered| <= BUF_SIZE && (!failed ==> buffered == [])
      ensures old(Healthy()) ==> Healthy()
      ensures file.contents + buffered == old(file.contents + buffered) + p[..n]
      ensures old(|file.contents|) <= |file.contents|
    {
      n := BUF_SIZE - |buffered|;
      Join3(file.contents, buffered, p[..n]);
      buffered := buffered + p[..n];
      var ok := Flush();
    }
  }

  lemma SplitAt<T>(a: seq<T>, b: seq<T>, n: nat)
    requires n <= |b|
    ensures (a + b[..n]) + b[n..] == a + b
  {
  }

  lemma Join3<T>(a: seq<T>, b: seq<T>, c: seq<T>)
    ensures a + (b + c) == a + b + c
  {
  }

  lemma Extend<T>(a: seq<T>, p: seq<T>, n: nat, k: nat)
    requires n + k <= |p|
    ensures (a + p[..n]) + p[n..][..k] == a + p[..n + k]
    ensures p[n..][..|p| - n] == p[n..]
    ensures p[..|p|] == p
  {
  }

  class StreamWriter {
    const file: File
    const buf: Buffer
    var hashed: seq<byte>         // what the running hash has seen
    var bytesWritten: nat
    var lastSyncOffset: nat

    /** File and buffer together hold what was hashed, every byte is counted, and what was synced survives. */
    ghost predicate Valid()
      reads this, file, buf
    {
      && buf.file == file && |buf.buffered| <= BUF_SIZE
      && file.contents + buf.buffered == hashed
      && bytesWritten == |hashed|
      && lastSyncOffset <= file.synced <= |file.contents|
    }

    lemma EveryByteCounts()
      requires Valid()
      ensures bytesWritten == |hashed|
    {
    }

    constructor (file: File)
      requires file.contents == [] && file.synced == 0
      ensures Valid() && this.file == file && fresh(buf) && hashed == [] && !buf.failed
    {
      this.file := file;
      this.buf := new Buffer(file);
      hashed := [];
      bytesWritten, lastSyncOffset := 0, 0;
    }

    /** Whatever fails, the bytes taken are hashed, counted and kept in order; after a successful write fewer
        than a megabyte can be lost to a power cut. */
    method Write(data: seq<byte>) returns (n: nat, ok: bool)
      requires Valid()
      modifies this, file, buf
      ensures Valid() && file.present == old(file.present) && (old(buf.Healthy()) ==> ok && buf.Healthy())
      ensures n <= |data| && (ok ==> n == |data|) && hashed == old(hashed) + data[..n]
      ensures ok && data != [] ==> |hashed| - file.synced < 0x10_0000
    {
      n, ok := buf.Write(data);
      if n > 0 {
        hashed := hashed + data[..n];
        bytesWritten := bytesWritten + n;
        if bytesWritten - lastSyncOffset >= SYNC_THRESHOLD {
          var flushed := buf.Flush();
          if !flushed {
            return n, false;
          }
          var synced := file.Sync();
          if !synced {
            return n, false;
          }
          lastSyncOffset := bytesWritten;
        }
      }
    }

    /** After success the whole of what was hashed is in the file and survives a power cut. */
    method Close() returns (ok: bool)
      requires Valid()
      modifies this, file, buf
      ensures Valid() && hashed == old(hashed) && file.present == old(file.present) && (old(buf.Healthy()) ==> ok)
      ensures ok ==> file.contents == hashed && file.synced == |hashed|
      ensures !file.open
    {
      ok := buf.Flush();
      if !ok {
        var _ := file.Close();
        return false;
      }
      ok := file.Sync();
      if !ok {
        var _ := file.Close();
        return false;
      }
      ok := file.Close();
    }

    /** Closes and removes the partial file. */
    method Abort() returns (ok: bool)
      requires Valid()
      modifies file
      ensures Valid() && file.contents == old(file.contents) && !file.open
      ensures file.present == (old(file.present) && !ok) && (old(file.NoneFails()) ==> ok)
    {
      var _ := file.Close();
      ok := file.Remove();
    }

    /** Compares the hash of the file, re-read, with the running hash. reading is what the disk returns, if it
        can be read at all. */
    method VerifyAgainstFile<D(==)>(hash: seq<byte> -> D, reading: Option<seq<byte>>) returns (same: Option<bool>)
      ensures same.Some? ==> file.present && reading.Some? && same.value == (hash(reading.value) == hash(hashed))
      ensures file.present && reading.Some? ==> same.Some?
    {
      if !file.present || reading.None? {
        return None;
      }
      same := Some(hash(reading.value) == hash(hashed));
    }
  }
}
