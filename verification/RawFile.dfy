/** The bottom layer: a file on disk reached through pread, pwrite and ftruncate. */
module RawFiles {
  import opened Bytes

  class RawFile {
    /** A healthy disk never fails a system call; an unhealthy one may fail any of them. */
    const healthy: bool
    /** Opened for reading only: a write fails an assertion. */
    const readOnly: bool
    var bytes: seq<Byte>
    var knownSize: bool
    var fileSize: nat

    ghost predicate Valid()
      reads this
    {
      (knownSize ==> fileSize == |bytes|) && (healthy ==> !readOnly)
    }

    constructor (healthy: bool, readOnly: bool, bytes: seq<Byte>)
      requires healthy ==> !readOnly
      ensures Valid() && this.healthy == healthy && this.readOnly == readOnly && this.bytes == bytes
    {
      this.healthy, this.readOnly, this.bytes := healthy, readOnly, bytes;
      knownSize, fileSize := false, 0;
    }

    /** Does the environment let the next system call through? */
    method Permitted() returns (ok: bool)
      ensures healthy ==> ok
    {
      ok := *;
      if healthy {
        ok := true;
      }
    }

    /** lstat on first use, then the size kept by Write and Truncate. */
    method GetSize() returns (size: nat)
      requires Valid()
      modifies this`knownSize, this`fileSize
      ensures Valid() && size == |bytes|
    {
      if !knownSize {
        fileSize := |bytes|;
        knownSize := true;
      }
      return fileSize;
    }

    method Read(off: nat, len: nat) returns (r: Outcome<seq<Byte>>)
      ensures healthy ==> r.Ok?
      ensures r.Ok? ==> r.value == Slice(bytes, off, len)
    {
      var ok := Permitted();
      r := if ok then Ok(Slice(bytes, off, len)) else Err;
    }

    /** One pwrite: some prefix of the data reaches the file. Only the first of a request may write nothing. */
    method Pwrite(off: nat, data: seq<Byte>, first: bool) returns (r: Outcome<nat>)
      requires data != []
      modifies this`bytes
      ensures healthy ==> r.Ok? && 0 < r.value
      ensures r.Ok? ==> r.value <= |data| && (first || 0 < r.value)
      ensures r.Ok? && 0 < r.value ==> bytes == Splice(old(bytes), off, data[..r.value])
      ensures r.Err? || r.value == 0 ==> bytes == old(bytes)
    {
      var ok := Permitted();
      if !ok {
        return Err;
      }
      ok := Permitted();
      if first && !ok {
        return Ok(0);
      }
      var n :| 0 < n <= |data|;
      bytes := Splice(bytes, off, data[..n]);
      r := Ok(n);
    }

    /**
     * Repeats pwrite until everything is written. On failure a prefix `n` may have reached the
     * file; then the known size is dropped. A pwrite that writes nothing fails and keeps the size.
     */
    method Write(off: nat, data: seq<Byte>) returns (r: Outcome<()>, ghost n: nat)
      requires Valid() && data != []
      modifies this
      ensures Valid()
      ensures healthy ==> r.Ok?
      ensures n <= |data| && bytes == Splice(old(bytes), off, data[..n])
      ensures r.Ok? ==> bytes == Splice(old(bytes), off, data)
      ensures r.Err? ==> n < |data|
      ensures readOnly ==> r.Err? && n == 0
    {
      hide Splice;
      var done := 0;
      SpliceNothing(bytes, off);
      if readOnly {
        return Err, 0;
      }
      while done < |data|
        invariant done <= |data|
        invariant bytes == Splice(old(bytes), off, data[..done])
        invariant knownSize == old(knownSize) && fileSize == old(fileSize)
      {
        var w := Pwrite(off + done, data[done..], done == 0);
        if w.Err? {
          knownSize := false;
          return Err, done;
        }
        if w.value == 0 {
          return Err, done;
        }
        assert data[done..][..w.value] == data[done..done + w.value];
        SpliceMore(old(bytes), off, data, done, done + w.value);
        done := done + w.value;
      }
      assert data[..done] == data;
      SpliceAt(old(bytes), off, data, 0);
      if knownSize {
        var last := off + |data|;
        if last > fileSize {
          fileSize := last;
        }
      }
      return Ok(()), |data|;
    }

    method Truncate(size: nat) returns (r: Outcome<()>)
      requires Valid()
      modifies this
      ensures Valid()
      ensures healthy ==> r.Ok?
      ensures bytes == if r.Ok? then Resize(old(bytes), size) else old(bytes)
    {
      var ok := Permitted();
      if !ok {
        knownSize := false;
        return Err;
      }
      bytes := Resize(bytes, size);
      fileSize := size;
      knownSize := true;
      return Ok(());
    }
  }
}
