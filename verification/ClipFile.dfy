/** The clip writer: a `.part` file behind two buffers, renamed when it is complete. */
module ClipFile {
  import opened Prelude

  /** Where clips are written.  Every operation may fail. */
  class Storage {
    /** How many operations have failed. */
    ghost var failures: nat

    constructor ()
      ensures failures == 0
    {
      failures := 0;
    }

    /** Since `before`, no operation has failed, or exactly one has. */
    ghost predicate Counts(ok: bool, before: nat)
      reads this
    {
      failures == if ok then before else before + 1
    }

    /** Failures are never forgotten, and without a new one there is no error. */
    ghost predicate NoWorse(ok: bool, before: nat)
      reads this
    {
      before <= failures && (failures == before ==> ok)
    }

    method Operate() returns (ok: bool)
      modifies this
      ensures Counts(ok, old(failures))
    {
      ok := *;
      failures := if ok then failures else failures + 1;
    }
  }

  /** The writer's own pending bytes, and a `BufWriter` that passes on what it likes. */
  class ClipWriter {
    const storage: Storage
    const maxPendingBytes: nat
    var file: Bytes
    var buffered: Bytes
    var pending: Bytes
    var writtenBytes: nat
    ghost var given: Bytes

    /** No byte is lost, doubled or reordered, and little of it is held back. */
    ghost predicate Intact()
      reads this
    {
      && file + buffered + pending == given
      && writtenBytes == |file| + |buffered|
      && |pending| < maxPendingBytes
    }

    constructor (storage: Storage, maxPendingBytes: nat)
      ensures Intact() && given == [] && this.storage == storage
      ensures this.maxPendingBytes == Max(maxPendingBytes, 16 * 1024)
    {
      this.storage := storage;
      this.maxPendingBytes := Max(maxPendingBytes, 16 * 1024);
      file, buffered, pending, writtenBytes, given := [], [], [], 0, [];
    }

    static method Create(storage: Storage, maxPendingBytes: nat) returns (w: ClipWriter?)
      modifies storage
      ensures storage.Counts(w != null, old(storage.failures))
      ensures w != null ==> fresh(w) && w.storage == storage && w.Intact() && w.given == []
      ensures w != null ==> w.maxPendingBytes == Max(maxPendingBytes, 16 * 1024)
    {
      var created := storage.Operate();
      if !created {
        return null;
      }
      w := new ClipWriter(storage, maxPendingBytes);
    }

    /** A failed write keeps the unit pending, so that a second attempt gives it again. */
    method WriteNal(nal: Bytes) returns (ok: bool)
      modifies this, storage
      ensures storage.Counts(ok, old(storage.failures))
      ensures old(file) <= file && given == old(given) + nal
      ensures ok && old(Intact()) ==> Intact()
      ensures !ok ==> pending == old(pending) + nal && |pending| >= maxPendingBytes
      ensures ok && |old(pending) + nal| >= maxPendingBytes ==>
        pending == [] && EndsWith(file + buffered, old(pending) + nal)
    {
      given := given + nal;
      pending := pending + nal;
      ok := true;
      if |pending| >= maxPendingBytes {
        ghost var head := file + buffered;
        ghost var all := pending;
        ok := FlushPending(false);
        if ok {
          assert file + buffered == head + all;
        }
      }
    }

    method FlushPending(doFlush: bool) returns (ok: bool)
      modifies this, storage
      ensures storage.Counts(ok, old(storage.failures))
      ensures given == old(given) && old(file) <= file
      ensures ok ==> pending == [] && file + buffered == old(file + buffered + pending)
      ensures ok ==> writtenBytes == old(writtenBytes + |pending|)
      ensures ok && doFlush ==> buffered == []
      ensures !ok && !doFlush ==> pending == old(pending)
    {
      ok := true;
      if pending != [] {
        var all := buffered + pending;
        var k: nat :| k <= |all|;
        file := file + all[..k];
        buffered := all[k..];
        ok := storage.Operate();
        if !ok {
          return;
        }
        writtenBytes := writtenBytes + |pending|;
        pending := [];
      }
      if doFlush {
        ok := storage.Operate();
        if ok {
          file := file + buffered;
          buffered := [];
        }
      }
    }

    function TotalBytes(): (n: nat)
      reads this
      ensures Intact() ==> n == |given|
    {
      writtenBytes + |pending|
    }

    /** Flush, then rename: the final file holds everything given. */
    method Finalize() returns (ok: bool, final: Bytes)
      modifies this, storage
      ensures storage.Counts(ok, old(storage.failures))
      ensures ok && old(Intact()) ==> final == old(given)
    {
      ok := FlushPending(true);
      final := file;
      if ok {
        ok := storage.Operate();
      }
    }
  }

  ghost predicate EndsWith(whole: Bytes, end: Bytes) {
    |end| <= |whole| && whole[|whole| - |end|..] == end
  }

  /** Some copies, one after the other. */
  function Copies(nal: Bytes, n: nat): (c: Bytes)
    ensures |c| == n * |nal|
  {
    if n == 0 then [] else Copies(nal, n - 1) + nal
  }

  lemma NoCopies(nal: Bytes)
    ensures Copies(nal, 0) == []
  {
  }

  lemma OneCopy(nal: Bytes)
    ensures Copies(nal, 1) == nal
  {
    assert Copies(nal, 0) == [];
  }

  lemma OneMoreCopy(now: Bytes, before: Bytes, nal: Bytes, n: nat)
    requires now == before + Copies(nal, n)
    ensures now + nal == before + Copies(nal, n + 1)
  {
    assert Copies(nal, n + 1) == Copies(nal, n) + nal;
    assert before + (Copies(nal, n) + nal) == before + Copies(nal, n) + nal;
  }

  lemma CopiesDiffer(before: Bytes, nal: Bytes, n: nat)
    requires 1 <= n
    ensures nal != [] ==> (before + Copies(nal, n) == before + nal <==> n == 1)
  {
    OneCopy(nal);
    if nal != [] && n > 1 {
      assert n * |nal| > |nal|;
      assert |before + Copies(nal, n)| != |before + nal|;
    }
  }
}
