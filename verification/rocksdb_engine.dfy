/** The per-context bookkeeping the storage engine keeps for batched
    writes (ContextHolder), and the engine's configuration defaults.
    The write batch itself belongs to the storage library: here it is the
    sequence of operations queued in it. */
module RocksDBEngine {
  import opened BufferHelper

  /** An operation queued in a write batch. */
  datatype BatchOp = PutOp(key: Blob, value: Blob) | DelOp(key: Blob)

  /** The reference count after `ref++` on a 32-bit unsigned counter. */
  function AddedRef(ref: uint32): (r: uint32)
    ensures ref < UINT32_LIMIT - 1 ==> r == ref + 1
    ensures ref == UINT32_LIMIT - 1 ==> r == 0
  {
    (ref + 1) % UINT32_LIMIT
  }

  /** The reference count after ReleaseRef: one less, but never below zero. */
  function ReleasedRef(ref: uint32): (r: uint32)
    ensures r <= ref
    ensures ref > 0 ==> r == ref - 1
    ensures ref == 0 ==> r == 0
  {
    if ref > 0 then ref - 1 else 0
  }

  /** Releasing a reference undoes adding one, unless the counter wrapped. */
  lemma ReleaseUndoesAdd(ref: uint32)
    requires ref < UINT32_LIMIT - 1
    ensures ReleasedRef(AddedRef(ref)) == ref
  {
  }

  /** At the top of its range the counter wraps to zero, so the release
      that follows does not bring it back. */
  lemma AddRefWraps(ref: uint32)
    requires ref == UINT32_LIMIT - 1
    ensures AddedRef(ref) == 0 && ReleasedRef(AddedRef(ref)) == 0
  {
  }

  function AddRefs(ref: uint32, n: nat): uint32 {
    if n == 0 then ref else AddedRef(AddRefs(ref, n - 1))
  }

  function ReleaseRefs(ref: uint32, n: nat): uint32 {
    if n == 0 then ref else ReleasedRef(ReleaseRefs(ref, n - 1))
  }

  /** n references taken and n released, in that order, leave the count
      where it was, as long as it never wraps. */
  lemma {:induction false} BalancedRefs(ref: uint32, n: nat)
    requires ref + n < UINT32_LIMIT
    ensures AddRefs(ref, n) == ref + n
    ensures ReleaseRefs(ref + n, n) == ref
  {
    if n > 0 {
      BalancedRefs(ref, n - 1);
      ReleaseRefsShift(ref + n, n - 1);
    }
  }

  /** Releasing from the top one step first or last gives the same count. */
  lemma {:induction false} ReleaseRefsShift(ref: uint32, n: nat)
    ensures ReleaseRefs(ReleasedRef(ref), n) == ReleasedRef(ReleaseRefs(ref, n))
  {
    if n > 0 {
      ReleaseRefsShift(ref, n - 1);
    }
  }

  /** More releases than references never underflow: the count stops at zero. */
  lemma {:induction false} ReleaseRefsFloor(ref: uint32, n: nat)
    requires n >= ref
    ensures ReleaseRefs(ref, n) == 0
  {
    if n > 0 {
      if ref > 0 {
        ReleaseRefsShift(ref, n - 1);
        ReleaseRefsFloor(ref - 1, n - 1);
      } else {
        ReleaseRefsFloor(0, n - 1);
      }
    }
  }

  /** RocksDBEngine::ContextHolder. The snapshot is a handle owned by the
      storage library; None stands for the null pointer. */
  class ContextHolder {
    var batch: seq<BatchOp>
    var ref: uint32
    var count: uint32
    var snapshot: Option<nat>
    var snapshotRef: uint32

    /** No references, no operations counted, no snapshot. */
    constructor ()
      ensures batch == [] && ref == 0 && count == 0 && snapshot == None && snapshotRef == 0
    {
      batch := [];
      ref := 0;
      count := 0;
      snapshot := None;
      snapshotRef := 0;
    }

    method ReleaseRef()
      modifies this
      ensures ref == ReleasedRef(old(ref))
      ensures batch == old(batch) && count == old(count) && snapshot == old(snapshot) && snapshotRef == old(snapshotRef)
    {
      if ref > 0 {
        ref := ref - 1;
      }
    }

    method AddRef()
      modifies this
      ensures ref == AddedRef(old(ref))
      ensures batch == old(batch) && count == old(count) && snapshot == old(snapshot) && snapshotRef == old(snapshotRef)
    {
      ref := (ref + 1) % UINT32_LIMIT;
    }

    /** True exactly when no reference is held. */
    function EmptyRef(): (r: bool)
      reads this
      ensures r <==> ref == 0
    {
      ref == 0
    }

    /** Drops the queued operations and their count; references and the
        snapshot stay. */
    method Clear()
      modifies this
      ensures batch == [] && count == 0
      ensures ref == old(ref) && snapshot == old(snapshot) && snapshotRef == old(snapshotRef)
    {
      batch := [];
      count := 0;
    }
  }

  /** RocksDBConfig. */
  datatype RocksDBConfig = RocksDBConfig(
    path: string,
    blockCacheSize: int64,
    blockCacheCompressedSize: int64,
    writeBufferSize: int64,
    maxOpenFiles: int64,
    blockSize: int64,
    blockRestartInterval: int64,
    bloomBits: int64,
    batchCommitWatermark: int64,
    compression: string)

  /** The defaults of a configuration nobody has set: 10240 open files,
      10 bloom-filter bits per key, a batch committed every 1024 writes,
      snappy compression, every size left to the library (0). */
  function DefaultRocksDBConfig(): (c: RocksDBConfig)
    ensures c.maxOpenFiles == 10240 && c.bloomBits == 10 && c.batchCommitWatermark == 1024
    ensures c.compression == "snappy" && c.path == ""
    ensures c.blockCacheSize == 0 && c.blockCacheCompressedSize == 0 && c.writeBufferSize == 0
    ensures c.blockSize == 0 && c.blockRestartInterval == 0
  {
    RocksDBConfig("", 0, 0, 0, 10240, 0, 0, 10, 1024, "snappy")
  }
}
