/** The write-ahead log of one memtable (src/wal/mod.rs). Writes are whole; clock readings are
    parameters. */
module WriteAheadLog {
  import opened Bytes

  const DEFAULT_WAL_BUFFER_SIZE := 64_000
  const DEFAULT_WAL_BUFFER_FLUSH_TIME := 400

  class Wal {
    var file: Blob
    var buffer: Blob
    var lastFlush: nat

    constructor (now: nat)
      ensures file == [] && buffer == [] && lastFlush == now
    {
      file, buffer, lastFlush := [], [], now;
    }

    predicate NeedsFlush(now: nat)
      reads this
    {
      |buffer| >= DEFAULT_WAL_BUFFER_SIZE || now > lastFlush + DEFAULT_WAL_BUFFER_FLUSH_TIME
    }

    /** The buffer moves to the file only as a whole and before the new record joins it: when it
        holds 64,000 bytes or the last flush is more than 400 ms ago, and at no other time. So
        what a crash can lose stays below 64,000 bytes and one record. */
    method WriteLog(blob: Blob, now: nat, later: nat)
      modifies this
      ensures old(|buffer|) >= 64_000 || now > old(lastFlush) + 400 ==>
                file == old(file) + old(buffer) && buffer == blob && lastFlush == later
      ensures old(|buffer|) < 64_000 && now <= old(lastFlush) + 400 ==>
                file == old(file) && buffer == old(buffer) + blob && lastFlush == old(lastFlush)
      ensures |buffer| < 64_000 + |blob|
    {
      if NeedsFlush(now) {
        Flush(later);
      }
      buffer := buffer + blob;
    }

    method Flush(later: nat)
      modifies this
      ensures file == old(file) + old(buffer) && buffer == [] && lastFlush == later
    {
      file := file + buffer;
      buffer := [];
      lastFlush := later;
    }
  }
}
