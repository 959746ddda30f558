/**
 * The open file object of hash_check (`open(path, 'rb')`) and `file_read`
 * (hash.py:416-427): each read returns the next `min(size, remaining)` bytes,
 * or raises OSError on the read the fault is placed at.
 */
module Reader {
  import opened Wrappers

  datatype ReadResult = Data(bytes: seq<bv8>) | ReadError

  class FileHandle {
    /** The bytes of the file as the open handle sees them. */
    const contents: seq<bv8>
    /** The number of reads that succeed before one raises OSError, if any does. */
    const faultAt: Option<nat>
    /** The file position. */
    var pos: nat
    /** The number of read calls made so far. */
    var readCount: nat

    ghost predicate Valid()
      reads this
    {
      pos <= |contents|
    }

    constructor Open(contents: seq<bv8>, faultAt: Option<nat>)
      ensures Valid()
      ensures this.contents == contents && this.faultAt == faultAt
      ensures pos == 0 && readCount == 0
    {
      this.contents := contents;
      this.faultAt := faultAt;
      pos := 0;
      readCount := 0;
    }

    /** `file_handle.read(size)`. */
    method Read(size: nat) returns (r: ReadResult)
      requires Valid()
      modifies this
      ensures Valid()
      ensures readCount == old(readCount) + 1
      ensures old(faultAt == Some(readCount)) ==> r == ReadError && pos == old(pos)
      ensures old(faultAt != Some(readCount)) ==>
        pos == (if old(pos) + size <= |contents| then old(pos) + size else |contents|)
        && r == Data(contents[old(pos)..pos])
    {
      if faultAt == Some(readCount) {
        r := ReadError;
      } else {
        var next := if pos + size <= |contents| then pos + size else |contents|;
        r := Data(contents[pos..next]);
        pos := next;
      }
      readCount := readCount + 1;
    }
  }
}
