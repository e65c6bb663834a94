/** The record stream `file_stream<T>` (file_stream/file_stream.hpp:9-39).

    The file is a sequence of fixed-size records; record `n` occupies the
    bytes `[n * S, (n + 1) * S)` for the record size `S`. The model keeps the
    records as a sequence, the record cursor `position` and the `is_open`
    flag; the bytes themselves, the path and the `fstream` are not modelled.
    Writing past the end of the file leaves a hole, which reads back as the
    record `gap` given when the stream is constructed. */
module FileStreams {
  import opened Wrappers
  import opened Arith

  datatype StreamError = EndOfStream | Closed | InvalidPosition

  /** First byte of record `n` (`move_position_in_bytes`, file_stream.hpp:37). */
  function ByteOffset(n: int, recordSize: int): int
  {
    n * recordSize
  }

  /** The record that byte `offset` belongs to. */
  function RecordAt(offset: int, recordSize: int): (r: int)
    requires offset >= 0 && recordSize > 0
    ensures r >= 0
  {
    offset / recordSize
  }

  /** Record `n + 1` starts where record `n` ends. */
  lemma RecordsAdjacent(n: int, recordSize: int)
    ensures ByteOffset(n + 1, recordSize) == ByteOffset(n, recordSize) + recordSize
  {
  }

  /** Every byte of record `n`'s range maps back to record `n`, so the byte
      ranges of two different records never overlap. */
  lemma {:induction false} RecordOfEveryByte(n: int, recordSize: int, offset: int)
    requires n >= 0 && recordSize > 0
    requires ByteOffset(n, recordSize) <= offset < ByteOffset(n, recordSize) + recordSize
    ensures RecordAt(offset, recordSize) == n
  {
    var d := offset - n * recordSize;
    assert offset == n * recordSize + d && 0 <= d < recordSize;
    DivModUnique(offset, n, d, recordSize);
  }

  /** The records after writing `x` as record `p`: record `p` is replaced
      when it exists; otherwise the file grows to `p + 1` records, with a
      `gap` record in every hole. */
  function WriteAt<T>(records: seq<T>, p: int, x: T, gap: T): (r: seq<T>)
    requires p >= 0
    ensures |r| == if p < |records| then |records| else p + 1
    ensures r[p] == x
    ensures forall i :: 0 <= i < |records| && i != p ==> r[i] == records[i]
    ensures forall i :: |records| <= i < p ==> r[i] == gap
  {
    if p < |records| then records[p := x]
    else records + seq(p - |records|, _ => gap) + [x]
  }

  /** The records after writing `items` one by one from record 0: the items,
      followed by whatever the file held beyond them. */
  function Overwrite<T>(records: seq<T>, items: seq<T>): (r: seq<T>)
    ensures |r| == if |items| < |records| then |records| else |items|
    ensures r[..|items|] == items
    ensures forall i :: |items| <= i < |records| ==> r[i] == records[i]
  {
    if |items| < |records| then items + records[|items|..] else items
  }

  /** Writing the items is the same as writing them over a file that
      already holds the first `k` of them: the shape of the write loop. */
  lemma {:induction false} OverwriteStep<T>(records: seq<T>, items: seq<T>, k: int, gap: T)
    requires 0 <= k < |items|
    ensures WriteAt(Overwrite(records, items[..k]), k, items[k], gap) == Overwrite(records, items[..k + 1])
  {
    var before := Overwrite(records, items[..k]);
    var after := WriteAt(before, k, items[k], gap);
    var want := Overwrite(records, items[..k + 1]);
    assert |after| == |want|;
    forall i | 0 <= i < |after| ensures after[i] == want[i] {
      if i < k {
        assert before[..k][i] == items[..k][i];
        assert want[..k + 1][i] == items[..k + 1][i];
      } else if i == k {
        assert want[..k + 1][i] == items[..k + 1][i];
      }
    }
  }

  /** Exporting a file that is no longer than the imported sequence gives
      that sequence back. */
  lemma OverwriteRoundTrip<T>(records: seq<T>, items: seq<T>)
    requires |records| <= |items|
    ensures Overwrite(records, items) == items
  {
  }

  class FileStream<T> {
    var records: seq<T>
    var position: int
    var isOpen: bool
    const gap: T
    const recordSize: int

    ghost predicate Valid()
      reads this
    {
      recordSize > 0
    }

    /** file_stream.hpp:19: an opened file whose current records are
        `existing`, with the cursor on record 0. */
    constructor (existing: seq<T>, gap: T, recordSize: int)
      requires recordSize > 0
      ensures Valid() && isOpen && position == 0 && records == existing
      ensures this.gap == gap && this.recordSize == recordSize
    {
      records := existing;
      position := 0;
      isOpen := true;
      this.gap := gap;
      this.recordSize := recordSize;
    }

    /** file_stream.hpp:30 */
    function GetCurrentPos(): int
      reads this
    {
      position
    }

    /** Byte offset of the cursor in the file (file_stream.hpp:37). */
    function BytePosition(): (r: int)
      reads this
      requires Valid()
      ensures r % recordSize == 0
      ensures position >= 0 ==> r >= 0 && RecordAt(r, recordSize) == position
      ensures position < 0 ==> r <= -recordSize
    {
      DivModUnique(ByteOffset(position, recordSize), position, 0, recordSize);
      if position >= 0 then
        RecordOfEveryByte(position, recordSize, ByteOffset(position, recordSize));
        ByteOffset(position, recordSize)
      else
        MulAtLeast(-position, recordSize);
        ByteOffset(position, recordSize)
    }

    /** file_stream.hpp:22: the record under the cursor, and the cursor moves
        on; past the end (or before the start) it is `EndOfStream`. */
    method Read() returns (r: Result<T, StreamError>)
      modifies this
      ensures records == old(records) && isOpen == old(isOpen)
      ensures !isOpen ==> r == Err(Closed) && position == old(position)
      ensures isOpen && 0 <= old(position) < |records| ==>
                r == Ok(records[old(position)]) && position == old(position) + 1
      ensures isOpen && !(0 <= old(position) < |records|) ==>
                r == Err(EndOfStream) && position == old(position)
      ensures r.Ok? ==> ByteOffset(position, recordSize) == ByteOffset(old(position), recordSize) + recordSize
    {
      RecordsAdjacent(position, recordSize);
      if !isOpen {
        return Err(Closed);
      }
      if 0 <= position < |records| {
        r := Ok(records[position]);
        position := position + 1;
      } else {
        r := Err(EndOfStream);
      }
    }

    /** file_stream.hpp:24: store `item` as the record under the cursor,
        growing the file when the cursor is at or past its end, and move on. */
    method Write(item: T) returns (r: Result<(), StreamError>)
      modifies this
      ensures isOpen == old(isOpen)
      ensures r.Ok? <==> isOpen && old(position) >= 0
      ensures r.Ok? ==> records == WriteAt(old(records), old(position), item, gap) && position == old(position) + 1
      ensures r.Err? ==> records == old(records) && position == old(position)
      ensures !isOpen ==> r == Err(Closed)
      ensures isOpen && old(position) < 0 ==> r == Err(InvalidPosition)
      ensures r.Ok? ==> ByteOffset(position, recordSize) == ByteOffset(old(position), recordSize) + recordSize
    {
      RecordsAdjacent(position, recordSize);
      if !isOpen {
        return Err(Closed);
      }
      if position < 0 {
        return Err(InvalidPosition);
      }
      records := WriteAt(records, position, item, gap);
      position := position + 1;
      r := Ok(());
    }

    /** file_stream.hpp:25: seek to record `n`; bounds are checked by the
        next read or write, not here. */
    method MovePosition(n: int) returns (r: Result<(), StreamError>)
      modifies this
      ensures records == old(records) && isOpen == old(isOpen)
      ensures r == if isOpen then Ok(()) else Err(Closed)
      ensures GetCurrentPos() == if isOpen then n else old(position)
    {
      if !isOpen {
        return Err(Closed);
      }
      position := n;
      r := Ok(());
    }

    /** file_stream.hpp:26: `move_position(0)`. */
    method Reset() returns (r: Result<(), StreamError>)
      modifies this
      ensures records == old(records) && isOpen == old(isOpen)
      ensures r == if isOpen then Ok(()) else Err(Closed)
      ensures GetCurrentPos() == if isOpen then 0 else old(position)
    {
      r := MovePosition(0);
    }

    /** file_stream.hpp:27: release the file; every later read, write or seek
        fails with `Closed`. Closing twice is harmless. */
    method Close()
      modifies this
      ensures !isOpen && records == old(records) && position == old(position)
    {
      isOpen := false;
    }

    /** file_stream.hpp:28: rewind and write `items` in order. The file is not
        truncated: records beyond the items stay. */
    method FromSequence(items: seq<T>) returns (r: Result<(), StreamError>)
      modifies this
      ensures isOpen == old(isOpen) && (r.Ok? <==> isOpen)
      ensures !isOpen ==> r == Err(Closed)
      ensures r.Ok? ==> records == Overwrite(old(records), items) && position == |items|
      ensures r.Err? ==> records == old(records) && position == old(position)
    {
      r := Reset();
      if r.Err? {
        return;
      }
      ghost var original := records;
      var k := 0;
      while k < |items|
        invariant 0 <= k <= |items| && isOpen && position == k
        invariant records == Overwrite(original, items[..k])
      {
        OverwriteStep(original, items, k, gap);
        var _ := Write(items[k]);
        k := k + 1;
      }
      assert items[..k] == items;
    }

    /** file_stream.hpp:32: rewind and read every record, in file order. */
    method ToSequence() returns (r: Result<seq<T>, StreamError>)
      modifies this
      ensures records == old(records) && isOpen == old(isOpen)
      ensures r.Ok? <==> isOpen
      ensures !isOpen ==> r == Err(Closed)
      ensures r.Ok? ==> r.value == records && position == |records|
      ensures r.Err? ==> position == old(position)
    {
      var rewound := Reset();
      if rewound.Err? {
        return Err(Closed);
      }
      var out: seq<T> := [];
      var item := Read();
      while item.Ok?
        invariant isOpen && records == old(records)
        invariant 0 <= position <= |records|
        invariant item.Ok? ==> position >= 1 && out + [item.value] == records[..position]
        invariant item.Err? ==> out == records[..position] && position == |records|
        decreases |records| - position + (if item.Ok? then 1 else 0)
      {
        out := out + [item.value];
        item := Read();
      }
      assert records[..position] == records;
      r := Ok(out);
    }
  }

  /** Import then export (file_stream.hpp:28,32): the exported records start
      with the imported items, and are exactly them when the file was not
      longer than the items. */
  method ImportExport<T>(stream: FileStream<T>, items: seq<T>) returns (exported: seq<T>)
    requires stream.isOpen
    modifies stream
    ensures |exported| >= |items| && exported[..|items|] == items
    ensures |old(stream.records)| <= |items| ==> exported == items
  {
    var _ := stream.FromSequence(items);
    var all := stream.ToSequence();
    exported := all.value;
    if |old(stream.records)| <= |items| {
      OverwriteRoundTrip(old(stream.records), items);
    }
  }
}
