/** Range streaming of pkg/hostimage: the chunk loop of startStream over the file reads of SFile. */
module Stream {
  type Byte = b: int | 0 <= b < 256

  const CHUNK_SIZE := 4 * 1024

  function Min(a: int, b: int): int {
    if a < b then a else b
  }

  /** The bytes at positions from..from+count, as far as there are any. */
  function Slice(content: seq<Byte>, from: nat, count: nat): (r: seq<Byte>)
    ensures |r| <= count
    ensures from <= |content| ==> |r| == Min(count, |content| - from)
  {
    if from >= |content| then [] else content[from..Min(from + count, |content|)]
  }

  lemma SliceJoin(content: seq<Byte>, from: nat, a: nat, b: nat)
    ensures Slice(content, from, a) + Slice(content, Min(from + a, |content|), b) == Slice(content, from, a + b)
    requires from <= |content|
  {
  }

  // ---- The file -----------------------------------------------------------------------

  datatype IoResult = Success | Eof | Failure

  /** An open os.File: reads move its cursor and may return less than asked for. */
  class OsFile {
    const content: seq<Byte>
    var cursor: nat

    constructor (content: seq<Byte>)
      ensures this.content == content && cursor == 0
    {
      this.content := content;
      cursor := 0;
    }

    ghost predicate Valid()
      reads this
    {
      cursor <= |content|
    }

    /** Read into buf[from..]: some of the next bytes, at the end of the file EOF, or an error at any time. */
    method Read(buf: array<Byte>, from: nat) returns (cnt: nat, result: IoResult)
      requires Valid() && from < buf.Length
      modifies this`cursor, buf
      ensures Valid() && cursor == old(cursor) + cnt && from + cnt <= buf.Length
      ensures buf[..from] == old(buf[..from])
      ensures buf[from..from + cnt] == content[old(cursor)..cursor]
      ensures result.Success? ==> cnt > 0
      ensures result.Eof? ==> cnt == 0 && cursor == |content|
    {
      cnt := 0;
      if * { return 0, Failure; }
      if cursor == |content| { return 0, Eof; }
      var limit: nat := Min(buf.Length - from, |content| - cursor);
      assert 1 <= limit;
      cnt :| 1 <= cnt <= limit;
      forall k | 0 <= k < cnt { buf[from + k] := content[cursor + k]; }
      ghost var got, next := buf[from..from + cnt], content[cursor..cursor + cnt];
      assert forall k | 0 <= k < cnt :: got[k] == next[k] by {
        assert forall k | 0 <= k < cnt :: got[k] == buf[from + k];
      }
      cursor := cursor + cnt;
      result := Success;
    }
  }

  /** SFile.Read: `offset` is not used; the next `count` bytes, fewer only at the end of the file. */
  method ReadFile(f: OsFile, offset: int, count: nat) returns (data: seq<Byte>, total: int)
    requires f.Valid()
    modifies f
    ensures f.Valid()
    ensures total >= 0 ==> data == Slice(f.content, old(f.cursor), count) && total == |data|
    ensures total >= 0 ==> f.cursor == Min(old(f.cursor) + count, |f.content|)
    ensures total < 0 ==> data == []
  {
    var buf := new Byte[count](_ => 0);
    var readCount := 0;
    ghost var start := f.cursor;
    while readCount < count
      invariant f.Valid() && readCount <= count
      invariant f.cursor == start + readCount && buf[..readCount] == f.content[start..f.cursor]
      modifies f, buf
      decreases count - readCount
    {
      ghost var before, at := buf[..readCount], f.cursor;
      var cnt, result := f.Read(buf, readCount);
      assert buf[..readCount + cnt] == before + buf[readCount..readCount + cnt];
      assert f.content[start..f.cursor] == f.content[start..at] + f.content[at..f.cursor];
      readCount := readCount + cnt;
      if result.Eof? { return buf[0..readCount], readCount; }
      if result.Failure? { return [], -1; }
    }
    return buf[..], readCount;
  }

  // ---- The chunk loop ------------------------------------------------------------------------

  datatype Chunk = Chunk(pos: nat, size: nat)

  /** The chunks follow one another without gap or overlap, from `from` up to and excluding `to`. */
  ghost predicate Tiles(chunks: seq<Chunk>, from: nat, to: nat) {
    if chunks == [] then from == to
    else
      var last := chunks[|chunks| - 1];
      && 0 < last.size <= CHUNK_SIZE
      && last.pos + last.size == to
      && Tiles(chunks[..|chunks| - 1], from, last.pos)
  }

  function EndOf(chunks: seq<Chunk>, from: nat): nat {
    if chunks == [] then from else chunks[|chunks| - 1].pos + chunks[|chunks| - 1].size
  }

  /** How many bytes of the inclusive range are streamed: all, but for the last one when the length is 1 modulo the chunk size. */
  function Covered(startPos: nat, endPos: int): (n: nat) {
    var len := endPos - startPos + 1;
    if len <= 0 then 0 else if len % CHUNK_SIZE == 1 then len - 1 else len
  }

  lemma CoveredStep(startPos: nat, endPos: int)
    requires startPos < endPos
    ensures var size := ChunkAt(startPos, endPos);
            Covered(startPos, endPos) == size + Covered(startPos + size, endPos)
  {
  }

  lemma CoveredEnd(startPos: nat, endPos: int)
    requires startPos >= endPos
    ensures Covered(startPos, endPos) == 0
  {
  }

  lemma AddChunk(chunks: seq<Chunk>, from: nat, pos: nat, size: nat)
    requires Tiles(chunks, from, pos) && 0 < size <= CHUNK_SIZE
    ensures Tiles(chunks + [Chunk(pos, size)], from, pos + size)
  {
  }

  function ChunkAt(startPos: nat, endPos: int): nat
    requires startPos < endPos
  {
    if endPos - startPos < CHUNK_SIZE then endPos - startPos + 1 else CHUNK_SIZE
  }

  /** What a streaming of `n` bytes from `first` on, with the file at `begin`, has asked for and sent, complete or not. */
  ghost predicate Streamed(content: seq<Byte>, begin: nat, first: nat, n: nat, chunks: seq<Chunk>, sent: seq<Byte>, complete: bool) {
    && Tiles(chunks, first, EndOf(chunks, first)) && EndOf(chunks, first) <= first + n
    && sent <= Slice(content, begin, n)
    && (complete ==> Tiles(chunks, first, first + n) && sent == Slice(content, begin, n))
  }

  lemma Incomplete(content: seq<Byte>, begin: nat, first: nat, n: nat, m: nat, chunks: seq<Chunk>, size: nat)
    requires Tiles(chunks, first, first + n) && 0 < size <= CHUNK_SIZE && n + size <= m
    ensures Streamed(content, begin, first, m, chunks + [Chunk(first + n, size)], Slice(content, begin, n), false)
  {
  }

  lemma Complete(content: seq<Byte>, begin: nat, first: nat, n: nat, chunks: seq<Chunk>)
    requires Tiles(chunks, first, first + n)
    ensures Streamed(content, begin, first, n, chunks, Slice(content, begin, n), true)
  {
  }

  /**
   What a complete stream of an inclusive range sends from a file that is long enough: every byte, and
   chunks that tile the range, iff the length is not 1 modulo 4096; else both stop one byte short.
   */
  lemma WholeRangeIff(content: seq<Byte>, begin: nat, first: nat, endPos: int, chunks: seq<Chunk>, sent: seq<Byte>)
    requires first <= endPos && begin + (endPos - first + 1) <= |content|
    requires Streamed(content, begin, first, Covered(first, endPos), chunks, sent, true)
    ensures |sent| == endPos - first + 1 <==> (endPos - first + 1) % CHUNK_SIZE != 1
    ensures Tiles(chunks, first, endPos + 1) <==> (endPos - first + 1) % CHUNK_SIZE != 1
    ensures (endPos - first + 1) % CHUNK_SIZE == 1 ==> |sent| == endPos - first && Tiles(chunks, first, endPos)
  {
    assert Tiles(chunks, first, endPos + 1) ==> EndOf(chunks, first) == endPos + 1;
  }

  /** One turn of the loop: read a chunk and write it out; either may fail. */
  method SendChunk(f: OsFile, pos: nat, size: nat) returns (data: seq<Byte>, ok: bool)
    requires f.Valid()
    modifies f
    ensures f.Valid()
    ensures ok ==> data == Slice(f.content, old(f.cursor), size) && f.cursor == Min(old(f.cursor) + size, |f.content|)
  {
    var buf, total := ReadFile(f, pos, size);
    if total < 0 { return [], false; }
    var written: bool := *;
    return buf, written;
  }

  /**
   startStream on a file: the chunks it asks for and the bytes it sends.  Reads and writes may
   fail; `ok` says that none did.
   */
  method StartStream(f: OsFile, first: nat, endPos: int) returns (chunks: seq<Chunk>, sent: seq<Byte>, ok: bool)
    requires f.Valid()
    modifies f
    ensures f.Valid() && Streamed(f.content, old(f.cursor), first, Covered(first, endPos), chunks, sent, ok)
    ensures ok && first <= endPos && old(f.cursor) + (endPos - first + 1) <= |f.content| ==>
      (|sent| == endPos - first + 1 <==> (endPos - first + 1) % CHUNK_SIZE != 1)
  {
    ghost var begin := f.cursor;
    chunks, sent, ok := SendChunks(f, first, endPos);
    if ok && first <= endPos && begin + (endPos - first + 1) <= |f.content| {
      WholeRangeIff(f.content, begin, first, endPos, chunks, sent);
    }
  }

  /** The loop of startStream. */
  method SendChunks(f: OsFile, first: nat, endPos: int) returns (chunks: seq<Chunk>, sent: seq<Byte>, ok: bool)
    requires f.Valid()
    modifies f
    ensures f.Valid() && Streamed(f.content, old(f.cursor), first, Covered(first, endPos), chunks, sent, ok)
  {
    var startPos, readSize := first, CHUNK_SIZE;
    ghost var begin, done := f.cursor, 0;
    chunks, sent := [], [];
    while startPos < endPos
      invariant readSize == CHUNK_SIZE || startPos > endPos
      invariant startPos == first + done && Covered(first, endPos) == done + Covered(startPos, endPos)
      invariant f.Valid() && f.cursor == Min(begin + done, |f.content|)
      invariant Tiles(chunks, first, startPos) && sent == Slice(f.content, begin, done)
      decreases endPos - startPos
    {
      if endPos - startPos < CHUNK_SIZE {
        readSize := endPos - startPos + 1;
      }
      CoveredStep(startPos, endPos);
      AddChunk(chunks, first, startPos, readSize);
      SliceJoin(f.content, begin, done, readSize);
      Incomplete(f.content, begin, first, done, Covered(first, endPos), chunks, readSize);
      chunks := chunks + [Chunk(startPos, readSize)];
      var data;
      data, ok := SendChunk(f, startPos, readSize);
      if !ok { return; }
      startPos, done := startPos + readSize, done + readSize;
      sent := sent + data;
    }
    CoveredEnd(startPos, endPos);
    Complete(f.content, begin, first, done, chunks);
    ok := true;
  }

  // ---- What the numbers mean -------------------------------------------------------------------

  /** No chunk passes the end of the range, and two chunks never share a position. */
  lemma {:induction false} TilesInRange(chunks: seq<Chunk>, from: nat, to: nat, i: nat)
    requires Tiles(chunks, from, to) && i < |chunks|
    ensures from <= chunks[i].pos && 0 < chunks[i].size && chunks[i].pos + chunks[i].size <= to
    ensures i + 1 < |chunks| ==> chunks[i].pos + chunks[i].size == chunks[i + 1].pos
    ensures i == 0 ==> chunks[i].pos == from
    decreases |chunks|
  {
    var init, last := chunks[..|chunks| - 1], chunks[|chunks| - 1];
    if i < |init| {
      TilesInRange(init, from, last.pos, i);
    } else if init != [] {
      TilesInRange(init, from, last.pos, 0);
    }
  }

  lemma {:induction false} TilesDisjoint(chunks: seq<Chunk>, from: nat, to: nat, i: nat, j: nat)
    requires Tiles(chunks, from, to) && i < j < |chunks|
    ensures chunks[i].pos + chunks[i].size <= chunks[j].pos
    decreases j - i
  {
    TilesInRange(chunks, from, to, i);
    if i + 1 < j {
      TilesInRange(chunks, from, to, i + 1);
      TilesDisjoint(chunks, from, to, i + 1, j);
    }
  }

  /** On a fresh file the bytes sent are those of the range, whatever the file holds, iff the range starts at 0 or nothing is sent. */
  lemma FreshFileRightIffFromZero(startPos: nat, endPos: int)
    ensures (forall content: seq<Byte> :: |content| > endPos ==>
               Slice(content, 0, Covered(startPos, endPos)) == Slice(content, startPos, Covered(startPos, endPos)))
            <==> startPos == 0 || Covered(startPos, endPos) == 0
  {
    var n := Covered(startPos, endPos);
    if startPos > 0 && n > 0 {
      var content: seq<Byte> := seq(endPos + 1, i => if i == 0 then 0 else 1);
      assert Slice(content, 0, n)[0] == 0;
      assert Slice(content, startPos, n)[0] == 1;
      assert Slice(content, 0, n) != Slice(content, startPos, n);
    }
  }

  /** The range 0 to 4096 of a fresh file: 4097 bytes are asked for and 4096 sent. */
  lemma LastByteMissingExample(content: seq<Byte>, chunks: seq<Chunk>, sent: seq<Byte>)
    requires |content| > 4096 && Streamed(content, 0, 0, Covered(0, 4096), chunks, sent, true)
    ensures sent == content[..4096] && Tiles(chunks, 0, 4096)
  {
  }

  /** Bytes 1 to 2 of a fresh file of three bytes: the first two are sent. */
  lemma OffsetIgnoredExample()
    ensures Slice([7, 8, 9], 0, Covered(1, 2)) == [7, 8] && Slice([7, 8, 9], 1, Covered(1, 2)) == [8, 9]
  {
    var content: seq<Byte> := [7, 8, 9];
    assert content[0..2] == [7, 8] && content[1..3] == [8, 9];
  }

  /** There are chunks for every range. */
  lemma {:induction false} SomeChunks(first: nat, n: nat) returns (chunks: seq<Chunk>)
    ensures Tiles(chunks, first, first + n)
  {
    if n == 0 {
      chunks := [];
    } else {
      var size := Min(n, CHUNK_SIZE);
      var before := SomeChunks(first, n - size);
      AddChunk(before, first, first + n - size, size);
      chunks := before + [Chunk(first + n - size, size)];
    }
  }

  /** A complete stream of the range from a fresh file has sent exactly the bytes of the range. */
  ghost predicate SendsRange(content: seq<Byte>, first: nat, endPos: int, chunks: seq<Chunk>, sent: seq<Byte>)
    requires first <= endPos < |content|
  {
    Streamed(content, 0, first, Covered(first, endPos), chunks, sent, true) ==> sent == content[first..endPos + 1]
  }

  /** Every complete stream of the range, from every fresh file that is long enough, sends the range: both conditions at once. */
  lemma StreamRightIff(first: nat, endPos: int)
    requires first <= endPos
    ensures (forall content: seq<Byte>, chunks: seq<Chunk>, sent: seq<Byte> | |content| > endPos ::
               SendsRange(content, first, endPos, chunks, sent))
            <==> first == 0 && (endPos - first + 1) % CHUNK_SIZE != 1
  {
    var n := Covered(first, endPos);
    if !(first == 0 && (endPos - first + 1) % CHUNK_SIZE != 1) {
      var content: seq<Byte> := seq(endPos + 1, i => if i == 0 then 0 else 1);
      var chunks := SomeChunks(first, n);
      var sent := Slice(content, 0, n);
      Complete(content, 0, first, n, chunks);
      assert first > 0 && n > 0 ==> sent[0] == 0 && content[first..endPos + 1][0] == 1;
      assert !SendsRange(content, first, endPos, chunks, sent);
    }
  }
}
