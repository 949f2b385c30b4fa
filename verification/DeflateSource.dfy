/**
 The source deflate reads a file through: two buffers of 2 KiB, the current block and the one
 behind it, so that the compressor knows whether a block is the last.  The checksum is updated
 whenever a block has been used up.
 */
module DeflateSources {
  import opened Bytes
  import opened Bits
  import opened Crc
  import opened InflateDrains

  const HALF: nat := 4096 / 2

  class FileDeflateSource {
    const table: seq<Register>
    /** The contents of the FILE and how far it has been read. */
    const file: seq<byte>
    var fpos: nat
    var cache: array<byte>
    var next: array<byte>
    var pos: nat
    var cached: nat
    var nextcount: nat
    var total: nat
    var checksum: Register
    /** Where in the file the current block starts. */
    ghost var base: nat

    /** Counters and file positions. */
    ghost predicate Counts()
      reads this`pos, this`cached, this`nextcount, this`fpos, this`total, this`base
    {
      && pos <= cached <= HALF && nextcount <= HALF
      && base + cached + nextcount == fpos <= |file| && total == base + pos
      && (cached == 0 ==> nextcount == 0 && (base > 0 ==> fpos == |file|))
      && (0 < cached < HALF ==> fpos == |file| && nextcount == 0)
      && (0 < cached && nextcount < HALF ==> fpos == |file|)
    }

    ghost predicate Buffers()
      reads this`cache, this`next, this`cached, this`nextcount, this`fpos, this`base, cache, next
    {
      && cache != next && cache.Length == HALF == next.Length
      && base + cached + nextcount == fpos <= |file| && cached <= HALF && nextcount <= HALF
      && cache[..cached] == file[base..base + cached]
      && next[..nextcount] == file[base + cached..fpos]
    }

    ghost predicate Valid()
      reads this, cache, next
    {
      Counts() && Buffers() && IsTable(table) && checksum == Crc32(file[..base])
    }

    constructor (file: seq<byte>)
      ensures Valid() && this.file == file && total == 0 == pos == cached && fresh(cache) && fresh(next)
    {
      this.file := file;
      var t := BuildTable();
      table := t;
      fpos, pos, cached, nextcount, total, base := 0, 0, 0, 0, 0, 0;
      checksum := Zeros(32);
      cache := new byte[HALF];
      next := new byte[HALF];
      ChecksumEmpty(Zeros(32));
    }

    /** fread: a full buffer, or all that is left of the file. */
    method Read(buf: array<byte>) returns (n: nat)
      requires buf.Length == HALF && fpos <= |file|
      modifies this`fpos, buf
      ensures n == Min(HALF, |file| - old(fpos)) && fpos == old(fpos) + n
      ensures buf[..n] == file[old(fpos)..fpos]
    {
      n := Min(HALF, |file| - fpos);
      forall i | 0 <= i < n { buf[i] := file[fpos + i]; }
      fpos := fpos + n;
    }

    method LoadFirst()
      requires Valid() && cached == 0 && pos == 0
      modifies this`fpos, this`cached, this`nextcount, cache, next
      ensures Valid()
      ensures base + cached + nextcount == Min(base + 2 * HALF, |file|) && cached == Min(HALF, |file| - base)
    {
      hide IsTable, Crc32;
      cached := Read(cache);
      nextcount := Read(next);
    }

    /** Line 140: the used-up block enters the checksum. */
    method FinishBlock()
      requires Buffers() && pos == cached && IsTable(table) && checksum == Crc32(file[..base])
      modifies this`checksum
      ensures checksum == Crc32(file[..base + cached])
    {
      hide IsTable, Crc32, Checksum;
      ghost var read := file[..base + cached];
      assert read[..|read| - cached] == file[..base] && read[|read| - cached..] == cache[..pos];
      ExtendChecksum(read, cached, file[..base]);
      checksum := Update(table, checksum, cache[..pos]);
    }

    /** Lines 141-147: refill the used-up buffer and make the other one current. */
    method Advance()
      requires Counts() && Buffers() && 0 < cached == pos
      modifies this`fpos, this`cached, this`nextcount, this`pos, this`cache, this`next, this`base, cache
      ensures Counts() && Buffers() && cache == old(next) && next == old(cache)
      ensures base == old(base) + old(cached) && pos == 0 && cached == old(nextcount)
    {
      cached := Read(cache);
      pos := 0;
      cache, next := next, cache;
      cached, nextcount := nextcount, cached;
      base := total;
    }

    method LoadNext()
      requires Valid() && 0 < cached == pos
      modifies this, cache
      ensures Valid() && cache == old(next) && next == old(cache)
      ensures total == old(total) && base == old(base) + old(cached) && pos == 0 && cached == old(nextcount)
    {
      hide IsTable, Crc32, Counts, Buffers;
      CountsFacts();
      FinishBlock();
      Advance();
    }

    lemma CountsFacts()
      requires Counts()
      ensures base + cached <= |file| && total == base + pos
    {}

    /** After load the current block has a byte to offer, or the file has been used up; and there is a
        block behind it exactly if the file goes on. */
    method Load()
      requires Valid()
      modifies this, cache, next
      ensures Valid() && {cache, next} == old({cache, next}) && total == old(total)
      ensures pos == cached ==> cached == 0 && total == |file|
      ensures nextcount > 0 <==> base + cached < |file|
      ensures old(pos < cached) ==> pos == old(pos) && cached == old(cached) && base == old(base)
      ensures old(pos < cached) ==> nextcount == old(nextcount)
      ensures old(pos == cached) ==> pos == 0
    {
      hide IsTable, Crc32, Buffers;
      if cached - pos == 0 {
        var first := cached == 0 && pos == 0;
        if first {
          LoadFirst();
        } else {
          LoadNext();
        }
      }
    }

    /** Whether there is more data than the current block. */
    method More() returns (r: bool)
      requires Valid()
      modifies this, cache, next
      ensures Valid() && {cache, next} == old({cache, next}) && total == old(total)
      ensures r <==> base + cached < |file|
      ensures pos == cached ==> cached == 0 && total == |file|
      ensures old(pos < cached) ==> pos == old(pos) && cached == old(cached) && base == old(base)
      ensures old(pos == cached) ==> pos == 0
    {
      hide IsTable, Crc32, Buffers;
      Load();
      r := nextcount > 0;
    }

    /** How much of the current block is left; nothing only at the end of the file. */
    method Cached() returns (n: nat)
      requires Valid()
      modifies this, cache, next
      ensures Valid() && {cache, next} == old({cache, next}) && total == old(total)
      ensures n == cached - pos && (n == 0 ==> cached == 0 && total == |file|)
      ensures old(pos < cached) ==> pos == old(pos) && cached == old(cached) && base == old(base)
      ensures old(pos == cached) ==> pos == 0
    {
      hide IsTable, Crc32, Buffers;
      Load();
      n := cached - pos;
    }

    /** A byte of the current block, relative to the position in the file. */
    method Peek(off: int) returns (c: byte)
      requires Valid() && pos < cached && 0 <= pos + off < cached
      modifies this, cache, next
      ensures Valid() && {cache, next} == old({cache, next}) && total == old(total)
      ensures pos == old(pos) && cached == old(cached) && base == old(base)
      ensures 0 <= total + off < |file| && c == file[total + off]
    {
      hide IsTable, Crc32, Buffers;
      Load();
      BlockByte(pos + off);
      CacheLength();
      c := cache[pos + off];
    }

    lemma CacheLength()
      requires Buffers()
      ensures cache.Length == HALF
    {}

    lemma BlockByte(i: nat)
      requires Counts() && Buffers() && i < cached
      ensures i < cache.Length && base + i < |file| && cache[i] == file[base + i]
    {
      assert cache[i] == cache[..cached][i] == file[base..base + cached][i];
    }

    /** The next byte of the file. */
    method Get() returns (c: byte)
      requires Valid() && total < |file|
      modifies this, cache, next
      ensures Valid() && {cache, next} == old({cache, next}) && total == old(total) + 1
      ensures c == file[old(total)] && pos > 0
      ensures old(pos < cached) ==> pos == old(pos) + 1 && cached == old(cached) && base == old(base)
    {
      hide IsTable, Crc32, Buffers;
      Load();
      BlockByte(pos);
      CacheLength();
      total := total + 1;
      c := cache[pos];
      pos := pos + 1;
    }

    /** The checksum of the bytes returned so far, unless exactly a whole block has been returned since
        the last load: then that block is missing.  In the middle of a block the call also skips the
        rest of it, so it must be the last one. */
    method FinishCrc() returns (r: Register)
      requires Valid()
      modifies this`pos, this`checksum
      ensures r == Crc32(file[..if pos == old(pos) then base else old(total)])
      ensures pos == old(pos) <==> old(pos == cached)
      ensures old(pos == cached) ==> Valid()
      ensures old(pos < cached || pos == 0) ==> r == Crc32(file[..total])
    {
      hide IsTable, Crc32, Buffers, Checksum;
      CacheLength();
      if pos != cached {
        ghost var read := file[..base + pos];
        PartOfBlock();
        ExtendChecksum(read, pos, file[..base]);
        checksum := Update(table, checksum, cache[..pos]);
        pos := cached;
      }
      r := checksum;
    }

    lemma PartOfBlock()
      requires Valid()
      ensures base + pos == total <= |file| && pos <= cache.Length
      ensures var read := file[..base + pos];
        read[..|read| - pos] == file[..base] && read[|read| - pos..] == cache[..pos]
    {
      hide IsTable, Crc32, Buffers;
      CacheLength();
      forall i | 0 <= i < pos ensures cache[i] == file[base + i] { BlockByte(i); }
    }
  }

  /** A wrong checksum: after the only byte of a file has been read, its block has been used up and is
      missing. */
  method MissingBlock() returns (crc: Register)
    ensures crc == Crc32([]) != Crc32([255])
  {
    hide FileDeflateSource.Buffers, IsTable, Crc32;
    var src := new FileDeflateSource([255]);
    var _ := src.Get();
    OneByteCounts();
    assert src.base == 0 && src.pos == src.cached;
    crc := src.FinishCrc();
    assert src.file[..0] == [];
  }
}
