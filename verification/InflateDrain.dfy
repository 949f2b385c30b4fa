/**
 The drain inflate writes to when the output is a file: everything is appended to the file, and
 the last 32 KiB stay in a circular window from which matches are copied.  The checksum is
 updated once per filled window.
 */
module InflateDrains {
  import opened Bytes
  import opened Bits
  import opened Crc
  import opened InflateSpec

  /** Where the byte written `k` bytes ago is, seen from the write position. */
  function Slot(wpos: nat, k: nat): (i: nat)
    requires wpos < WINDOW && k <= WINDOW
    ensures i < WINDOW
  {
    if k <= wpos then wpos - k else if k - wpos == WINDOW then 0 else wpos - k + WINDOW
  }

  /** size_t wraps around at 2^32 or 2^64; both are multiples of the window size. */
  predicate SizeModulus(m: nat) {
    m == 0x1_0000_0000 || m == 0x1_0000_0000_0000_0000
  }

  lemma SlotEnds(w: nat)
    requires w < WINDOW
    ensures Slot(w, 0) == w == Slot(w, WINDOW)
  {}

  lemma UnsignedIndex(m: nat, wpos: nat, off: nat)
    requires SizeModulus(m) && wpos < WINDOW && off < WINDOW
    ensures m > 0 && ((wpos - off) % m) % WINDOW == Slot(wpos, off)
  {}

  /** Advancing the write position by one puts every older byte one further back. */
  lemma SlotStep(w: nat, k: nat)
    requires w < WINDOW && 1 <= k <= WINDOW
    ensures k == 1 ==> Slot((w + 1) % WINDOW, k) == w
    ensures k > 1 ==> Slot((w + 1) % WINDOW, k) == Slot(w, k - 1) != w
  {}

  class FileInflateDrain {
    const table: seq<Register>
    const sizeModulus: nat
    const buf: array<byte>
    var checksum: Register
    var file: seq<byte>
    var wpos: nat
    /** How many of the bytes last written are still where get() looks for them. */
    ghost var window: nat

    ghost predicate Valid()
      reads this, buf
    {
      && IsTable(table) && SizeModulus(sizeModulus) && buf.Length == WINDOW
      && wpos <= window <= WINDOW && wpos < WINDOW && window <= |file|
      && checksum == Crc32(file[..|file| - wpos])
      && forall k | 1 <= k <= window :: buf[Slot(wpos, k)] == file[|file| - k]
    }

    constructor (sizeModulus: nat)
      requires SizeModulus(sizeModulus)
      ensures Valid() && file == [] && window == 0 && fresh(buf)
    {
      this.sizeModulus := sizeModulus;
      var t := BuildTable();
      table := t;
      checksum := Zeros(32);
      file := [];
      buf := new byte[WINDOW];
      wpos := 0;
      window := 0;
      ChecksumEmpty(Zeros(32));
    }

    /** One step of the window without the checksum. */
    method Store(c: byte)
      requires Valid()
      modifies this`file, this`wpos, this`window, buf
      ensures wpos == (old(wpos) + 1) % WINDOW && file == old(file) + [c]
      ensures window == Min(old(window) + 1, WINDOW)
      ensures forall k | 1 <= k <= window :: buf[Slot(wpos, k)] == file[|file| - k]
    {
      hide Crc32, IsTable, Slot;
      ghost var w := wpos;
      file := file + [c];
      buf[wpos] := c;
      wpos := (wpos + 1) % WINDOW;
      window := Min(window + 1, WINDOW);
      forall k | 1 <= k <= window ensures buf[Slot(wpos, k)] == file[|file| - k] {
        SlotStep(w, k);
      }
    }

    /** A full window, read from its start, is the last 32 KiB. */
    lemma FullWindow()
      requires buf.Length == WINDOW == window <= |file| && wpos == 0
      requires forall k | 1 <= k <= window :: buf[Slot(wpos, k)] == file[|file| - k]
      ensures buf[..] == file[|file| - WINDOW..]
    {
      forall i | 0 <= i < WINDOW ensures buf[i] == file[|file| - WINDOW + i] {
        assert Slot(0, WINDOW - i) == i;
      }
    }

    method Put(c: byte)
      requires Valid()
      modifies this`file, this`wpos, this`window, this`checksum, buf
      ensures Valid() && file == old(file) + [c] && window == Min(old(window) + 1, WINDOW)
    {
      hide Crc32, IsTable, Slot, Checksum;
      ghost var f, w := file, wpos;
      Store(c);
      if wpos == 0 {
        FullWindow();
        checksum := Update(table, checksum, buf[..]);
        ExtendChecksum(file, WINDOW, f[..|f| - w]);
      } else {
        assert file[..|file| - wpos] == f[..|f| - w];
      }
    }

    /** The byte written `off` bytes ago, as far as the window reaches.  The assertion refuses every offset
        from the window size on, and so 32768, the largest distance deflate allows, although get(0) would
        find that byte. */
    method Get(off: nat) returns (c: byte, refused: bool)
      requires Valid()
      ensures refused <==> off >= WINDOW
      ensures 1 <= off <= window && off < WINDOW ==> c == file[|file| - off]
      ensures off == 0 && window == WINDOW ==> c == file[|file| - WINDOW]
    {
      hide Crc32, IsTable, Slot, SizeModulus;
      c, refused := 0, off >= WINDOW;
      if refused { return; }
      SlotEnds(wpos);
      UnsignedIndex(sizeModulus, wpos, off);
      c := buf[((wpos - off) % sizeModulus) % WINDOW];
    }

    /** Finishes the checksum.  It is right at any time and may be asked for again, but afterwards the
        window is lost. */
    method FinishCrc() returns (r: Register)
      requires Valid()
      modifies this`wpos, this`window, this`checksum
      ensures Valid() && r == Crc32(file)
      ensures window == if old(wpos) > 0 then 0 else old(window)
    {
      hide Crc32, IsTable, Slot, SizeModulus, Checksum;
      ExtendChecksum(file, wpos, file[..|file| - wpos]);
      assert wpos == 0 ==> file[..|file| - wpos] == file;
      if wpos > 0 {
        LastBytes(wpos);
        checksum := Update(table, checksum, buf[..wpos]);
        wpos := 0;
        window := 0;
      }
      r := checksum;
    }

    lemma LastBytes(n: nat)
      requires Valid() && n == wpos
      ensures buf[..n] == file[|file| - n..]
    {
      forall i | 0 <= i < n ensures buf[i] == file[|file| - n + i] {
        assert Slot(wpos, n - i) == i;
      }
    }
  }

  /** The checksum of all but the last `n` bytes, extended by those, is the checksum of the file. */
  lemma ExtendChecksum(file: seq<byte>, n: nat, head: seq<byte>)
    requires n <= |file| && head == file[..|file| - n]
    ensures Checksum(Crc32(head), file[|file| - n..]) == Crc32(file) == Crc32(file[..|file| - 0])
  {
    ChecksumConcat(Zeros(32), head, file[|file| - n..]);
    assert head + file[|file| - n..] == file == file[..|file| - 0];
  }
}
