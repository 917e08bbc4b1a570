/** Reading an Ext2 file: byte ranges through partition and disk, and the tree of
    direct and indirect block pointers. */
module Ext2 {
  import opened Bits
  import opened Defs

  const DIRECT_BLOCKS := 12

  // ---------------------------------------------------------------- block devices

  // A partition of a disk. Blocks are counted from the start of the partition, which
  // begins at block `start` of the disk; `disk` gives the byte at each disk address.
  datatype Device = Device(blockSize: nat, sectorSize: nat, start: nat, disk: nat -> bv8)

  // Blocks are whole sectors, a power of two in size, and fit a page.
  predicate Suitable(d: Device) {
    d.sectorSize > 0 && IsPow2(d.blockSize) && d.blockSize % d.sectorSize == 0 && 0 < d.blockSize <= PAGE_SIZE
  }

  // n bytes of the partition from byte `offset` on.
  function Content(d: Device, offset: nat, n: nat): (s: seq<bv8>)
    ensures |s| == n
  {
    seq(n, i requires 0 <= i < n => d.disk(d.start * d.blockSize + offset + i))
  }

  // align_up_n
  function AlignUpN(value: nat, alignment: nat): int
    requires alignment > 0
  {
    var w := value + alignment - 1;
    w - And(w, alignment - 1)
  }

  lemma AlignUpLeast(value: nat, a: nat)
    requires IsPow2(a)
    ensures a > 0 && 0 <= value <= AlignUpN(value, a) < value + a && AlignUpN(value, a) % a == 0
  {
    hide IsPow2, And;
    IsPow2Double(a);
    var w := value + a - 1;
    AndMask(w, a);
    DivMod(w, a);
    ModUnique(w - w % a, a, w / a, 0);
  }

  // Whole blocks that cover `fetch` bytes fit into the pages that cover them.
  lemma PagesHoldBlocks(fetch: nat, a: nat)
    requires IsPow2(a) && a <= PAGE_SIZE
    ensures a > 0 && AlignUpN(fetch, a) <= (fetch + PAGE_SIZE - 1) / PAGE_SIZE * PAGE_SIZE
  {
    hide IsPow2, AlignUpN;
    AlignUpLeast(fetch, a);
    var r, top := AlignUpN(fetch, a), (fetch + PAGE_SIZE - 1) / PAGE_SIZE * PAGE_SIZE;
    PageMultiple(a);
    var k := PAGE_SIZE / a;
    var m := top / PAGE_SIZE * k;
    var q := r / a;
    DivMod(r, a);
    assert top == a * m by { Regroup(a, k, top / PAGE_SIZE); }
    if m < q {
      MulMono(a, m, q);
    }
    MulOrder(a, q, m);
  }

  lemma MulOrder(a: nat, q: nat, m: nat)
    ensures q <= m ==> a * q <= a * m
  {
    if q < m { MulMono(a, q, m); }
  }

  lemma Regroup(a: nat, k: nat, n: nat)
    requires a * k == PAGE_SIZE
    ensures n * PAGE_SIZE == a * (n * k)
  {
  }

  lemma PageMultiple(a: nat)
    requires IsPow2(a) && a <= PAGE_SIZE
    ensures a > 0 && a * (PAGE_SIZE / a) == PAGE_SIZE
  {
    hide Pow2, IsPow2, Log2;
    Pow2Log2(a);
    PageIsPow2();
    if 12 < Log2(a) { Pow2Mono(12, Log2(a)); }
    AlignedPow2(Log2(a), 12);
    DivMod(PAGE_SIZE, a);
  }

  lemma PageIsPow2()
    ensures Pow2(12) == PAGE_SIZE
  {
    assert Pow2(4) == 16 && Pow2(8) == 16 * Pow2(4) && Pow2(12) == 16 * Pow2(8);
  }

  lemma {:induction false} AlignedPow2(k: nat, n: nat)
    requires k <= n
    ensures Pow2(n) % Pow2(k) == 0
  {
    if k < n {
      AlignedPow2(k, n - 1);
      DivMod(Pow2(n - 1), Pow2(k));
      var q := Pow2(n - 1) / Pow2(k);
      assert Pow2(n) == Pow2(k) * (2 * q);
      ModUnique(Pow2(n), Pow2(k), 2 * q, 0);
    } else {
      ModUnique(Pow2(n), Pow2(k), 1, 0);
    }
  }

  // x blocks are a whole number of sectors.
  lemma WholeSectors(x: nat, block: nat, sector: nat)
    requires sector > 0 && block % sector == 0
    ensures x * block / sector * sector == x * block
  {
    DivMod(block, sector);
    var k := block / sector;
    assert x * block == sector * (x * k) by { Shift(x, sector, k); }
    ModUnique(x * block, sector, x * k, 0);
    assert x * k * sector == sector * (x * k);
  }

  lemma Shift(x: nat, a: nat, k: nat)
    ensures x * (a * k) == a * (x * k)
  {
  }

  // The storage driver: `sectors` sectors from `lba` on.
  method StorRead(d: Device, lba: nat, sectors: nat, buffer: array<bv8>)
    requires sectors * d.sectorSize <= buffer.Length
    modifies buffer
    ensures forall i :: 0 <= i < sectors * d.sectorSize ==> buffer[i] == d.disk(lba * d.sectorSize + i)
  {
    for i := 0 to sectors * d.sectorSize
      invariant forall j :: 0 <= j < i ==> buffer[j] == d.disk(lba * d.sectorSize + j)
    {
      buffer[i] := d.disk(lba * d.sectorSize + i);
    }
  }

  // block_disk_make_stor_request: blocks of the disk become sectors.
  method SubmitDisk(d: Device, offset: nat, count: nat, buffer: array<bv8>)
    requires Suitable(d) && count * d.blockSize <= buffer.Length
    modifies buffer
    ensures forall i :: 0 <= i < count * d.blockSize ==> buffer[i] == d.disk(offset * d.blockSize + i)
  {
    WholeSectors(count, d.blockSize, d.sectorSize);
    WholeSectors(offset, d.blockSize, d.sectorSize);
    StorRead(d, offset * d.blockSize / d.sectorSize, count * d.blockSize / d.sectorSize, buffer);
  }

  // block_submit_partition: blocks of the partition become blocks of the disk.
  method SubmitPartition(d: Device, offset: nat, count: nat, buffer: array<bv8>)
    requires Suitable(d) && count * d.blockSize <= buffer.Length
    modifies buffer
    ensures forall i :: 0 <= i < count * d.blockSize ==>
      buffer[i] == d.disk(d.start * d.blockSize + offset * d.blockSize + i)
  {
    assert (d.start + offset) * d.blockSize == d.start * d.blockSize + offset * d.blockSize;
    SubmitDisk(d, d.start + offset, count, buffer);
  }

  // The temporary buffer of fs_read_bytes: whole pages, filled with the blocks that
  // cover `fetch` bytes from block `first` on.
  method FetchBlocks(d: Device, first: nat, fetch: nat) returns (buffer: array<bv8>)
    requires Suitable(d)
    ensures fresh(buffer) && fetch <= buffer.Length
    ensures forall i :: 0 <= i < fetch ==> buffer[i] == d.disk(d.start * d.blockSize + first * d.blockSize + i)
  {
    hide IsPow2, AlignUpN;
    var b := d.blockSize;
    var pages := (fetch + PAGE_SIZE - 1) / PAGE_SIZE;
    buffer := new bv8[pages * PAGE_SIZE];
    PagesHoldBlocks(fetch, b);
    AlignUpLeast(fetch, b);
    var count := AlignUpN(fetch, b) / b;
    assert count * b == AlignUpN(fetch, b) by { DivMod(AlignUpN(fetch, b), b); Commute(count, b); }
    SubmitPartition(d, first, count, buffer);
  }

  // fs_read_bytes: exactly the bytes of the partition from `offset` on.
  method FsReadBytes(d: Device, length: nat, offset: nat) returns (data: seq<bv8>)
    requires Suitable(d)
    ensures data == Content(d, offset, length)
    ensures |data| == length && forall i :: 0 <= i < length ==> data[i] == d.disk(d.start * d.blockSize + offset + i)
  {
    hide IsPow2;
    var unnecessary := offset % d.blockSize;
    var buffer := FetchBlocks(d, offset / d.blockSize, length + unnecessary);
    data := buffer[unnecessary..unnecessary + length];
    FetchedBytes(d, offset, length, offset / d.blockSize, unnecessary, data);
  }

  lemma FetchedBytes(d: Device, offset: nat, length: nat, first: nat, unnecessary: nat, data: seq<bv8>)
    requires d.blockSize > 0 && first == offset / d.blockSize && unnecessary == offset % d.blockSize && |data| == length
    requires forall i :: 0 <= i < length ==>
      data[i] == d.disk(d.start * d.blockSize + first * d.blockSize + (unnecessary + i))
    ensures data == Content(d, offset, length)
  {
    DivMod(offset, d.blockSize);
    Commute(first, d.blockSize);
  }

  lemma Commute(a: nat, b: nat)
    ensures a * b == b * a
  {
  }

  // ---------------------------------------------------------------- block pointers

  // A 32-bit little-endian word.
  function Word(s: seq<bv8>): nat
    requires |s| == 4
  {
    s[0] as nat + 0x100 * s[1] as nat + 0x1_0000 * s[2] as nat + 0x100_0000 * s[3] as nat
  }

  // The partition holds the 32-bit number p at byte `at`, lowest byte first.
  ghost predicate Stored(d: Device, at: nat, p: nat) {
    var x := d.start * d.blockSize + at;
    && p < TWO_32 && d.disk(x) as nat == p % 0x100 && d.disk(x + 1) as nat == p / 0x100 % 0x100
    && d.disk(x + 2) as nat == p / 0x1_0000 % 0x100 && d.disk(x + 3) as nat == p / 0x100_0000
  }

  // `p` is the pointer with number i of an indirect block.
  ghost predicate Points(d: Device, size: nat, block: nat, i: nat, p: nat) {
    Stored(d, block * size + 4 * i, p)
  }

  // Four bytes stand for one number, and a pointer is that number.
  lemma PointerStored(d: Device, size: nat, block: nat, i: nat, p: nat)
    ensures Points(d, size, block, i, p) <==> p == Pointer(d, size, block, i)
  {
    hide Content, Word;
    var at := block * size + i * 4;
    assert block * size + 4 * i == at;
    ContentAt(d, at, 4);
    var s := Content(d, at, 4);
    WordBytes(s, p);
  }

  lemma ContentAt(d: Device, at: nat, n: nat)
    ensures forall i :: 0 <= i < n ==> Content(d, at, n)[i] == d.disk(d.start * d.blockSize + at + i)
  {
  }

  lemma WordBytes(s: seq<bv8>, p: nat)
    requires |s| == 4
    ensures p == Word(s) <==>
      && p < TWO_32 && s[0] as nat == p % 0x100 && s[1] as nat == p / 0x100 % 0x100
      && s[2] as nat == p / 0x1_0000 % 0x100 && s[3] as nat == p / 0x100_0000
  {
    Digits(s[0] as nat, s[1] as nat, s[2] as nat, s[3] as nat, p);
  }

  lemma Digits(a: nat, b: nat, c: nat, e: nat, p: nat)
    requires a < 0x100 && b < 0x100 && c < 0x100 && e < 0x100
    ensures p == a + 0x100 * b + 0x1_0000 * c + 0x100_0000 * e <==>
      && p < TWO_32 && a == p % 0x100 && b == p / 0x100 % 0x100
      && c == p / 0x1_0000 % 0x100 && e == p / 0x100_0000
  {
    ByteDigits(a, b, c, e);
    ByteSum(p);
  }

  lemma ByteDigits(a: nat, b: nat, c: nat, e: nat)
    requires a < 0x100 && b < 0x100 && c < 0x100 && e < 0x100
    ensures
      var p := a + 0x100 * b + 0x1_0000 * c + 0x100_0000 * e;
      && p < TWO_32 && p % 0x100 == a && p / 0x100 % 0x100 == b
      && p / 0x1_0000 % 0x100 == c && p / 0x100_0000 == e
  {
    ModUnique(c + 0x100 * e, 0x100, e, c);
    ModUnique(b + 0x100 * (c + 0x100 * e), 0x100, c + 0x100 * e, b);
    ModUnique(a + 0x100 * (b + 0x100 * (c + 0x100 * e)), 0x100, b + 0x100 * (c + 0x100 * e), a);
    ModUnique(a + 0x100 * b + 0x1_0000 * (c + 0x100 * e), 0x1_0000, c + 0x100 * e, a + 0x100 * b);
    ModUnique(a + 0x100 * b + 0x1_0000 * c + 0x100_0000 * e, 0x100_0000, e, a + 0x100 * b + 0x1_0000 * c);
  }

  lemma ByteSum(p: nat)
    ensures p ==
      p % 0x100 + 0x100 * (p / 0x100 % 0x100) + 0x1_0000 * (p / 0x1_0000 % 0x100) + 0x100_0000 * (p / 0x100_0000)
  {
    var p1 := p / 0x100;
    var p2 := p1 / 0x100;
    DivTwice(p);
    DivTwice(p1);
    assert p / 0x100_0000 == p2 / 0x100 by { DivThrice(p); }
    assert p == p % 0x100 + 0x100 * p1 && p1 == p1 % 0x100 + 0x100 * p2 && p2 == p2 % 0x100 + 0x100 * (p2 / 0x100);
  }

  lemma DivTwice(p: nat)
    ensures p / 0x1_0000 == p / 0x100 / 0x100
  {
  }

  lemma DivThrice(p: nat)
    ensures p / 0x100_0000 == p / 0x100 / 0x100 / 0x100
  {
    DivTwice(p);
    assert p / 0x100_0000 == p / 0x1_0000 / 0x100;
  }

  // Pointer `index` of an indirect block, in a file system of blocks of `size` bytes.
  function Pointer(d: Device, size: nat, block: nat, index: nat): nat {
    Word(Content(d, block * size + index * 4, 4))
  }

  // ext2_read_u32
  method ReadPointer(d: Device, size: nat, block: nat, index: nat) returns (p: nat)
    requires Suitable(d)
    ensures p == Pointer(d, size, block, index)
  {
    var bytes := FsReadBytes(d, 4, block * size + index * 4);
    p := Word(bytes);
  }

  ghost function Power(p: nat, k: nat): nat {
    if k == 0 then 1 else p * Power(p, k - 1)
  }

  // The data blocks below a block at distance `depth` from them, in file order.
  ghost function Leaves(d: Device, size: nat, block: nat, depth: nat): seq<nat>
    decreases depth, 1, 0
  {
    if depth == 0 then [block] else Below(d, size, block, depth, size / 4)
  }

  // The data blocks below the first n pointers of an indirect block.
  ghost function Below(d: Device, size: nat, block: nat, depth: nat, n: nat): seq<nat>
    requires depth > 0
    decreases depth, 0, n
  {
    if n == 0 then []
    else Below(d, size, block, depth, n - 1) + Leaves(d, size, Pointer(d, size, block, n - 1), depth - 1)
  }

  // The data blocks of a file, in order: twelve direct ones, then one, two and three levels.
  ghost function FileBlocks(d: Device, size: nat, blocks: seq<nat>): seq<nat>
    requires |blocks| == DIRECT_BLOCKS + 3
  {
    blocks[..DIRECT_BLOCKS] + Leaves(d, size, blocks[12], 1)
      + Leaves(d, size, blocks[13], 2) + Leaves(d, size, blocks[14], 3)
  }

  lemma {:induction false} LeavesLength(d: Device, size: nat, block: nat, depth: nat)
    ensures |Leaves(d, size, block, depth)| == Power(size / 4, depth)
    decreases depth, 1, 0
  {
    if depth > 0 {
      BelowLength(d, size, block, depth, size / 4);
    }
  }

  lemma {:induction false} BelowLength(d: Device, size: nat, block: nat, depth: nat, n: nat)
    requires depth > 0
    ensures |Below(d, size, block, depth, n)| == n * Power(size / 4, depth - 1)
    decreases depth, 0, n
  {
    var w := Power(size / 4, depth - 1);
    if n > 0 {
      BelowLength(d, size, block, depth, n - 1);
      LeavesLength(d, size, Pointer(d, size, block, n - 1), depth - 1);
      assert n * w == (n - 1) * w + w;
    }
  }

  // Leaf i is leaf i % w of child i / w, a child having w leaves.
  lemma {:induction false} BelowAt(d: Device, size: nat, block: nat, depth: nat, n: nat, i: nat, w: nat)
    requires depth > 0 && w == Power(size / 4, depth - 1) && i < |Below(d, size, block, depth, n)|
    ensures w > 0 && i / w < n && i % w < |Leaves(d, size, Pointer(d, size, block, i / w), depth - 1)|
    ensures Below(d, size, block, depth, n)[i] == Leaves(d, size, Pointer(d, size, block, i / w), depth - 1)[i % w]
    decreases n
  {
    hide Leaves, Pointer;
    BelowLength(d, size, block, depth, n);
    if n > 0 {
      BelowLength(d, size, block, depth, n - 1);
      LeavesLength(d, size, Pointer(d, size, block, n - 1), depth - 1);
      if i < |Below(d, size, block, depth, n - 1)| {
        BelowAt(d, size, block, depth, n - 1, i, w);
      } else {
        var r := i - (n - 1) * w;
        Commute(w, n - 1);
        ModUnique(i, w, n - 1, r);
      }
    }
  }

  lemma LeavesAt(d: Device, size: nat, block: nat, depth: nat, i: nat, w: nat)
    requires depth > 0 && w == Power(size / 4, depth - 1) && i < |Leaves(d, size, block, depth)|
    ensures w > 0 && i % w < |Leaves(d, size, Pointer(d, size, block, i / w), depth - 1)|
    ensures Leaves(d, size, block, depth)[i] == Leaves(d, size, Pointer(d, size, block, i / w), depth - 1)[i % w]
  {
    hide Pointer;
    BelowAt(d, size, block, depth, size / 4, i, w);
  }

  // What the code computes at each level.
  lemma Single(d: Device, size: nat, block: nat, i: nat)
    requires i < size / 4
    ensures |Leaves(d, size, block, 1)| == size / 4 && Leaves(d, size, block, 1)[i] == Pointer(d, size, block, i)
  {
    hide Pointer, Below;
    LeavesLength(d, size, block, 1);
    Powers(size / 4);
    LeavesAt(d, size, block, 1, i, 1);
  }

  lemma Double(d: Device, size: nat, block: nat, i: nat, p: nat, i1: nat, i2: nat)
    requires p == size / 4 && i < |Leaves(d, size, block, 2)| && i == p * i1 + i2 && i2 < p
    ensures Leaves(d, size, block, 2)[i] == Pointer(d, size, Pointer(d, size, block, i1), i2)
  {
    hide Pointer, Leaves;
    Powers(p);
    ModUnique(i, p, i1, i2);
    LeavesAt(d, size, block, 2, i, p);
    Single(d, size, Pointer(d, size, block, i1), i2);
  }

  lemma Triple(d: Device, size: nat, block: nat, i: nat, p: nat, pp: nat, i1: nat, rest: nat)
    requires p == size / 4 && pp == p * p && 0 < p && i < |Leaves(d, size, block, 3)| && i == pp * i1 + rest
    requires rest < pp
    ensures |Leaves(d, size, Pointer(d, size, block, i1), 2)| == pp
    ensures Leaves(d, size, block, 3)[i] == Leaves(d, size, Pointer(d, size, block, i1), 2)[rest]
  {
    hide Pointer, Leaves;
    Powers(p);
    ModUnique(i, pp, i1, rest);
    LeavesAt(d, size, block, 3, i, pp);
    LeavesLength(d, size, Pointer(d, size, block, i1), 2);
  }

  lemma Powers(p: nat)
    ensures Power(p, 0) == 1 && Power(p, 1) == p && Power(p, 2) == p * p && Power(p, 3) == p * p * p
  {
    assert Power(p, 1) == p * Power(p, 0);
    assert Power(p, 2) == p * Power(p, 1);
    assert Power(p, 3) == p * Power(p, 2);
    assert p * (p * p) == p * p * p;
  }

  // The number of data blocks the pointers of an inode reach.
  ghost function Reach(size: nat): nat {
    var p := size / 4;
    DIRECT_BLOCKS + p + p * p + p * p * p
  }

  lemma FileLength(d: Device, size: nat, blocks: seq<nat>, p: nat, pp: nat)
    requires |blocks| == DIRECT_BLOCKS + 3 && p == size / 4 && pp == p * p
    ensures |Leaves(d, size, blocks[12], 1)| == p && |Leaves(d, size, blocks[13], 2)| == pp
    ensures |FileBlocks(d, size, blocks)| == Reach(size) == 12 + p + pp + |Leaves(d, size, blocks[14], 3)|
  {
    hide Leaves;
    LeavesLength(d, size, blocks[12], 1);
    LeavesLength(d, size, blocks[13], 2);
    LeavesLength(d, size, blocks[14], 3);
    Powers(p);
  }

  // The double-indirect branch of ext2_get_inode_block_index
  method ReadDouble(d: Device, size: nat, block: nat, p: nat, i: nat) returns (r: nat)
    requires Suitable(d) && p == size / 4 > 0 && i < |Leaves(d, size, block, 2)|
    ensures r == Leaves(d, size, block, 2)[i] && PointsTwice(d, size, block, i, p, r)
  {
    hide Pointer, Leaves, Suitable, Points;
    var i1, i2 := i / p, i % p;
    DivMod(i, p);
    Double(d, size, block, i, p, i1, i2);
    var single := ReadPointer(d, size, block, i1);
    r := ReadPointer(d, size, single, i2);
    PointerStored(d, size, block, i1, single);
    PointerStored(d, size, single, i2, r);
    assert i == p * i1 + i2;
  }

  // Position i below a double-indirect block, p pointers to a block.
  ghost predicate PointsTwice(d: Device, size: nat, block: nat, i: nat, p: nat, r: nat) {
    exists i1: nat, i2: nat, b: nat ::
      Points(d, size, block, i1, b) && Points(d, size, b, i2, r) && i == p * i1 + i2 && i2 < p
  }

  // Position i below a triple-indirect block.
  ghost predicate PointsThrice(d: Device, size: nat, block: nat, i: nat, p: nat, r: nat) {
    exists i1: nat, rest: nat, b: nat ::
      Points(d, size, block, i1, b) && PointsTwice(d, size, b, rest, p, r) && i == p * p * i1 + rest && rest < p * p
  }

  // Its triple-indirect branch
  method ReadTriple(d: Device, size: nat, block: nat, p: nat, pp: nat, i: nat) returns (r: nat)
    requires Suitable(d) && p == size / 4 > 0 && pp == p * p && i < |Leaves(d, size, block, 3)|
    ensures r == Leaves(d, size, block, 3)[i] && PointsThrice(d, size, block, i, p, r)
  {
    hide Pointer, Leaves, Suitable, Points, PointsTwice;
    assert pp > 0 by { MulOrder(p, 1, p); }
    var i1, rest := i / pp, i % pp;
    DivMod(i, pp);
    Triple(d, size, block, i, p, pp, i1, rest);
    var double := ReadPointer(d, size, block, i1);
    r := ReadDouble(d, size, double, p, rest);
    PointerStored(d, size, block, i1, double);
    assert i == p * p * i1 + rest;
  }

  // Data block number `index` of a file is r, by the pointers on the disk.
  ghost predicate IsBlock(d: Device, size: nat, blocks: seq<nat>, index: nat, r: nat)
    requires |blocks| == DIRECT_BLOCKS + 3
  {
    var p, i := size / 4, index - DIRECT_BLOCKS;
    if i < 0 then r == blocks[index]
    else if i < p then Points(d, size, blocks[12], i, r)
    else if i - p < p * p then PointsTwice(d, size, blocks[13], i - p, p, r)
    else PointsThrice(d, size, blocks[14], i - p - p * p, p, r)
  }

  // ext2_get_inode_block_index: the data block at that position of the flattened tree.
  // Blocks of less than 256 KiB keep the squares within 32 bits.
  method BlockIndex(d: Device, size: nat, blocks: seq<nat>, index: nat) returns (r: nat)
    requires Suitable(d) && 4 <= size < 0x4_0000 && |blocks| == DIRECT_BLOCKS + 3 && index < Reach(size)
    ensures index < |FileBlocks(d, size, blocks)| && r == FileBlocks(d, size, blocks)[index]
    ensures IsBlock(d, size, blocks, index, r)
  {
    hide Pointer, Leaves, Suitable, Reach, Points, PointsTwice, PointsThrice;
    var p := size / 4;
    var pp := p * p;
    FileLength(d, size, blocks, p, pp);
    if index < DIRECT_BLOCKS { return blocks[index]; }
    var i := index - DIRECT_BLOCKS;
    if i < p {
      Single(d, size, blocks[12], i);
      r := ReadPointer(d, size, blocks[12], i);
      PointerStored(d, size, blocks[12], i, r);
      return;
    }
    i := i - p;
    if i < pp {
      r := ReadDouble(d, size, blocks[13], p, i);
      return;
    }
    i := i - pp;
    r := ReadTriple(d, size, blocks[14], p, pp, i);
  }

  // ---------------------------------------------------------------- holes

  // The pointer indices that lead to leaf i, p pointers to a block.
  ghost function Path(p: nat, depth: nat, i: nat): seq<nat> {
    if depth == 0 then [] else
      var w := Power(p, depth - 1);
      if w == 0 then [] else [i / w] + Path(p, depth - 1, i % w)
  }

  // Following a path as the code does, also through null pointers.
  ghost function Follow(d: Device, size: nat, block: nat, path: seq<nat>): nat
    decreases |path|
  {
    if path == [] then block else Follow(d, size, Pointer(d, size, block, path[0]), path[1..])
  }

  // Following it with null pointers as holes: nothing below them is allocated.
  ghost function FollowOrHole(d: Device, size: nat, block: nat, path: seq<nat>): nat
    decreases |path|
  {
    if path == [] || block == 0 then block else FollowOrHole(d, size, Pointer(d, size, block, path[0]), path[1..])
  }

  // One of the indirect blocks on the path is null.
  ghost predicate NullOnPath(d: Device, size: nat, block: nat, path: seq<nat>)
    decreases |path|
  {
    path != [] && (block == 0 || NullOnPath(d, size, Pointer(d, size, block, path[0]), path[1..]))
  }

  lemma {:induction false} LeavesFollow(d: Device, size: nat, block: nat, depth: nat, i: nat)
    requires i < |Leaves(d, size, block, depth)|
    ensures Leaves(d, size, block, depth)[i] == Follow(d, size, block, Path(size / 4, depth, i))
    decreases depth
  {
    hide Pointer, Below;
    if depth > 0 {
      var w := Power(size / 4, depth - 1);
      LeavesAt(d, size, block, depth, i, w);
      LeavesFollow(d, size, Pointer(d, size, block, i / w), depth - 1, i % w);
      assert Path(size / 4, depth, i)[1..] == Path(size / 4, depth - 1, i % w);
    }
  }

  lemma {:induction false} FollowHole(d: Device, size: nat, block: nat, path: seq<nat>)
    ensures FollowOrHole(d, size, block, path) ==
      if NullOnPath(d, size, block, path) then 0 else Follow(d, size, block, path)
    decreases |path|
  {
    hide Pointer;
    if path != [] { FollowHole(d, size, Pointer(d, size, block, path[0]), path[1..]); }
  }

  // The block found differs from the hole that is there exactly when an indirect block on
  // the way is null and the words of block 0 lead on to a block other than 0.
  lemma HoleMissed(d: Device, size: nat, block: nat, depth: nat, i: nat)
    requires i < |Leaves(d, size, block, depth)|
    ensures
      var path := Path(size / 4, depth, i);
      Leaves(d, size, block, depth)[i] != FollowOrHole(d, size, block, path) <==>
        NullOnPath(d, size, block, path) && Leaves(d, size, block, depth)[i] != 0
  {
    hide Leaves, Path;
    LeavesFollow(d, size, block, depth, i);
    FollowHole(d, size, block, Path(size / 4, depth, i));
  }

  // A null single-indirect pointer, on a disk of ones.
  lemma HoleExample(d: Device, blocks: seq<nat>)
    requires |blocks| == DIRECT_BLOCKS + 3 && blocks[12] == 0 && forall x :: d.disk(x) == 1
    ensures |FileBlocks(d, 1024, blocks)| > 12 && FileBlocks(d, 1024, blocks)[12] == 0x0101_0101
    ensures FollowOrHole(d, 1024, blocks[12], Path(256, 1, 0)) == 0
  {
    hide Leaves;
    FileLength(d, 1024, blocks, 256, 256 * 256);
    Single(d, 1024, 0, 0);
  }

  // ---------------------------------------------------------------- reading a file

  // The blocks that the pointers of an inode reach are enough for the file.
  ghost predicate Holds(d: Device, size: nat, blocks: seq<nat>, fileSize: nat)
    requires |blocks| == DIRECT_BLOCKS + 3
  {
    fileSize <= |FileBlocks(d, size, blocks)| * size
  }

  // Byte x of the file lies in its block q.
  ghost predicate InBlock(size: nat, q: nat, x: nat) {
    q * size <= x < (q + 1) * size
  }

  // Byte x of the partition block that block q of the file is, counted from the file's start.
  ghost function BlockByte(d: Device, size: nat, block: nat, q: nat, x: nat): bv8
    requires q * size <= x
  {
    d.disk(d.start * d.blockSize + block * size + (x - q * size))
  }

  // `s` holds the bytes of the file from `offset` on; holes read as zero.
  ghost predicate IsFile(d: Device, size: nat, all: seq<nat>, offset: nat, s: seq<bv8>) {
    forall q: nat, i: nat :: q < |all| && i < |s| && InBlock(size, q, offset + i) ==>
      s[i] == if all[q] == 0 then 0 else BlockByte(d, size, all[q], q, offset + i)
  }

  // What ext2_read_inode leaves in its buffer: its loop ends after the first block, and
  // a hole is not read at all.
  ghost predicate ReadFirst(d: Device, size: nat, all: seq<nat>, before: seq<bv8>, after: seq<bv8>,
                            length: nat, offset: nat)
  {
    && |after| == |before|
    && forall q: nat, i: nat :: q < |all| && i < |after| && InBlock(size, q, offset) ==>
         after[i] ==
           if i < length && InBlock(size, q, offset + i) && all[q] != 0 then BlockByte(d, size, all[q], q, offset + i)
           else before[i]
  }

  // The block of a byte of the file, and the place of the byte in it.
  function BlockAt(size: nat, offset: nat): nat
    requires size > 0
  {
    offset / size
  }

  function Within(size: nat, offset: nat): (w: nat)
    requires size > 0
    ensures w < size
  {
    offset % size
  }

  lemma PlaceOf(size: nat, offset: nat)
    requires size > 0
    ensures BlockAt(size, offset) * size + Within(size, offset) == offset
  {
    DivMod(offset, size);
    Commute(size, offset / size);
  }

  // A byte lies in one block.
  lemma OneBlock(size: nat, q: nat, w: nat, x: nat)
    requires x == q * size + w && w < size
    ensures InBlock(size, q, x) && forall r: nat :: InBlock(size, r, x) ==> r == q
  {
    Commute(q, size);
    Next(q, size);
    forall r: nat | InBlock(size, r, x) ensures r == q {
      Next(r, size);
      if r < q { MulOrder(size, r + 1, q); Commute(r + 1, size); }
      if q < r { MulOrder(size, q + 1, r); Commute(q + 1, size); Commute(r, size); }
    }
  }

  lemma Next(q: nat, size: nat)
    ensures (q + 1) * size == q * size + size
  {
  }

  // One chunk of the block of `offset`, put into the buffer.
  lemma ReadFirstBy(d: Device, size: nat, all: seq<nat>, before: seq<bv8>, after: seq<bv8>, data: seq<bv8>,
                    length: nat, offset: nat, k: nat, w: nat)
    requires offset == k * size + w && w < size && k < |all| && all[k] != 0 && length <= |before|
    requires |data| == Min(size - w, length) && after == data + before[|data|..]
    requires forall i :: 0 <= i < |data| ==> data[i] == d.disk(d.start * d.blockSize + (all[k] * size + w) + i)
    ensures ReadFirst(d, size, all, before, after, length, offset)
  {
    hide InBlock, BlockByte;
    OneBlock(size, k, w, offset);
    forall q: nat, i: nat | q < |all| && i < |after| && InBlock(size, q, offset)
      ensures after[i] ==
        if i < length && InBlock(size, q, offset + i) && all[q] != 0 then BlockByte(d, size, all[q], q, offset + i)
        else before[i]
    {
      SameBlock(size, k, w, i);
      if i < |data| { BlockByteIs(d, size, all[k], k, w, i); }
    }
  }

  lemma SameBlock(size: nat, k: nat, w: nat, i: nat)
    requires w < size
    ensures InBlock(size, k, k * size + w + i) <==> w + i < size
  {
    Next(k, size);
  }

  lemma BlockByteIs(d: Device, size: nat, block: nat, k: nat, w: nat, i: nat)
    ensures BlockByte(d, size, block, k, k * size + w + i) == d.disk(d.start * d.blockSize + (block * size + w) + i)
  {
  }

  // A hole, or nothing to read.
  lemma ReadFirstNone(d: Device, size: nat, all: seq<nat>, before: seq<bv8>, length: nat, offset: nat, k: nat, w: nat)
    requires offset == k * size + w && w < size && (length == 0 || (k < |all| && all[k] == 0))
    ensures ReadFirst(d, size, all, before, before, length, offset)
  {
    hide InBlock, BlockByte;
    OneBlock(size, k, w, offset);
  }

  lemma FileReach(d: Device, size: nat, blocks: seq<nat>)
    requires |blocks| == DIRECT_BLOCKS + 3
    ensures |FileBlocks(d, size, blocks)| == Reach(size)
  {
    hide FileBlocks, Reach;
    FileLength(d, size, blocks, size / 4, (size / 4) * (size / 4));
  }

  // ext2_read_inode. None stands for its error for reads beyond the end of the file.
  method ReadInode(d: Device, size: nat, blocks: seq<nat>, fileSize: nat, buffer: array<bv8>, length: nat, offset: nat)
    returns (r: Option<nat>)
    requires Suitable(d) && 4 <= size < 0x4_0000 && |blocks| == DIRECT_BLOCKS + 3 && length <= buffer.Length
    requires Holds(d, size, blocks, fileSize)
    modifies buffer
    ensures r == if length + offset > fileSize then None else Some(length)
    ensures r.None? || length == 0 ==> buffer[..] == old(buffer[..])
    ensures r.Some? ==>
      ReadFirst(d, size, FileBlocks(d, size, blocks), old(buffer[..]), buffer[..], length, offset)
  {
    hide FileBlocks, Suitable, Reach, Content, BlockAt, Within, ReadFirst, IsBlock;
    if length + offset > fileSize { return None; }
    ghost var all := FileBlocks(d, size, blocks);
    FileReach(d, size, blocks);
    ghost var k, w := BlockAt(size, offset), Within(size, offset);
    PlaceOf(size, offset);
    if length == 0 { ReadFirstNone(d, size, all, buffer[..], length, offset, k, w); }
    var remaining, at := length, offset;
    while remaining > 0
      invariant remaining == length || remaining == 0
      invariant remaining > 0 ==> at == offset
      invariant remaining > 0 || length == 0 ==> buffer[..] == old(buffer[..])
      invariant remaining == 0 ==> ReadFirst(d, size, all, old(buffer[..]), buffer[..], length, offset)
    {
      var index, within := BlockAt(size, at), Within(size, at);
      InReach(at, size, Reach(size), fileSize);
      var chunk := Min(size - within, remaining);
      var block := BlockIndex(d, size, blocks, index);
      if block == 0 {
        ReadFirstNone(d, size, all, buffer[..], length, offset, k, w);
        return Some(length);
      }
      var data := FsReadBytes(d, chunk, block * size + within);
      CopyIn(buffer, data);
      ReadFirstBy(d, size, all, old(buffer[..]), buffer[..], data, length, offset, k, w);
      at := at + chunk;
      remaining := remaining - length;
    }
    r := Some(length);
  }

  method CopyIn(buffer: array<bv8>, data: seq<bv8>)
    requires |data| <= buffer.Length
    modifies buffer
    ensures buffer[..] == data + old(buffer[..])[|data|..]
  {
    for i := 0 to |data|
      invariant forall j :: 0 <= j < i ==> buffer[j] == data[j]
      invariant forall j :: i <= j < buffer.Length ==> buffer[j] == old(buffer[j])
    {
      buffer[i] := data[i];
    }
  }

  lemma InReach(x: nat, size: nat, n: nat, end: nat)
    requires size > 0 && x < end <= n * size
    ensures BlockAt(size, x) < n
  {
    DivMod(x, size);
    Commute(n, size);
    if n <= x / size { MulOrder(size, n, x / size); }
  }

  // A read delivers the file's bytes into every buffer exactly when it stays inside one
  // block that is present.
  lemma ReadExact(d: Device, size: nat, all: seq<nat>, length: nat, offset: nat)
    requires size > 0 && offset + length <= |all| * size
    ensures
      (forall before: seq<bv8>, after: seq<bv8> ::
         |before| == length && ReadFirst(d, size, all, before, after, length, offset) ==>
           IsFile(d, size, all, offset, after))
      <==> length == 0 || OneChunk(size, all, length, offset)
  {
    hide ReadFirst, IsFile;
    if length > 0 && !OneChunk(size, all, length, offset) {
      var before, after := Unread(d, size, all, length, offset);
    }
    if length == 0 || OneChunk(size, all, length, offset) {
      forall before: seq<bv8>, after: seq<bv8>
        | |before| == length && ReadFirst(d, size, all, before, after, length, offset)
        ensures IsFile(d, size, all, offset, after)
      {
        ReadWhole(d, size, all, before, after, length, offset);
      }
    }
  }

  // The bytes from `offset` on lie in one block that is present.
  ghost predicate OneChunk(size: nat, all: seq<nat>, length: nat, offset: nat) {
    exists q: nat :: q < |all| && all[q] != 0 && InBlock(size, q, offset) && offset + length <= (q + 1) * size
  }

  lemma ReadWhole(d: Device, size: nat, all: seq<nat>, before: seq<bv8>, after: seq<bv8>, length: nat, offset: nat)
    requires size > 0 && |before| == length && ReadFirst(d, size, all, before, after, length, offset)
    requires length == 0 || OneChunk(size, all, length, offset)
    ensures IsFile(d, size, all, offset, after)
  {
    hide BlockByte;
    if length > 0 {
      var k: nat :| k < |all| && all[k] != 0 && InBlock(size, k, offset) && offset + length <= (k + 1) * size;
      forall q: nat, i: nat | q < |all| && i < |after| && InBlock(size, q, offset + i)
        ensures after[i] == if all[q] == 0 then 0 else BlockByte(d, size, all[q], q, offset + i)
      {
        Next(k, size);
        OneBlock(size, k, offset + i - k * size, offset + i);
      }
    }
  }

  // A buffer that a read beyond one block, or of a hole, leaves wrong.
  lemma Unread(d: Device, size: nat, all: seq<nat>, length: nat, offset: nat)
    returns (before: seq<bv8>, after: seq<bv8>)
    requires size > 0 && 0 < length && offset + length <= |all| * size && !OneChunk(size, all, length, offset)
    ensures |before| == length && ReadFirst(d, size, all, before, after, length, offset)
    ensures !IsFile(d, size, all, offset, after)
  {
    hide ReadFirst, IsFile, BlockByte, OneChunk, InBlock, BlockAt, Within;
    var k, w := BlockAt(size, offset), Within(size, offset);
    PlaceOf(size, offset);
    InReach(offset, size, |all|, offset + length);
    if all[k] == 0 {
      before, after := UnreadHole(d, size, all, length, offset, k, w);
    } else {
      before, after := UnreadRest(d, size, all, length, offset, k, w);
    }
  }

  lemma UnreadHole(d: Device, size: nat, all: seq<nat>, length: nat, offset: nat, k: nat, w: nat)
    returns (before: seq<bv8>, after: seq<bv8>)
    requires 0 < length && offset == k * size + w && w < size && k < |all| && all[k] == 0
    ensures |before| == length && ReadFirst(d, size, all, before, after, length, offset)
    ensures !IsFile(d, size, all, offset, after)
  {
    hide ReadFirst, IsFile, InBlock;
    before := seq(length, i requires 0 <= i < length => 1);
    after := before;
    ReadFirstNone(d, size, all, before, length, offset, k, w);
    OneBlock(size, k, w, offset);
    NotFile(d, size, all, offset, after, k, 0);
  }

  lemma UnreadRest(d: Device, size: nat, all: seq<nat>, length: nat, offset: nat, k: nat, w: nat)
    returns (before: seq<bv8>, after: seq<bv8>)
    requires 0 < length && offset + length <= |all| * size && !OneChunk(size, all, length, offset)
    requires offset == k * size + w && w < size && k < |all| && all[k] != 0
    ensures |before| == length && ReadFirst(d, size, all, before, after, length, offset)
    ensures !IsFile(d, size, all, offset, after)
  {
    hide ReadFirst, IsFile, BlockByte, OneChunk, InBlock, BlockAt, Within;
    var last := offset + (length - 1);
    var q, v := BlockAt(size, last), Within(size, last);
    PlaceOf(size, last);
    InReach(last, size, |all|, offset + length);
    OneBlock(size, q, v, last);
    var want := ByteOf(d, size, all, q, last);
    ShortChunk(size, all, length, offset, k, w);
    before := seq(length, i requires 0 <= i < length => Other(want));
    var data := Fetched(d, all[k] * size + w, size - w);
    after := data + before[size - w..];
    ReadFirstBy(d, size, all, before, after, data, length, offset, k, w);
    assert after[length - 1] == Other(want);
    NotFile(d, size, all, offset, after, q, length - 1);
  }

  ghost function ByteOf(d: Device, size: nat, all: seq<nat>, q: nat, x: nat): bv8
    requires q < |all| && InBlock(size, q, x)
  {
    if all[q] == 0 then 0 else BlockByte(d, size, all[q], q, x)
  }

  ghost function Fetched(d: Device, at: nat, n: nat): (s: seq<bv8>)
    ensures |s| == n && forall i :: 0 <= i < n ==> s[i] == d.disk(d.start * d.blockSize + at + i)
  {
    Content(d, at, n)
  }

  lemma NotFile(d: Device, size: nat, all: seq<nat>, offset: nat, s: seq<bv8>, q: nat, i: nat)
    requires q < |all| && i < |s| && InBlock(size, q, offset + i)
    requires s[i] != if all[q] == 0 then 0 else BlockByte(d, size, all[q], q, offset + i)
    ensures !IsFile(d, size, all, offset, s)
  {
    hide BlockByte, InBlock;
  }

  lemma ShortChunk(size: nat, all: seq<nat>, length: nat, offset: nat, k: nat, w: nat)
    requires offset == k * size + w && w < size && k < |all| && all[k] != 0 && !OneChunk(size, all, length, offset)
    ensures size - w < length
  {
    OneBlock(size, k, w, offset);
    Next(k, size);
  }

  function Other(b: bv8): (c: bv8)
    ensures c != b
  {
    if b == 0 then 1 else 0
  }
}
