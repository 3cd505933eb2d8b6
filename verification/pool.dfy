/** The block pool of sfpool.h: a free list threaded through the pool's own
    memory, beside the system allocator. */
module Pool {
  import opened Bits
  import opened Numbers

  const WORD := 8
  const LUA_TUSERDATA := 7
  const ADDRESSES := 0x1_0000_0000_0000_0000
  const SIZE_MAX := 0xFFFF_FFFF_FFFF_FFFF

  // ------------------------------------------------------------- link words

  // A pointer stored in memory, least significant byte first.
  function Le(s: seq<Byte>): nat {
    if s == [] then 0 else s[0] + 256 * Le(s[1..])
  }

  function LeBytes(v: nat, n: nat): (s: seq<Byte>)
    ensures |s| == n
    decreases n
  {
    if n == 0 then [] else [v % 256] + LeBytes(v / 256, n - 1)
  }

  lemma {:induction false} LeRoundTrip(v: nat, n: nat)
    requires v < Pow(256, n)
    ensures Le(LeBytes(v, n)) == v
    decreases n
  {
    if n != 0 {
      LeRoundTrip(v / 256, n - 1);
      assert LeBytes(v, n)[1..] == LeBytes(v / 256, n - 1);
    }
  }

  lemma AddressFits(v: nat)
    requires v < ADDRESSES
    ensures v < Pow(256, WORD)
  {
    Pow2At8();
    Pow2At32();
    PowAdd(2, 32, 32);
    PowMul(2, 8, 8);
  }

  // ----------------------------------------------------------------- blocks

  // Where block k starts.
  function Off(k: nat, size: nat): nat {
    k * size
  }

  lemma BlockInside(k: nat, n: nat, size: nat)
    requires k < n
    ensures Off(k, size) + size <= Off(n, size)
  {
    MulLe(k + 1, n, size);
  }

  lemma BlocksApart(j: nat, k: nat, size: nat)
    requires j != k
    ensures Off(j, size) + size <= Off(k, size) || Off(k, size) + size <= Off(j, size)
  {
    if j < k { MulLe(j + 1, k, size); } else { MulLe(k + 1, j, size); }
  }

  lemma BlockAligned(k: nat, size: nat)
    requires size % WORD == 0
    ensures Off(k, size) % WORD == 0
  {
    var q := size / WORD;
    assert k * (WORD * q) == WORD * (k * q);
  }

  // The block a pool address belongs to, when it is one of block k's.
  lemma BlockOf(k: nat, size: nat, x: nat)
    requires size > 0 && x < size
    ensures (Off(k, size) + x) / size == k
  {
    DivModUnique(Off(k, size) + x, size, k, x);
  }

  // --------------------------------------------------------- the free list

  ghost function Link(m: seq<Byte>, off: nat): nat
    requires off + WORD <= |m|
  {
    Le(m[off..off + WORD])
  }

  // The address of the i-th block of a list, NULL past its end.
  ghost function Address(free: seq<nat>, i: nat, data: nat, size: nat): nat {
    if i < |free| then data + Off(free[i], size) else 0
  }

  // The blocks of the list, each one's link word naming the next.
  ghost predicate Chain(m: seq<Byte>, free: seq<nat>, data: nat, size: nat) {
    forall i :: 0 <= i < |free| ==>
      Off(free[i], size) + WORD <= |m| && Link(m, Off(free[i], size)) == Address(free, i + 1, data, size)
  }

  ghost predicate Distinct(s: seq<nat>) {
    forall i, j :: 0 <= i < j < |s| ==> s[i] != s[j]
  }

  lemma ChainPop(m: seq<Byte>, free: seq<nat>, data: nat, size: nat)
    requires Chain(m, free, data, size) && free != []
    ensures Chain(m, free[1..], data, size)
    ensures Off(free[0], size) + WORD <= |m|
    ensures Link(m, Off(free[0], size)) == Address(free[1..], 0, data, size)
  {
    var rest := free[1..];
    forall i | 0 <= i < |rest|
      ensures Off(rest[i], size) + WORD <= |m| && Link(m, Off(rest[i], size)) == Address(rest, i + 1, data, size)
    {
      assert rest[i] == free[i + 1];
    }
  }

  // Outside the block of k nothing has changed.
  ghost predicate SameElsewhere(m: seq<Byte>, m': seq<Byte>, k: nat, size: nat) {
    |m| == |m'| && forall x :: 0 <= x < |m| && !(Off(k, size) <= x < Off(k, size) + size) ==> m[x] == m'[x]
  }

  // What happens inside a block that is not on the list, or not scrubbed, does
  // not concern the others.
  lemma ChainKept(m: seq<Byte>, m': seq<Byte>, free: seq<nat>, k: nat, data: nat, size: nat)
    requires Chain(m, free, data, size) && k !in free && size >= WORD && SameElsewhere(m, m', k, size)
    ensures Chain(m', free, data, size)
  {
    hide Off, Le;
    forall i | 0 <= i < |free|
      ensures Off(free[i], size) + WORD <= |m'| && Link(m', Off(free[i], size)) == Address(free, i + 1, data, size)
    {
      var j := free[i];
      BlocksApart(j, k, size);
      assert m[Off(j, size)..Off(j, size) + WORD] == m'[Off(j, size)..Off(j, size) + WORD];
    }
  }

  lemma ChainPush(m: seq<Byte>, m': seq<Byte>, free: seq<nat>, k: nat, data: nat, size: nat)
    requires Chain(m, free, data, size) && k !in free && size >= WORD
    requires SameElsewhere(m, m', k, size) && Off(k, size) + size <= |m|
    requires Link(m', Off(k, size)) == Address(free, 0, data, size)
    ensures Chain(m', [k] + free, data, size)
  {
    hide Off, Link;
    ChainKept(m, m', free, k, data, size);
    var list := [k] + free;
    forall i | 0 <= i < |list|
      ensures Off(list[i], size) + WORD <= |m'| && Link(m', Off(list[i], size)) == Address(list, i + 1, data, size)
    {
      if i > 0 { assert list[i] == free[i - 1]; }
    }
  }

  // A block whose bytes past the link word are all zero.
  ghost predicate CleanBlock(m: seq<Byte>, off: nat, size: nat) {
    forall x :: off + WORD <= x < off + size && x < |m| ==> m[x] == 0
  }

  lemma CleanIs(m: seq<Byte>, off: nat, size: nat)
    requires off + size <= |m|
    ensures CleanBlock(m, off, size) <==> forall x :: off + 8 <= x < off + size ==> m[x] == 0
  {
  }

  ghost predicate Clean(m: seq<Byte>, blocks: set<nat>, size: nat) {
    forall k :: k in blocks ==> CleanBlock(m, Off(k, size), size)
  }

  lemma CleanKept(m: seq<Byte>, m': seq<Byte>, blocks: set<nat>, k: nat, size: nat)
    requires Clean(m, blocks, size) && k !in blocks && SameElsewhere(m, m', k, size)
    ensures Clean(m', blocks, size)
  {
    hide Off;
    forall j | j in blocks ensures CleanBlock(m', Off(j, size), size) {
      BlocksApart(j, k, size);
      assert CleanBlock(m, Off(j, size), size);
    }
  }

  lemma CleanPush(m: seq<Byte>, m': seq<Byte>, blocks: set<nat>, k: nat, size: nat)
    requires Clean(m, blocks, size) && k !in blocks && SameElsewhere(m, m', k, size)
    requires CleanBlock(m', Off(k, size), size)
    ensures Clean(m', blocks + {k}, size)
  {
    hide Off, CleanBlock;
    CleanKept(m, m', blocks, k, size);
  }

  // Free and live blocks are all the blocks, each once.
  ghost predicate Partition(free: seq<nat>, live: set<nat>, n: nat) {
    && Distinct(free) && |free| + |live| == n
    && (forall k :: k in live ==> k < n && k !in free)
    && (forall k :: k in free ==> k < n)
    && (forall k {:trigger k in live} {:trigger k in free} :: 0 <= k < n ==> k in free || k in live)
  }

  lemma PartitionPop(free: seq<nat>, live: set<nat>, n: nat)
    requires Partition(free, live, n) && free != []
    ensures Partition(free[1..], live + {free[0]}, n)
  {
    var rest := free[1..];
    assert forall i :: 0 <= i < |rest| ==> rest[i] == free[i + 1];
    assert free[0] !in rest && free[0] !in live;
    assert forall k :: k in free <==> k == free[0] || k in rest;
    assert |live + {free[0]}| == |live| + 1;
  }

  lemma PartitionPush(free: seq<nat>, live: set<nat>, n: nat, k: nat)
    requires Partition(free, live, n) && k in live
    ensures Partition([k] + free, live - {k}, n)
  {
    var list := [k] + free;
    assert forall i :: 0 < i < |list| ==> list[i] == free[i - 1];
    assert forall j :: j in list <==> j == k || j in free;
    assert |live - {k}| == |live| - 1;
  }

  // A power of two from 8 on is a multiple of 8.
  lemma PowerOfTwoAligned(x: nat)
    requires x >= 8 && BitAnd(x, x - 1) == 0
    ensures x % 8 == 0
  {
    assert Two(3) == 8;
    PowerOfTwoMultiple(x, 3);
  }

  // The bit test leaves powers of two only: each divides all larger ones.
  lemma {:induction false} PowerOfTwoMultiple(x: nat, k: nat)
    requires x >= Two(k) && BitAnd(x, x - 1) == 0
    ensures x % Two(k) == 0
  {
    if k > 0 {
      PowStep(2, k - 1);
      TwoAdd(1, k - 1);
      HalvePower(x);
      PowerOfTwoMultiple(x / 2, k - 1);
      DoubleMultiple(x, Two(k - 1));
    }
  }

  lemma DoubleMultiple(x: nat, p: nat)
    requires p > 0 && x % 2 == 0 && (x / 2) % p == 0
    ensures x % (2 * p) == 0
  {
    DivMod(x / 2, p);
    assert x == (2 * p) * (x / 2 / p);
    DivModUnique(x, 2 * p, x / 2 / p, 0);
  }

  lemma HalvePower(x: nat)
    requires x > 1 && BitAnd(x, x - 1) == 0
    ensures x % 2 == 0 && BitAnd(x / 2, x / 2 - 1) == 0
  {
    hide BitAnd;
    AndStep(x, x - 1);
    if x % 2 == 1 {
      assert (x - 1) / 2 == x / 2;
      AndSelf(x / 2);
    } else {
      assert (x - 1) / 2 == x / 2 - 1;
    }
  }

  lemma AndStep(x: nat, y: nat)
    requires x > 0 && y > 0
    ensures BitAnd(x, y) >= 2 * BitAnd(x / 2, y / 2)
  {
  }

  lemma {:induction false} AndSelf(x: nat)
    ensures BitAnd(x, x) == x
  {
    if x != 0 { AndSelf(x / 2); }
  }

  // The initial list: every block, in order.
  ghost function Upto(n: nat): (s: seq<nat>)
    ensures |s| == n && forall i :: 0 <= i < n ==> s[i] == i
  {
    seq(n, i => i)
  }

  lemma AllFree(n: nat)
    ensures Partition(Upto(n), {}, n)
  {
    forall k | 0 <= k < n ensures k in Upto(n) { assert Upto(n)[k] == k; }
  }

  lemma NothingChained(m: seq<Byte>, data: nat, size: nat)
    ensures Chain(m, [], data, size) && Partition([], {}, 0) && Clean(m, {}, size)
  {
  }

  // *(uint8_t **)(mem + off) = v
  method StoreLink(mem: array<Byte>, off: nat, v: nat)
    requires off + WORD <= mem.Length && v < ADDRESSES
    modifies mem
    ensures Link(mem[..], off) == v
    ensures forall x :: 0 <= x < mem.Length && !(off <= x < off + WORD) ==> mem[x] == old(mem[x])
  {
    hide LeBytes, Le;
    ghost var bytes := LeBytes(v, WORD);
    AddressFits(v);
    LeRoundTrip(v, WORD);
    var i := 0;
    while i < WORD
      invariant 0 <= i <= WORD
      invariant forall x :: 0 <= x < i ==> mem[off + x] == bytes[x]
      invariant forall x :: 0 <= x < mem.Length && !(off <= x < off + i) ==> mem[x] == old(mem[x])
    {
      mem[off + i] := LeBytes(v, WORD)[i];
      i := i + 1;
    }
    assert mem[..][off..off + WORD] == bytes;
  }

  // *(uint8_t **)(mem + off)
  method LoadLink(mem: array<Byte>, off: nat) returns (v: nat)
    requires off + WORD <= mem.Length
    ensures v == Link(mem[..], off)
  {
    v := 0;
    var i := WORD;
    assert mem[..][off..off + WORD][WORD..] == [];
    while i > 0
      invariant 0 <= i <= WORD && v == Le(mem[..][off..off + WORD][i..])
    {
      i := i - 1;
      assert mem[..][off..off + WORD][i..][1..] == mem[..][off..off + WORD][i + 1..];
      v := mem[off + i] + 256 * v;
    }
    assert mem[..][off..off + WORD][0..] == mem[..][off..off + WORD];
  }

  // sfutil_zero
  method Zero(mem: array<Byte>, off: nat, size: nat)
    requires off + size <= mem.Length
    modifies mem
    ensures forall x :: off <= x < off + size ==> mem[x] == 0
    ensures forall x :: 0 <= x < mem.Length && !(off <= x < off + size) ==> mem[x] == old(mem[x])
  {
    for i := 0 to size
      invariant forall x :: off <= x < off + i ==> mem[x] == 0
      invariant forall x :: 0 <= x < mem.Length && !(off <= x < off + i) ==> mem[x] == old(mem[x])
    {
      mem[off + i] := 0;
    }
  }

  // Threads the initial free list through the blocks, in order, as long as no
  // 32-bit counter wraps.
  method Thread(mem: array<Byte>, data: nat, n: nat, size: nat)
    requires n > 0 && size >= WORD && mem.Length == Off(n, size) && data + Off(n, size) <= ADDRESSES
    modifies mem
    ensures Off(n, size) < B ==> Chain(mem[..], Upto(n), data, size)
  {
    hide Off, Link;
    var totalBlocks := n % B;
    var last := (totalBlocks - 1) % B;
    LastBlock(n, size);
    var i := 0;
    while i < last
      invariant 0 <= i <= last
      invariant Off(n, size) < B ==> forall k :: 0 <= k < i ==> LinksOn(mem[..], k, data, size)
    {
      ghost var before := mem[..];
      var bi := (i * size) % B;
      WrappedOffset(i, last, n, size);
      StoreLink(mem, bi, data + bi + size);
      if Off(n, size) < B { LinksKept(before, mem[..], i, data, size); }
      i := i + 1;
    }
    BlockInside(last, n, size);
    ghost var before := mem[..];
    OffStep(last, size);
    StoreLink(mem, last * size, 0);
    if Off(n, size) < B {
      LinksKept(before, mem[..], last, data, size);
      ThreadedChain(mem[..], data, n, size);
    }
  }

  lemma LastBlock(n: nat, size: nat)
    requires n > 0 && size >= WORD
    ensures 0 <= n % B && 0 <= (n % B - 1) % B < n
    ensures Off(n, size) < B ==> n < B && (n % B - 1) % B == n - 1
  {
    MulLe(1, size, n);
    assert n * size == size * n;
    DivMod(n, B);
    if n % B == 0 {
      assert n >= B by { if n < B { ModSmall(n, B); } }
      DivModUnique(-1, B, -1, B - 1);
    } else {
      if n < B { ModSmall(n, B); }
      ModSmall(n % B - 1, B);
    }
  }

  lemma WrappedOffset(i: nat, last: nat, n: nat, size: nat)
    requires i < last < n && size > 0
    ensures 0 <= (i * size) % B && (i * size) % B + 2 * size <= Off(n, size)
    ensures Off(n, size) < B ==> (i * size) % B == Off(i, size) && Off(i + 1, size) == Off(i, size) + size
  {
    MulLe(0, i, size);
    MulLe(i + 2, n, size);
    assert (i + 2) * size == i * size + 2 * size;
    DivMod(i * size, B);
    if i * size < B { ModSmall(i * size, B); }
  }

  // The link word of block k names the next block.
  ghost predicate LinksOn(m: seq<Byte>, k: nat, data: nat, size: nat) {
    Off(k, size) + WORD <= |m| && Link(m, Off(k, size)) == data + Off(k + 1, size)
  }

  lemma OffStep(i: nat, size: nat)
    ensures Off(i + 1, size) == i * size + size && Off(i, size) == i * size
  {
  }

  lemma LinksKept(before: seq<Byte>, m: seq<Byte>, i: nat, data: nat, size: nat)
    requires size >= WORD && |before| == |m|
    requires forall k :: 0 <= k < i ==> LinksOn(before, k, data, size)
    requires forall x :: 0 <= x < |m| && !(Off(i, size) <= x < Off(i, size) + WORD) ==> m[x] == before[x]
    ensures forall k :: 0 <= k < i ==> LinksOn(m, k, data, size)
  {
    hide Off;
    forall k | 0 <= k < i ensures LinksOn(m, k, data, size) {
      assert LinksOn(before, k, data, size);
      BlocksApart(k, i, size);
      assert m[Off(k, size)..Off(k, size) + WORD] == before[Off(k, size)..Off(k, size) + WORD];
    }
  }

  lemma ThreadedChain(m: seq<Byte>, data: nat, n: nat, size: nat)
    requires n > 0 && forall k :: 0 <= k < n - 1 ==> LinksOn(m, k, data, size)
    requires Off(n - 1, size) + WORD <= |m| && Link(m, Off(n - 1, size)) == 0
    ensures Chain(m, Upto(n), data, size)
  {
    hide Off, Link;
    var free := Upto(n);
    forall i | 0 <= i < n
      ensures Off(free[i], size) + WORD <= |m| && Link(m, Off(free[i], size)) == Address(free, i + 1, data, size)
    {
      assert free[i] == i;
      if i < n - 1 {
        assert LinksOn(m, i, data, size) && free[i + 1] == i + 1;
      }
    }
  }

  // The pool's length is kept in 32 bits: the range test sees every block
  // exactly when the length fits.
  lemma RangeTestIff(n: nat, size: nat)
    requires n > 0 && GoodSize(size)
    ensures (forall k :: 0 <= k < n ==> Off(k, size) < Off(n, size) % B) <==> Off(n, size) < B
  {
    hide Off, BitAnd;
    var total := Off(n, size);
    DivMod(total, B);
    if total < B {
      ModSmall(total, B);
      forall k | 0 <= k < n ensures Off(k, size) < total % B { BlockInside(k, n, size); }
    } else if size < B {
      OffStep(n - 1, size);
      assert total / B >= 1;
      assert Off(n - 1, size) >= total % B;
    } else {
      Pow2At32();
      PowerOfTwoMultiple(size, 32);
      WholeMultiple(n, size);
      assert Off(0, size) >= total % B;
    }
  }

  // A pool of 2^26 blocks of 64 bytes is taken, but no address is inside it.
  lemma TooLarge()
    ensures GoodSize(64) && Off(0x400_0000, 64) == B
    ensures Off(0, 64) >= Off(0x400_0000, 64) % B
  {
    hide BitAnd;
    assert Two(6) == Pow(2, 6) == 64;
    AndOnes(64, 6);
    DivModUnique(B, B, 1, 0);
  }

  lemma WholeMultiple(n: nat, size: nat)
    requires size % B == 0
    ensures Off(n, size) % B == 0
  {
    DivMod(size, B);
    assert n * size == B * (n * (size / B));
    DivModUnique(n * size, B, n * (size / B), 0);
  }

  // Rounding up to the next multiple of 8.
  function Align(p: nat): nat {
    (p + 7) / 8 * 8
  }

  lemma AlignUp(p: nat)
    ensures p <= Align(p) < p + WORD && Align(p) % WORD == 0
  {
  }

  // The sizes sfpool_init takes: a power of two that holds a pointer.
  predicate GoodSize(blocksize: nat) {
    blocksize >= WORD && BitAnd(blocksize, blocksize - 1) == 0
  }

  // These are the powers of two from 8 on.
  lemma {:induction false} GoodSizeIff(blocksize: nat)
    ensures GoodSize(blocksize) <==> exists k: nat :: k >= 3 && blocksize == Two(k)
  {
    hide BitAnd;
    assert Two(3) == 8;
    if GoodSize(blocksize) {
      var k := Exponent(blocksize);
      if k < 3 { PowMonotone(2, k, 2); }
    }
    forall k: nat | k >= 3 && blocksize == Two(k) ensures GoodSize(blocksize) {
      PowMonotone(2, 3, k);
      AndOnes(blocksize, k);
      DivModUnique(blocksize, blocksize, 1, 0);
    }
  }

  lemma {:induction false} Exponent(x: nat) returns (k: nat)
    requires x >= 1 && BitAnd(x, x - 1) == 0
    ensures x == Two(k)
  {
    hide BitAnd;
    if x == 1 {
      k := 0;
    } else {
      HalvePower(x);
      k := Exponent(x / 2);
      PowStep(2, k);
      k := k + 1;
    }
  }

  lemma PositiveSize(n: nat, size: nat)
    requires n > 0 && size > 0
    ensures n * size == Off(n, size) > 0
  {
    MulLe(1, n, size);
  }

  // The division test for an overflow of the product.
  lemma ProductFits(n: nat, size: nat)
    requires size > 0
    ensures n > SIZE_MAX / size <==> Off(n, size) > SIZE_MAX
  {
    var q := SIZE_MAX / size;
    DivMod(SIZE_MAX, size);
    if n > q {
      MulLe(q + 1, n, size);
      assert (q + 1) * size == q * size + size;
    } else {
      MulLe(n, q, size);
    }
  }

  // Below 2^32 bytes no field truncates.
  lemma FieldsFit(n: nat, size: nat)
    requires n > 0 && size > 0 && Off(n, size) < B
    ensures n % B == n && size % B == size && Off(n, size) % B == Off(n, size)
  {
    MulLe(1, n, size);
    MulLe(1, size, n);
    ModSmall(n, B);
    ModSmall(size, B);
    ModSmall(Off(n, size), B);
  }

  lemma FirstAddress(n: nat, data: nat, size: nat)
    requires n > 0
    ensures Address(Upto(n), 0, data, size) == data
  {
  }

  function Stored(s: seq<Byte>, i: nat, b: Byte): (t: seq<Byte>)
    requires i < |s|
  {
    s[i := b]
  }

  // n bytes from p on that share nothing with the size bytes from q on.
  predicate Beside(p: nat, n: nat, q: nat, size: nat) {
    p != 0 && (q + size <= p || (p < q && p + n <= q))
  }

  class Sfpool {
    var buffer: nat
    var data: nat
    var freeList: nat
    var freeCount: nat
    var totalBlocks: nat
    var totalBytes: nat
    var blockSize: nat
    // The bytes from data on.
    var mem: array<Byte>
    // The live blocks of the system allocator, by address, with their contents.
    var heap: map<nat, seq<Byte>>

    // The blocks on the free list in order, the blocks handed out, and the
    // blocks given back since the pool was set up.
    ghost var free: seq<nat>
    ghost var live: set<nat>
    ghost var scrubbed: set<nat>

    ghost predicate Geometry()
      reads this
    {
      && mem.Length == totalBytes == Off(totalBlocks, blockSize)
      && (buffer == 0 ==> totalBlocks == 0 && data == 0)
      && (buffer != 0 ==> data > 0 && data % WORD == 0 && blockSize >= WORD && blockSize % WORD == 0 && totalBlocks > 0)
      && totalBytes < B && data + totalBytes <= ADDRESSES
    }

    // _is_in_pool
    predicate InPool(p: nat)
      reads this`data, this`totalBytes
    {
      data <= p < data + totalBytes
    }

    // n bytes from p on that share nothing with the pool.
    predicate Outside(p: nat, n: nat)
      reads this`data, this`totalBytes
    {
      Beside(p, n, data, totalBytes)
    }

    ghost predicate Valid()
      reads this, mem
    {
      && Geometry() && freeList == Address(free, 0, data, blockSize) && freeCount == |free|
      && Chain(mem[..], free, data, blockSize) && Partition(free, live, totalBlocks)
      && Clean(mem[..], scrubbed, blockSize) && (forall k :: k in scrubbed ==> k in free)
      && forall p :: p in heap ==> Outside(p, |heap[p]|)
    }

    // Where the block with this index starts.
    ghost function Start(k: nat): nat
      reads this`data, this`blockSize
    {
      data + Off(k, blockSize)
    }

    // The start of a pool block that was handed out.
    ghost predicate HandedOut(p: nat)
      reads this`live, this`data, this`blockSize
    {
      exists k :: k in live && p == Start(k)
    }

    // A pointer some caller holds: a system block or a pool block.
    ghost predicate Live(p: nat)
      reads this
    {
      p in heap || HandedOut(p)
    }

    lemma HandedOutInside(p: nat)
      requires Valid() && HandedOut(p)
      ensures p !in heap && InPool(p) && p != 0
    {
      hide Chain, Clean, Link, Distinct, Partition, Off;
      var k :| k in live && p == Start(k);
      LiveBlock(k);
    }

    // The bytes behind such a pointer.
    ghost function Content(p: nat): seq<Byte>
      reads this, mem
      requires Valid() && Live(p)
    {
      if p in heap then heap[p]
      else
        LiveInside(p);
        mem[p - data..p - data + blockSize]
    }

    // Pool blocks handed out lie inside the pool, on an 8-byte boundary.
    lemma LiveInside(p: nat)
      requires Valid() && Live(p) && p !in heap
      ensures InPool(p) && p - data + blockSize <= totalBytes && p % WORD == 0 && p != 0 && buffer != 0
    {
      hide Chain, Clean, Link, Partition, Off;
      var k :| k in live && p == Start(k);
      LiveBlock(k);
    }

    constructor ()
      ensures Valid() && heap == map[] && buffer == 0 && free == [] && live == {}
    {
      buffer, data, freeList, freeCount, totalBlocks, totalBytes, blockSize := 0, 0, 0, 0, 0, 0, 0;
      mem := new Byte[0];
      heap := map[];
      free, live, scrubbed := [], {}, {};
      new;
      NothingChained(mem[..], 0, 0);
    }

    // sfpool_init, given the address the system returns for the pool. It gives
    // a pool that works when its length fits the 32-bit field.
    method Init(nmemb: nat, blocksize: nat, granted: nat) returns (size: nat)
      requires Valid() && live == {}
      requires granted != 0 ==> granted + Off(nmemb, blocksize) + WORD <= ADDRESSES
      requires granted != 0 ==> forall p :: p in heap ==> Beside(p, |heap[p]|, granted, Off(nmemb, blocksize) + WORD)
      modifies this
      ensures size == 0 || Off(nmemb, blocksize) < B ==> Valid()
      ensures heap == old(heap) && live == {}
      ensures size == if nmemb == 0 || granted == 0 || !GoodSize(blocksize) || Off(nmemb, blocksize) > SIZE_MAX then 0
                      else Off(nmemb, blocksize)
      ensures size == 0 ==> free == [] && buffer == 0
      ensures size != 0 ==> buffer == granted && granted <= data < granted + WORD && freeList == data
      ensures size != 0 ==> totalBytes == size % B && totalBlocks == freeCount == nmemb % B
                            && blockSize == blocksize % B
      ensures size != 0 && Off(nmemb, blocksize) < B ==> free == Upto(nmemb) && blockSize == blocksize
    {
      hide Chain, Clean, Partition, Off, Link, Distinct, BitAnd;
      Clear();
      if nmemb == 0 || blocksize < WORD || BitAnd(blocksize, blocksize - 1) != 0 {
        return 0;
      }
      ProductFits(nmemb, blocksize);
      if nmemb > SIZE_MAX / blocksize {
        return 0;
      }
      size := nmemb * blocksize;
      PositiveSize(nmemb, blocksize);
      if granted == 0 {
        return 0;
      }
      SetUp(nmemb, blocksize, granted);
    }

    // memset(pool, 0, sizeof *pool)
    method Clear()
      requires live == {} && forall p :: p in heap ==> p != 0
      modifies this
      ensures Valid() && heap == old(heap) && live == {} && free == [] && buffer == 0 && scrubbed == {}
    {
      hide Chain, Clean, Partition, Link, Distinct;
      buffer, data, freeList, freeCount, totalBlocks, totalBytes, blockSize := 0, 0, 0, 0, 0, 0, 0;
      mem := new Byte[0];
      free, scrubbed := [], {};
      NothingChained(mem[..], 0, 0);
    }

    method SetUp(nmemb: nat, blocksize: nat, granted: nat)
      requires nmemb > 0 && GoodSize(blocksize) && granted != 0 && live == {} && scrubbed == {}
      requires granted + Off(nmemb, blocksize) + WORD <= ADDRESSES
      requires forall p :: p in heap ==> Beside(p, |heap[p]|, granted, Off(nmemb, blocksize) + WORD)
      modifies this
      ensures Off(nmemb, blocksize) < B ==> Valid() && free == Upto(nmemb) && blockSize == blocksize
      ensures heap == old(heap) && live == {}
      ensures buffer == granted && granted <= data < granted + WORD && freeList == data
      ensures totalBytes == Off(nmemb, blocksize) % B && totalBlocks == freeCount == nmemb % B
                && blockSize == blocksize % B
    {
      hide Chain, Clean, Partition, Off, Link, Distinct, BitAnd;
      PowerOfTwoAligned(blocksize);
      PositiveSize(nmemb, blocksize);
      buffer := granted;
      data := Align(granted);
      totalBytes, totalBlocks, blockSize := (nmemb * blocksize) % B, nmemb % B, blocksize % B;
      mem := new Byte[nmemb * blocksize];
      AlignUp(granted);
      Thread(mem, data, nmemb, blocksize);
      freeList := data;
      freeCount := totalBlocks;
      scrubbed := {};
      if Off(nmemb, blocksize) < B {
        FieldsFit(nmemb, blocksize);
        AllFree(nmemb);
        free := Upto(nmemb);
        FirstAddress(nmemb, data, blocksize);
        NothingChained(mem[..], data, blocksize);
      }
    }

    // The address the system grants, or NULL, and what the block then holds.
    ghost predicate MayGrant(granted: nat, size: nat, content: seq<Byte>)
      reads this
    {
      granted != 0 ==> granted !in heap && Outside(granted, size) && |content| == size
    }

    // What no operation but setting up changes.
    twostate predicate SamePool()
      reads this
    {
      && buffer == old(buffer) && data == old(data) && totalBlocks == old(totalBlocks) && totalBytes == old(totalBytes)
      && blockSize == old(blockSize) && mem == old(mem)
    }

    // malloc, realloc and free of the system, as the map of its blocks sees
    // them: one block is dropped, one is added.
    method System(drop: nat, add: nat, content: seq<Byte>)
      requires Valid() && (add != 0 ==> (add !in heap || add == drop) && Outside(add, |content|))
      requires drop == 0 || drop in heap
      modifies this`heap
      ensures Valid()
      ensures heap == if add == 0 then old(heap) - {drop} else (old(heap) - {drop})[add := content]
      ensures add != 0 && add != drop ==> !old(Live(add))
      ensures forall q: nat :: Live(q) <==> (old(Live(q)) && q != drop) || (q == add && q != 0)
      ensures forall q: nat :: old(Live(q)) && q != drop ==> Live(q) && Content(q) == old(Content(q))
    {
      hide Chain, Clean, Link, Distinct, Partition, Off, HandedOut;
      if add != 0 && HandedOut(add) { HandedOutInside(add); }
      if HandedOut(drop) { HandedOutInside(drop); }
      heap := heap - {drop};
      if add != 0 {
        heap := heap[add := content];
      }
      forall q: nat | old(Live(q)) && q != drop ensures Live(q) && Content(q) == old(Content(q)) {
        if HandedOut(q) { HandedOutInside(q); }
      }
    }

    lemma NullIsNotLive()
      requires Valid()
      ensures !Live(0)
    {
      hide Chain, Clean, Link, Distinct, Partition, Off, HandedOut;
      if HandedOut(0) { HandedOutInside(0); }
    }

    // Whether a request of this size is served from the pool.
    predicate Hit(size: nat)
      reads this
    {
      buffer != 0 && size <= blockSize && freeList != 0
    }

    lemma HitIff(size: nat)
      requires Valid()
      ensures Hit(size) <==> buffer != 0 && size <= blockSize && free != []
    {
      hide Chain, Partition, Clean, Off, Link, Distinct;
      if free != [] && buffer != 0 { assert freeList == Address(free, 0, data, blockSize) >= data; }
    }

    method Malloc(size: nat, granted: nat, content: seq<Byte>) returns (ptr: nat)
      requires Valid() && MayGrant(granted, size, content)
      modifies this
      ensures Valid() && SamePool()
      ensures old(Hit(size)) ==> old(free) != [] && ptr == Start(old(free)[0]) && heap == old(heap)
                                 && free == old(free)[1..] && live == old(live) + {old(free)[0]}
      ensures !old(Hit(size)) ==> ptr == granted && free == old(free) && live == old(live)
                                  && heap == if granted == 0 then old(heap) else old(heap)[granted := content]
      ensures ptr != 0 ==> !old(Live(ptr))
      ensures forall q: nat :: Live(q) <==> old(Live(q)) || (q == ptr && q != 0)
      ensures ptr != 0 ==> |Content(ptr)| >= size
      ensures forall q: nat :: old(Live(q)) ==> Content(q) == old(Content(q))
    {
      hide Chain, Partition, Clean, Off, Link, Distinct;
      if buffer != 0 && size <= blockSize && freeList != 0 {
        ptr := Pop();
        WholeBlock(ptr);
        return;
      }
      ptr := granted;
      System(0, granted, content);
    }

    lemma WholeBlock(p: nat)
      requires Valid() && Live(p) && p !in heap
      ensures |Content(p)| == blockSize
    {
      hide Chain, Clean, Link, Distinct, Partition, Off;
      LiveInside(p);
    }

    // Takes the first block off the free list.
    method Pop() returns (block: nat)
      requires Valid() && freeList != 0
      modifies this
      ensures Valid() && SamePool() && heap == old(heap)
      ensures old(free) != [] && block == Start(old(free)[0]) && free == old(free)[1..]
                && live == old(live) + {old(free)[0]}
      ensures block != 0 && !old(Live(block))
      ensures forall q: nat :: Live(q) <==> old(Live(q)) || q == block
      ensures forall q: nat :: old(Live(q)) ==> Content(q) == old(Content(q))
    {
      hide Chain, Partition, Clean, Off, Link, Distinct;
      ListHead();
      FreeIsNotLive(free[0]);
      block := Unlink();
      KeptByPop();
    }

    method Unlink() returns (block: nat)
      requires Valid() && freeList != 0
      modifies this
      ensures Valid() && SamePool() && heap == old(heap)
      ensures old(free) != [] && block == old(freeList) == Start(old(free)[0]) && free == old(free)[1..]
                && live == old(live) + {old(free)[0]}
    {
      hide Chain, Partition, Clean, Off, Link, Distinct;
      block := freeList;
      ListHead();
      ChainPop(mem[..], free, data, blockSize);
      PartitionPop(free, live, totalBlocks);
      CleanLess(mem[..], scrubbed, free[0], blockSize);
      TailMembers(free, live, totalBlocks);
      freeList := LoadLink(mem, block - data);
      freeCount := freeCount - 1;
      live := live + {free[0]};
      scrubbed := scrubbed - {free[0]};
      free := free[1..];
    }

    twostate lemma KeptByPop()
      requires old(Valid()) && Valid() && SamePool() && old(mem[..]) == mem[..]
      requires old(live) <= live && heap == old(heap)
      ensures forall q: nat :: old(Live(q)) ==> Live(q) && Content(q) == old(Content(q))
    {
      hide Chain, Clean, Link, Distinct, Partition, Off;
      forall q: nat | old(Live(q)) ensures Live(q) && Content(q) == old(Content(q)) {
        if q !in old(heap) {
          var k :| k in old(live) && q == old(Start(k));
          assert k in live && q == Start(k);
        }
      }
    }

    // A block on the free list is nobody's.
    lemma FreeIsNotLive(k: nat)
      requires Valid() && k in free
      ensures !Live(Start(k)) && Start(k) != 0
    {
      hide Chain, Clean, Link, Off;
      BlockInside(k, totalBlocks, blockSize);
      if j: nat :| j in live && Start(j) == Start(k) { BlocksApart(j, k, blockSize); LiveBlock(j); }
    }

    lemma ListHead()
      requires Valid() && freeList != 0
      ensures free != [] && freeList == Start(free[0]) && freeCount > 0
      ensures Off(free[0], blockSize) + WORD <= mem.Length
    {
    }

    // Scrubs block k and puts it at the head of the free list.
    method PutBack(ptr: nat, ghost k: nat)
      requires Valid() && k in live && ptr == Start(k)
      modifies this, mem
      ensures Valid() && SamePool() && heap == old(heap)
      ensures free == [k] + old(free) && live == old(live) - {k}
      ensures SameElsewhere(old(mem[..]), mem[..], k, blockSize) && CleanBlock(mem[..], Off(k, blockSize), blockSize)
    {
      hide Chain, Partition, Clean, Off, Link, CleanBlock;
      LiveBlock(k);
      PartitionPush(free, live, totalBlocks, k);
      ghost var before := mem[..];
      Zero(mem, ptr - data, blockSize);
      StoreLink(mem, ptr - data, freeList);
      ScrubbedBlock(before, mem[..], k, blockSize);
      ChainPush(before, mem[..], free, k, data, blockSize);
      CleanPush(before, mem[..], scrubbed, k, blockSize);
      freeList := ptr;
      freeCount := freeCount + 1;
      free := [k] + free;
      live := live - {k};
      scrubbed := scrubbed + {k};
    }

    lemma LiveBlock(k: nat)
      requires Valid() && k in live
      ensures blockSize >= WORD && Off(k, blockSize) + blockSize <= mem.Length && k !in free && k !in scrubbed
      ensures freeList < ADDRESSES && buffer != 0 && Start(k) != 0 && InPool(Start(k)) && Start(k) !in heap
                && Start(k) % WORD == 0
    {
      hide Chain, Clean, Link, Distinct, Partition, Off;
      PartitionMembers(free, live, totalBlocks, k);
      BlockInside(k, totalBlocks, blockSize);
      BlockAligned(k, blockSize);
      if free != [] {
        BlockInside(free[0], totalBlocks, blockSize);
      }
    }

    // The block a pool address belongs to.
    ghost function Index(p: nat): nat
      reads this
    {
      if blockSize == 0 || p < data then 0
      else
        assert (p - data) / blockSize >= 0 by { DivMod(p - data, blockSize); }
        (p - data) / blockSize
    }

    lemma IndexOfLive(p: nat)
      requires Valid() && Live(p) && p !in heap
      ensures Index(p) in live && p == Start(Index(p))
    {
      hide Chain, Clean, Link, Partition, Off;
      var k :| k in live && p == Start(k);
      LiveBlock(k);
      BlockOf(k, blockSize, 0);
    }

    lemma PutBackIsNotLive(k: nat)
      requires Valid() && k in free
      ensures !Live(Start(k))
    {
      hide Chain, Clean, Link, Distinct, Partition, Off;
      FreeIsNotLive(k);
    }

    // Gives a pool block back; every other pointer keeps its bytes.
    method Release(ptr: nat)
      requires Valid() && Live(ptr) && ptr !in heap
      modifies this, mem
      ensures Valid() && SamePool() && heap == old(heap)
      ensures free == [old(Index(ptr))] + old(free) && live == old(live) - {old(Index(ptr))}
      ensures CleanBlock(mem[..], ptr - data, blockSize)
      ensures forall q: nat :: Live(q) <==> old(Live(q)) && q != ptr
      ensures forall q: nat :: old(Live(q)) && q != ptr ==> Content(q) == old(Content(q))
    {
      hide Chain, Clean, Link, Distinct, Partition, Off, CleanBlock;
      ghost var k := Index(ptr);
      IndexOfLive(ptr);
      PutBack(ptr, k);
      PutBackIsNotLive(k);
      forall q: nat | old(Live(q)) && q != ptr ensures Live(q) && Content(q) == old(Content(q)) {
        if q !in old(heap) {
          var j :| j in old(live) && q == old(Start(j));
          assert j in live && q == Start(j);
          LiveBlock(j);
          BlocksApart(j, k, blockSize);
          var o := q - data;
          assert mem[..][o..o + blockSize] == old(mem[..])[o..o + blockSize];
          assert mem[o..o + blockSize] == mem[..][o..o + blockSize];
        }
      }
    }

    method Free(ptr: nat)
      requires Valid() && (ptr == 0 || Live(ptr))
      modifies this, mem
      ensures Valid() && SamePool()
      ensures forall q: nat :: Live(q) <==> old(Live(q)) && q != ptr
      ensures forall q: nat :: old(Live(q)) && q != ptr ==> Content(q) == old(Content(q))
      ensures ptr == 0 ==> free == old(free) && live == old(live) && heap == old(heap)
      ensures ptr in old(heap) ==> free == old(free) && live == old(live) && heap == old(heap) - {ptr}
      ensures ptr != 0 && ptr !in old(heap) ==>
                free == [old(Index(ptr))] + old(free) && live == old(live) - {old(Index(ptr))} && heap == old(heap)
      ensures ptr != 0 && ptr !in old(heap) ==> CleanBlock(mem[..], ptr - data, blockSize)
    {
      hide Chain, Clean, Link, Distinct, Partition, Off, CleanBlock, HandedOut;
      if ptr == 0 {
        NullIsNotLive();
        return;
      }
      if buffer != 0 && InPool(ptr) {
        Release(ptr);
      } else {
        if ptr !in heap { LiveInside(ptr); }
        System(ptr, 0, []);
      }
    }

    // A pool block moves to a larger system block: all of it is copied, then
    // it is scrubbed and given back.
    method GrowOut(ptr: nat, size: nat, granted: nat, content: seq<Byte>)
      requires Valid() && Live(ptr) && ptr !in heap && size > blockSize
      requires granted != 0 && MayGrant(granted, size, content)
      modifies this, mem
      ensures Valid() && SamePool()
      ensures heap == old(heap)[granted := old(Content(ptr)) + content[blockSize..]]
      ensures free == [old(Index(ptr))] + old(free) && live == old(live) - {old(Index(ptr))}
      ensures CleanBlock(mem[..], ptr - data, blockSize)
      ensures !old(Live(granted))
      ensures forall q: nat :: Live(q) <==> (old(Live(q)) && q != ptr) || q == granted
      ensures forall q: nat :: old(Live(q)) && q != ptr ==> Content(q) == old(Content(q))
    {
      hide Chain, Clean, Link, Distinct, Partition, Off, CleanBlock;
      LiveInside(ptr);
      IndexOfLive(ptr);
      var block := mem[ptr - data..ptr - data + blockSize];
      System(0, granted, block + content[blockSize..]);
      Release(ptr);
    }

    // What the system's realloc may do: move the block or not, keeping the
    // bytes both sizes have in common.
    predicate MayRegrant(ptr: nat, granted: nat, size: nat, content: seq<Byte>)
      reads this
    {
      granted != 0 ==>
        && (granted !in heap || granted == ptr) && Outside(granted, size) && |content| == size
        && (ptr in heap ==> Agree(content, heap[ptr]))
    }

    method Realloc(ptr: nat, size: nat, granted: nat, content: seq<Byte>) returns (ret: nat)
      requires Valid() && (ptr == 0 || Live(ptr)) && MayRegrant(ptr, granted, size, content)
      modifies this, mem
      ensures Valid() && SamePool()
      ensures forall q: nat :: Live(q) <==>
                (old(Live(q)) && (q != ptr || (ret == 0 && size != 0))) || (q == ret && q != 0)
      ensures forall q: nat :: old(Live(q)) && q != ptr ==> Content(q) == old(Content(q))
      // NULL is returned only for a failure, which changes nothing, or a free.
      ensures ret == 0 && size != 0 ==> free == old(free) && live == old(live) && heap == old(heap)
                                        && mem[..] == old(mem[..])
      ensures size == 0 && ptr != 0 ==> ret == 0
      // The bytes the old and the new block have in common are kept.
      ensures ptr != 0 && ret != 0 ==> Agree(Content(ret), old(Content(ptr)))
      ensures ret != 0 && ret != ptr ==> !old(Live(ret))
      ensures ret != 0 ==> |Content(ret)| >= size
      // A pool block does not move as long as the new size fits it.
      ensures ptr != 0 && ptr !in old(heap) && 0 < size <= blockSize ==>
                ret == ptr && free == old(free) && live == old(live) && heap == old(heap) && mem[..] == old(mem[..])
      // The whole pool block is copied on growth, and then given back clean.
      ensures ptr != 0 && ptr !in old(heap) && size > blockSize && ret != 0 ==>
                ret == granted && heap == old(heap)[granted := old(Content(ptr)) + Drop(content, blockSize)]
                && free == [old(Index(ptr))] + old(free) && live == old(live) - {old(Index(ptr))}
                && CleanBlock(mem[..], ptr - data, blockSize)
    {
      hide Chain, Clean, Link, Distinct, Partition, Off, CleanBlock, HandedOut;
      if ptr == 0 {
        NullIsNotLive();
        ret := Malloc(size, granted, content);
        return;
      }
      if size == 0 {
        Free(ptr);
        return 0;
      }
      if ptr !in heap { LiveInside(ptr); }
      if buffer != 0 && InPool(ptr) {
        if size <= blockSize {
          return ptr;
        }
        if granted == 0 {
          return 0;
        }
        GrowOut(ptr, size, granted, content);
        return granted;
      }
      if granted == 0 {
        return 0;
      }
      System(ptr, granted, content);
      return granted;
    }

    // sfpool_memory_manager, the allocator Lua is given. A pool block is only
    // ever handed out for userdata; where a pointer goes back to is decided by
    // its address alone.
    method Manage(ptr: nat, osize: nat, nsize: nat, granted: nat, content: seq<Byte>) returns (ret: nat)
      requires Valid() && (ptr == 0 || Live(ptr)) && MayRegrant(ptr, granted, nsize, content)
      modifies this, mem
      ensures Valid() && SamePool()
      ensures forall q: nat :: Live(q) <==>
                (old(Live(q)) && (q != ptr || (ret == 0 && nsize != 0))) || (q == ret && q != 0)
      ensures forall q: nat :: old(Live(q)) && q != ptr ==> Content(q) == old(Content(q))
      ensures nsize == 0 ==> ret == 0
      ensures ret == 0 && (nsize != 0 || ptr == 0) ==>
                free == old(free) && live == old(live) && heap == old(heap) && mem[..] == old(mem[..])
      ensures ret == 0 && nsize != 0 && ptr != 0 ==> Live(ptr) && Content(ptr) == old(Content(ptr))
      ensures ptr == 0 && ret != 0 ==> (InPool(ret) <==> osize == LUA_TUSERDATA && old(Hit(nsize)))
      ensures ptr == 0 && nsize != 0 && ret == 0 ==> granted == 0
      ensures ret != 0 && ret != ptr ==> !old(Live(ret))
      ensures ret != 0 ==> |Content(ret)| >= nsize
      ensures ptr != 0 && ret != 0 ==> Agree(Content(ret), old(Content(ptr)))
      // Shrinking or keeping a pool block never fails.
      ensures ptr != 0 && old(InPool(ptr)) && 0 < nsize <= blockSize ==> ret == ptr
    {
      hide Chain, Clean, Link, Distinct, Partition, Off, CleanBlock, HandedOut;
      if ptr == 0 {
        NullIsNotLive();
        if nsize == 0 {
          return 0;
        }
        if osize == LUA_TUSERDATA {
          ret := Malloc(nsize, granted, content);
        } else {
          ret := granted;
          System(0, granted, content);
        }
        if ret != 0 { InPoolIff(ret); }
        return;
      }
      if nsize == 0 {
        Free(ptr);
        return 0;
      }
      ret := Realloc(ptr, nsize, granted, content);
    }

    lemma InPoolIff(p: nat)
      requires Valid() && Live(p)
      ensures InPool(p) <==> p !in heap
    {
      if p !in heap { LiveInside(p); }
    }

    // The holder of a pointer stores a byte behind it.
    method Write(p: nat, i: nat, b: Byte)
      requires Valid() && Live(p) && i < |Content(p)|
      modifies this`heap, mem
      ensures Valid() && SamePool()
      ensures forall q: nat :: Live(q) <==> old(Live(q))
      ensures Content(p) == Stored(old(Content(p)), i, b)
      ensures forall q: nat :: old(Live(q)) && q != p ==> Content(q) == old(Content(q))
    {
      hide Chain, Clean, Link, Distinct, Partition, Off;
      if p in heap {
        if HandedOut(p) { HandedOutInside(p); }
        heap := heap[p := Stored(heap[p], i, b)];
      } else {
        StoreInside(p, i, b);
      }
    }

    method StoreInside(p: nat, i: nat, b: Byte)
      requires Valid() && Live(p) && p !in heap && i < |Content(p)|
      modifies mem
      ensures Valid()
      ensures Content(p) == Stored(old(Content(p)), i, b)
      ensures forall q: nat :: old(Live(q)) && q != p ==> Content(q) == old(Content(q))
    {
      hide Chain, Clean, Link, Distinct, Partition, Off;
      LiveInside(p);
      IndexOfLive(p);
      ghost var before, k := mem[..], Index(p);
      LiveBlock(k);
      mem[p - data + i] := b;
      ChainKept(before, mem[..], free, k, data, blockSize);
      CleanKept(before, mem[..], scrubbed, k, blockSize);
      forall q: nat | Live(q) && q != p ensures Content(q) == old(Content(q)) {
        if q !in heap {
          LiveInside(q);
          IndexOfLive(q);
          BlocksApart(Index(q), k, blockSize);
        }
      }
    }

    // What is behind each of these pointers.
    ghost predicate Sees(held: seq<nat>, seen: seq<seq<Byte>>)
      requires Valid()
      reads this, mem
    {
      |seen| == |held| && forall i :: 0 <= i < |held| ==> Live(held[i]) && Content(held[i]) == seen[i]
    }

    // The pointers held, and what is behind them.
    ghost predicate Holds(held: seq<nat>, seen: seq<seq<Byte>>)
      requires Valid()
      reads this, mem
    {
      Distinct(held) && (forall q: nat :: Live(q) <==> q in held) && Sees(held, seen)
    }

    lemma SeesRest(held: seq<nat>, seen: seq<seq<Byte>>, slot: nat)
      requires Valid() && |seen| == |held| && slot < |held|
      requires forall i :: 0 <= i < |held| && i != slot ==> Live(held[i]) && Content(held[i]) == seen[i]
      ensures Sees(Dropped(held, slot), Dropped(seen, slot))
    {
      hide Valid, Live, Content;
    }

    lemma SeesMore(held: seq<nat>, seen: seq<seq<Byte>>, p: nat)
      requires Valid() && Sees(held, seen) && Live(p)
      ensures Sees(held + [p], seen + [Content(p)])
    {
      hide Valid, Live, Content;
    }

    // One call of the allocator, with the system granting whatever it may.
    method Answer(r: Request, held: seq<nat>, ghost seen: seq<seq<Byte>>)
        returns (held': seq<nat>, ghost seen': seq<seq<Byte>>)
      requires r.Ask? && Valid() && Holds(held, seen)
      modifies this, mem
      ensures Valid() && SamePool() && Holds(held', seen') && Turn(seen, r, seen')
    {
      hide Chain, Clean, Link, Partition, Off, HandedOut, Valid, Live, MayRegrant, Agree, Distinct, Dropped, Content;
      var ptr := if r.slot < |held| then held[r.slot] else 0;
      NullIsNotLive();
      MayRefuse(ptr, r.nsize, r.content);
      var granted := if MayRegrant(ptr, r.granted, r.nsize, r.content) then r.granted else 0;
      var ret := Manage(ptr, r.osize, r.nsize, granted, r.content);
      held', seen' := held, seen;
      if r.slot < |held| && (ret != 0 || r.nsize == 0) {
        Without(held, r.slot);
        held', seen' := Dropped(held, r.slot), Dropped(seen, r.slot);
        forall i | 0 <= i < |held| && i != r.slot ensures Live(held[i]) && Content(held[i]) == seen[i] {
          Apart(held, i, r.slot);
        }
        SeesRest(held, seen, r.slot);
      }
      if ret != 0 {
        Extended(held', ret);
        SeesMore(held', seen', ret);
        held', seen' := held' + [ret], seen' + [Content(ret)];
      }
    }

    method Store(r: Request, held: seq<nat>, ghost seen: seq<seq<Byte>>) returns (ghost seen': seq<seq<Byte>>)
      requires r.Store? && Valid() && Holds(held, seen)
      modifies this`heap, mem
      ensures Valid() && SamePool() && Holds(held, seen') && Turn(seen, r, seen')
    {
      hide Chain, Clean, Link, Partition, Off, HandedOut, Valid, Live;
      seen' := seen;
      if r.slot < |held| {
        var p := held[r.slot];
        var room := Room(p);
        if r.offset < room {
          Write(p, r.offset, r.byte);
          seen' := seen[r.slot := Stored(seen[r.slot], r.offset, r.byte)];
        }
      }
    }

    // Any run of requests and of stores behind the pointers held: at the end
    // the pointers held are pairwise different, are exactly the live ones, and
    // have behind them what the run explains.
    method Serve(requests: seq<Request>) returns (held: seq<nat>, ghost seen: seq<seq<Byte>>)
      requires Valid() && live == {} && heap == map[]
      modifies this, mem
      ensures Valid() && SamePool() && Holds(held, seen) && Explains(requests, seen)
    {
      hide Chain, Clean, Link, Partition, Off, HandedOut, Valid, Live, Turn, Explains;
      held, seen := [], [];
      NothingLive();
      NothingRequested();
      var i := 0;
      while i < |requests|
        invariant 0 <= i <= |requests| && Valid() && SamePool()
        invariant Holds(held, seen) && Explains(requests[..i], seen)
      {
        var r := requests[i];
        ghost var before := seen;
        if r.Ask? {
          held, seen := Answer(r, held, seen);
        } else {
          seen := Store(r, held, seen);
        }
        OneMore(requests[..i], r, before, seen);
        assert requests[..i] + [r] == requests[..i + 1];
        i := i + 1;
      }
      assert requests[..i] == requests;
    }

    // How many bytes there are behind a pointer.
    method Room(p: nat) returns (n: nat)
      requires Valid() && Live(p)
      ensures n == |Content(p)|
    {
      if p in heap {
        return |heap[p]|;
      }
      LiveInside(p);
      return blockSize;
    }

    lemma NothingLive()
      requires live == {} && heap == map[]
      ensures forall q: nat :: !Live(q)
    {
    }

    lemma MayRefuse(ptr: nat, size: nat, content: seq<Byte>)
      ensures MayRegrant(ptr, 0, size, content)
    {
    }
  }

  // A request to the allocator: the number of a pointer held, or anything
  // larger for none, the two sizes Lua passes, and what the system would do.
  // Or a byte stored behind a pointer held.
  datatype Request =
    | Ask(slot: nat, osize: nat, nsize: nat, granted: nat, content: seq<Byte>)
    | Store(slot: nat, offset: nat, byte: Byte)

  function Dropped<T>(s: seq<T>, i: nat): seq<T>
    requires i < |s|
  {
    s[..i] + s[i + 1..]
  }

  // What a request may make of the byte strings behind the pointers held, in
  // terms of these strings alone: a store changes one byte of one of them; a
  // free drops one; an allocation adds a new one, a resize one that agrees with
  // its old self; or it fails and changes nothing.
  ghost predicate Turn(seen: seq<seq<Byte>>, r: Request, seen': seq<seq<Byte>>) {
    match r
    case Store(slot, offset, byte) =>
      seen' == if slot < |seen| && offset < |seen[slot]| then seen[slot := Stored(seen[slot], offset, byte)]
               else seen
    case Ask(slot, _, nsize, _, _) =>
      var rest := if slot < |seen| then Dropped(seen, slot) else seen;
      if nsize == 0 then seen' == rest
      else seen' == seen || (|seen'| == |rest| + 1 && seen'[..|rest|] == rest
                             && |seen'[|rest|]| >= nsize && (slot < |seen| ==> Agree(seen'[|rest|], seen[slot])))
  }

  // Byte by byte: a store changes one byte; a request leaves the strings that
  // stay as they were, and a new one is long enough and begins as the old one.
  lemma TurnReads(seen: seq<seq<Byte>>, r: Request, seen': seq<seq<Byte>>)
    requires Turn(seen, r, seen')
    ensures r.Store? ==> |seen'| == |seen| && forall i :: 0 <= i < |seen| ==> |seen'[i]| == |seen[i]|
    ensures r.Store? ==> forall i, x :: 0 <= i < |seen| && 0 <= x < |seen[i]| ==>
                           seen'[i][x] == if i == r.slot && x == r.offset then r.byte else seen[i][x]
    ensures r.Ask? && r.slot < |seen| && r.nsize == 0 ==> seen' == seen[..r.slot] + seen[r.slot + 1..]
    ensures r.Ask? && seen' != seen && r.nsize != 0 && r.slot >= |seen| ==>
              |seen'| == |seen| + 1 && seen'[..|seen|] == seen && |seen'[|seen|]| >= r.nsize
    ensures r.Ask? && seen' != seen && r.nsize != 0 && r.slot < |seen| ==>
              var n := |seen| - 1;
              && |seen'| == |seen| && seen'[..n] == seen[..r.slot] + seen[r.slot + 1..] && |seen'[n]| >= r.nsize
              && forall x :: 0 <= x < |seen'[n]| && x < |seen[r.slot]| ==> seen'[n][x] == seen[r.slot][x]
  {
    if r.Ask? && seen' != seen && r.nsize != 0 && r.slot < |seen| { AgreeIs(seen'[|seen| - 1], seen[r.slot]); }
  }

  ghost predicate Explains(requests: seq<Request>, seen: seq<seq<Byte>>) {
    if requests == [] then seen == []
    else
      var n := |requests| - 1;
      exists before :: Explains(requests[..n], before) && Turn(before, requests[n], seen)
  }

  lemma NothingRequested()
    ensures Explains([], [])
  {
  }

  lemma OneMore(requests: seq<Request>, r: Request, before: seq<seq<Byte>>, seen: seq<seq<Byte>>)
    requires Explains(requests, before) && Turn(before, r, seen)
    ensures Explains(requests + [r], seen)
  {
    hide Turn;
    var all := requests + [r];
    assert all[..|all| - 1] == requests && all[|all| - 1] == r;
  }

  lemma Apart(s: seq<nat>, i: nat, j: nat)
    requires Distinct(s) && i < |s| && j < |s| && i != j
    ensures s[i] != s[j]
  {
  }

  lemma Without(s: seq<nat>, i: nat)
    requires Distinct(s) && i < |s|
    ensures var t := Dropped(s, i); Distinct(t) && forall q :: q in t <==> q in s && q != s[i]
  {
    var t := s[..i] + s[i + 1..];
    assert forall k :: 0 <= k < |t| ==> t[k] == if k < i then s[k] else s[k + 1];
    forall q | q in s && q != s[i] ensures q in t {
      var k :| 0 <= k < |s| && s[k] == q;
      assert q == t[if k < i then k else k - 1];
    }
  }

  lemma Extended(s: seq<nat>, p: nat)
    requires Distinct(s)
    ensures p !in s ==> Distinct(s + [p])
    ensures forall q :: q in s + [p] <==> q in s || q == p
  {
  }

  function Drop(s: seq<Byte>, n: nat): seq<Byte> {
    if n <= |s| then s[n..] else []
  }

  // Equal as far as both go.
  predicate Agree(s: seq<Byte>, t: seq<Byte>) {
    var n := if |s| < |t| then |s| else |t|;
    s[..n] == t[..n]
  }

  lemma AgreeIs(s: seq<Byte>, t: seq<Byte>)
    ensures Agree(s, t) <==> forall i :: 0 <= i < |s| && i < |t| ==> s[i] == t[i]
  {
    var n := if |s| < |t| then |s| else |t|;
    if forall i :: 0 <= i < |s| && i < |t| ==> s[i] == t[i] {
      assert s[..n] == t[..n];
    } else {
      var i :| 0 <= i < |s| && i < |t| && s[i] != t[i];
      assert s[..n][i] != t[..n][i];
    }
  }

  lemma ScrubbedBlock(before: seq<Byte>, m: seq<Byte>, k: nat, size: nat)
    requires |m| == |before| && size >= WORD
    requires forall x :: Off(k, size) + WORD <= x < Off(k, size) + size && x < |m| ==> m[x] == 0
    requires forall x :: 0 <= x < |m| && !(Off(k, size) <= x < Off(k, size) + size) ==> m[x] == before[x]
    ensures SameElsewhere(before, m, k, size) && CleanBlock(m, Off(k, size), size)
  {
    hide Off;
  }

  lemma CleanLess(m: seq<Byte>, blocks: set<nat>, k: nat, size: nat)
    requires Clean(m, blocks, size)
    ensures Clean(m, blocks - {k}, size)
  {
  }

  lemma PartitionMembers(free: seq<nat>, live: set<nat>, n: nat, k: nat)
    requires Partition(free, live, n) && k in live
    ensures k < n && k !in free && (free != [] ==> free[0] < n)
  {
    if free != [] { assert free[0] in free; }
  }

  lemma TailMembers(free: seq<nat>, live: set<nat>, n: nat)
    requires Partition(free, live, n) && free != []
    ensures forall k :: k in free && k != free[0] ==> k in free[1..]
  {
  }
}
