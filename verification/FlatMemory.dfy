/** The flat 32-bit byte-addressed memory that caches and page tables stand for. */
module FlatMemory {
  import opened Pow2

  type Byte = b: nat | b < 256

  /** md_addr_t is a 32-bit unsigned integer. */
  const SPACE: nat := 0x1_0000_0000

  function Wrap(a: int): (r: nat)
    ensures r < SPACE
  {
    a % 0x1_0000_0000
  }

  lemma SpaceIsPow2()
    ensures IsPow2(SPACE)
  {
    assert IsPow2(2) && IsPow2(4);
    Product(4, 4);
    Product(16, 16);
    Product(256, 256);
    Product(65536, 65536);
  }

  /** The block numbered `b` when memory is cut in blocks of `bsize` bytes. */
  function ReadBlock(m: seq<Byte>, bsize: nat, b: nat): (d: seq<Byte>)
    requires b * bsize + bsize <= |m|
    ensures |d| == bsize
  {
    m[b * bsize..b * bsize + bsize]
  }

  function WriteBlock(m: seq<Byte>, bsize: nat, b: nat, d: seq<Byte>): (m': seq<Byte>)
    requires b * bsize + bsize <= |m| && |d| == bsize
    ensures |m'| == |m|
  {
    m[..b * bsize] + d + m[b * bsize + bsize..]
  }

  /** Overwrite the bytes from `a` on with `d`. */
  function Splice(m: seq<Byte>, a: nat, d: seq<Byte>): (m': seq<Byte>)
    requires a + |d| <= |m|
    ensures |m'| == |m|
    ensures forall k :: 0 <= k < |m| ==> m'[k] == if a <= k < a + |d| then d[k - a] else m[k]
  {
    m[..a] + d + m[a + |d|..]
  }

  lemma BlockFits(size: nat, bsize: nat, b: nat)
    requires bsize > 0 && size % bsize == 0 && b < size / bsize
    ensures b * bsize + bsize <= size
  {
    Apart(b, size / bsize, bsize);
    assert size == (size / bsize) * bsize;
  }

  /** Different blocks do not overlap. */
  lemma Apart(b: nat, b': nat, bsize: nat)
    requires bsize > 0
    ensures b < b' ==> b * bsize + bsize <= b' * bsize
    ensures b' < b ==> b' * bsize + bsize <= b * bsize
  {
    Distribute(b', b, bsize);
    MulMonotone(b' - b, bsize);
  }

  lemma SpliceThenSlice(m: seq<Byte>, lo: nat, d: seq<Byte>, lo': nat, n: nat)
    requires |d| == n && lo + n <= |m| && lo' + n <= |m|
    requires lo == lo' || lo + n <= lo' || lo' + n <= lo
    ensures Splice(m, lo, d)[lo'..lo' + n] == if lo == lo' then d else m[lo'..lo' + n]
  {
  }

  lemma ReadAfterWrite(m: seq<Byte>, bsize: nat, b: nat, d: seq<Byte>, b': nat)
    requires bsize > 0 && b * bsize + bsize <= |m| && |d| == bsize && b' * bsize + bsize <= |m|
    ensures ReadBlock(WriteBlock(m, bsize, b, d), bsize, b') == if b == b' then d else ReadBlock(m, bsize, b')
  {
    var lo, lo' := b * bsize, b' * bsize;
    assert lo == lo' <==> b == b' by { Apart(b, b', bsize); }
    assert lo == lo' || lo + bsize <= lo' || lo' + bsize <= lo by { Apart(b, b', bsize); }
    SpliceThenSlice(m, lo, d, lo', bsize);
    assert WriteBlock(m, bsize, b, d) == Splice(m, lo, d);
  }

  lemma SpliceWithinSlice(m: seq<Byte>, lo: nat, o: nat, d: seq<Byte>, lo': nat, n: nat)
    requires o + |d| <= n && lo + n <= |m| && lo' + n <= |m|
    requires lo == lo' || lo + n <= lo' || lo' + n <= lo
    ensures Splice(m, lo + o, d)[lo'..lo' + n] == if lo == lo' then Splice(m[lo..lo + n], o, d) else m[lo'..lo' + n]
  {
  }

  /** A splice inside one block changes that block alone. */
  lemma ReadAfterSplice(m: seq<Byte>, bsize: nat, b: nat, o: nat, d: seq<Byte>, b': nat)
    requires bsize > 0 && o + |d| <= bsize && b * bsize + bsize <= |m| && b' * bsize + bsize <= |m|
    ensures b * bsize + o + |d| <= |m|
    ensures ReadBlock(Splice(m, b * bsize + o, d), bsize, b')
         == if b == b' then Splice(ReadBlock(m, bsize, b), o, d) else ReadBlock(m, bsize, b')
  {
    var lo, lo' := b * bsize, b' * bsize;
    assert lo == lo' <==> b == b' by { Apart(b, b', bsize); }
    assert lo == lo' || lo + bsize <= lo' || lo' + bsize <= lo by { Apart(b, b', bsize); }
    SpliceWithinSlice(m, lo, o, d, lo', bsize);
  }

  /** Memories that agree block by block are the same memory. */
  lemma SameBlocks(m: seq<Byte>, m': seq<Byte>, bsize: nat)
    requires bsize > 0 && |m| == |m'| && |m| % bsize == 0
    requires forall b: nat :: b * bsize + bsize <= |m| ==> ReadBlock(m, bsize, b) == ReadBlock(m', bsize, b)
    ensures m == m'
  {
    forall a | 0 <= a < |m|
      ensures m[a] == m'[a]
    {
      var b := a / bsize;
      InBlock(|m|, bsize, a);
      assert ReadBlock(m, bsize, b)[a % bsize] == ReadBlock(m', bsize, b)[a % bsize];
    }
  }

  lemma InBlock(size: nat, bsize: nat, a: nat)
    requires bsize > 0 && size % bsize == 0 && a < size
    ensures a / bsize < size / bsize && (a / bsize) * bsize + bsize <= size
    ensures a == (a / bsize) * bsize + a % bsize && a % bsize < bsize
  {
    Apart(size / bsize, a / bsize, bsize);
    assert a == (a / bsize) * bsize + a % bsize && size == (size / bsize) * bsize;
    BlockFits(size, bsize, a / bsize);
  }
}
