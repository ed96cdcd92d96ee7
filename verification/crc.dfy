/** The page checksum of Ogg (section 6 of RFC 3533): a CRC-32 with
    polynomial 0x04C11DB7, shifted most-significant bit first, initial value 0
    and no final xor. */
module OggCrc {
  import opened Common

  const Polynomial: bv32 := 0x04C1_1DB7

  /** One step of polynomial division on a 32-bit register. The source lets the
      register grow past 32 bits and keeps only the low 32 bits of the finished
      entry; bits above 31 never shift back down, so the entries agree. */
  function Step(k: bv32): bv32
  {
    if k & 0x8000_0000 != 0 then (k << 1) ^ 0x04C1_1DB7 else k << 1
  }

  /** `n` steps of polynomial division. */
  function Steps(k: bv32, n: nat): bv32
  {
    if n == 0 then k else Step(Steps(k, n - 1))
  }

  /** Entry `i` of the lookup table: the remainder of `i` placed in the top byte. */
  function TableEntry(i: bv8): bv32
  {
    Steps((i as bv32) << 24, 8)
  }

  ghost predicate IsTable(table: seq<bv32>)
  {
    |table| == 256 && forall i: bv8 :: table[i as int] == TableEntry(i)
  }

  /** Builds the 256-entry lookup table, one entry at a time. */
  method CreateTable() returns (table: seq<bv32>)
    ensures IsTable(table)
  {
    table := [];
    var i := 0;
    while i < 256
      invariant 0 <= i <= 256 && |table| == i
      invariant forall j :: 0 <= j < i ==> table[j] == TableEntry(j as bv8)
    {
      var b := i as bv8;
      var k: bv32 := (b as bv32) << 24;
      var n := 0;
      while n < 8
        invariant 0 <= n <= 8
        invariant k == Steps((b as bv32) << 24, n)
      {
        k := Step(k);
        n := n + 1;
      }
      table := table + [k];
      i := i + 1;
    }
    forall j: bv8
      ensures table[j as int] == TableEntry(j)
    {
      assert (j as int) as bv8 == j;
    }
  }

  /** The table index of a byte: the register's top byte xor the byte. */
  function Index(crc: bv32, b: byte): bv8
  {
    ((crc >> 24) as bv8) ^ (b as bv8)
  }

  /** One byte folded into the register. */
  function Update(crc: bv32, b: byte): bv32
  {
    ((crc & 0x00FF_FFFF) << 8) ^ TableEntry(Index(crc, b))
  }

  /** The register after folding `data` into `crc`, byte by byte from the front. */
  function CrcFrom(crc: bv32, data: seq<byte>): bv32
  {
    if data == [] then crc else Update(CrcFrom(crc, data[..|data| - 1]), data[|data| - 1])
  }

  /** The checksum of `data`: the register starts at 0 and is not inverted. */
  function Crc(data: seq<byte>): bv32
  {
    CrcFrom(0, data)
  }

  /** Computes the checksum of `data` with the lookup table. The result is
      a 32-bit value by its type. */
  method Crc32(table: seq<bv32>, data: seq<byte>) returns (crc: bv32)
    requires IsTable(table)
    ensures crc == Crc(data)
  {
    crc := 0;
    var i := 0;
    while i < |data|
      invariant 0 <= i <= |data|
      invariant crc == CrcFrom(0, data[..i])
    {
      assert data[..i + 1][..i] == data[..i];
      var lookup := Index(crc, data[i]);
      crc := ((crc & 0x00FF_FFFF) << 8) ^ table[lookup as int];
      i := i + 1;
    }
    assert data[..i] == data;
  }

  /** Folding a concatenation is folding its parts in turn: the checksum can be
      computed over a page's header, lacing table and payloads in pieces. */
  lemma {:induction false} CrcFromAppend(crc: bv32, a: seq<byte>, b: seq<byte>)
    ensures CrcFrom(crc, a + b) == CrcFrom(CrcFrom(crc, a), b)
    decreases |b|
  {
    if b == [] {
      assert a + b == a;
    } else {
      var b' := b[..|b| - 1];
      assert (a + b)[..|a + b| - 1] == a + b';
      CrcFromAppend(crc, a, b');
    }
  }

  /** The polynomial itself is the entry of 1, and 0 maps to 0. */
  lemma TableEntryOne()
    ensures TableEntry(1) == Polynomial
    ensures TableEntry(0) == 0
  {
    var k: bv32 := 1 << 24;
    assert Steps(k, 1) == Step(k);
    assert Steps(k, 2) == Step(Steps(k, 1));
    assert Steps(k, 3) == Step(Steps(k, 2));
    assert Steps(k, 4) == Step(Steps(k, 3));
    assert Steps(k, 5) == Step(Steps(k, 4));
    assert Steps(k, 6) == Step(Steps(k, 5));
    assert Steps(k, 7) == Step(Steps(k, 6));
    StepsZero(8);
  }

  lemma {:induction false} StepsZero(n: nat)
    ensures Steps(0, n) == 0
  {
    if n > 0 {
      StepsZero(n - 1);
    }
  }
}
