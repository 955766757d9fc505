/** Where the bytes of a file are: byte offsets map to (block serial, page id, offset in the page), and the pages of
    a file's head block and data blocks hold its bytes in order. */
module FileLayout {
  import opened FlashModel
  import opened LogicalBlock
  import opened DeviceState
  import opened WriteSteps

  // ----- byte offsets and block serials

  function HeadBytes(g: Geo): nat {
    (g.pages - 1) * g.pageSize
  }

  function BlockBytes(g: Geo): (n: nat)
    ensures n > 0
  {
    Positive(g.pageSize, g.pages);
    g.pageSize * g.pages
  }

  lemma {:induction false} Positive(a: nat, b: nat)
    requires a > 0 && b > 0
    ensures a * b > 0
  {
  }

  /** Serial of the block that holds byte `ofs`: 0 is the head block. */
  function GetFdnByOfs(g: Geo, ofs: nat): nat {
    if ofs < HeadBytes(g) then 0 else (ofs - HeadBytes(g)) / BlockBytes(g) + 1
  }

  function GetStartOfDataBlock(g: Geo, fdn: nat): nat {
    if fdn == 0 then 0 else HeadBytes(g) + (fdn - 1) * BlockBytes(g)
  }

  /** The block of a byte is the one block whose range holds it. */
  lemma {:induction false} FdnIsBlockOfByte(g: Geo, ofs: nat, fdn: nat)
    ensures GetFdnByOfs(g, ofs) == fdn <==> GetStartOfDataBlock(g, fdn) <= ofs < GetStartOfDataBlock(g, fdn + 1)
  {
    var n := BlockBytes(g);
    if fdn > 0 {
      assert fdn * n == (fdn - 1) * n + n;
    }
    if ofs >= HeadBytes(g) {
      var x := ofs - HeadBytes(g);
      QuotientBounds(x, n);
      if fdn > 0 {
        QuotientIs(x, n, fdn - 1);
      }
    } else if fdn > 0 {
      NotNegative(fdn - 1, n);
    }
  }

  lemma {:induction false} NotNegative(a: nat, b: nat)
    ensures a * b >= 0
  {
  }

  lemma {:induction false} QuotientBounds(x: nat, n: nat)
    requires n > 0
    ensures (x / n) * n <= x < (x / n) * n + n
  {
  }

  lemma {:induction false} QuotientIs(x: nat, n: nat, k: nat)
    requires n > 0
    ensures x / n == k <==> k * n <= x < k * n + n
  {
    QuotientBounds(x, n);
    if x / n < k {
      MulMono(x / n + 1, k, n);
    } else if x / n > k {
      MulMono(k + 1, x / n, n);
    }
  }

  lemma {:induction false} MulMono(a: nat, b: nat, n: nat)
    requires a <= b
    ensures a * n <= b * n
  {
  }

  // Largest block serial of a file.
  const MAX_FDN: nat := 0x3FFF

  /** With serials of 14 bits no offset within a file, and no intermediate value, exceeds 32 bits. */
  lemma {:induction false} OffsetsFit(g: Geo, ofs: nat)
    requires GetFdnByOfs(g, ofs) <= MAX_FDN
    ensures HeadBytes(g) < 0x1_0000_0000 && BlockBytes(g) < 0x1_0000_0000
    ensures ofs < GetStartOfDataBlock(g, MAX_FDN + 1) < 0x1_0000_0000
  {
    var fdn := GetFdnByOfs(g, ofs);
    FdnIsBlockOfByte(g, ofs, fdn);
    var n := BlockBytes(g);
    MulMono(fdn, MAX_FDN, n);
    SizesFit(g.pages, g.pageSize);
    assert HeadBytes(g) <= 63 * 4095;
    assert n <= 64 * 4095;
    if fdn > 0 {
      assert GetStartOfDataBlock(g, fdn + 1) == HeadBytes(g) + fdn * n;
    } else {
      NotNegative(MAX_FDN, n);
      assert ofs < HeadBytes(g);
    }
  }

  lemma {:induction false} SizesFit(pages: nat, size: nat)
    requires 2 <= pages <= 64 && size <= 4095
    ensures (pages - 1) * size <= 63 * 4095 && size * pages <= 64 * 4095
  {
    MulMono(pages - 1, 63, size);
    MulMono(pages, 64, size);
  }

  // ----- pages of a file

  function PageIndex(g: Geo, ofs: nat): nat {
    ofs / g.pageSize
  }

  function PageOffset(g: Geo, ofs: nat): nat {
    ofs % g.pageSize
  }

  /** Number of the page that holds the first byte of a page: q pages come before it. */
  function Ofs(g: Geo, q: nat): nat {
    q * g.pageSize
  }

  lemma {:induction false} OfsStep(g: Geo, q: nat, r: nat)
    ensures Ofs(g, q + 1) == Ofs(g, q) + g.pageSize
    ensures q < r ==> Ofs(g, q) + g.pageSize <= Ofs(g, r)
    ensures Ofs(g, q) <= Ofs(g, r) <==> q <= r
  {
    if q < r {
      MulMono(q + 1, r, g.pageSize);
    } else if r < q {
      MulMono(r + 1, q, g.pageSize);
    }
  }

  function HomeObj(g: Geo, file: Obj, q: nat): Obj {
    if q < g.pages - 1 then file else (file.1, (q - (g.pages - 1)) / g.pages + 1)
  }

  /** The head block of a file, or its data block of a serial. */
  function BlockObj(file: Obj, fdn: nat): Obj {
    if fdn == 0 then file else (file.1, fdn)
  }

  function HomeId(g: Geo, q: nat): (id: nat)
    ensures id < g.pages
  {
    if q < g.pages - 1 then q + 1 else (q - (g.pages - 1)) % g.pages
  }

  /** Page q of the file, from the serial of a block and a page id in it. */
  function PageNumber(g: Geo, fdn: nat, id: nat): int {
    if fdn == 0 then id - 1 else g.pages - 1 + (fdn - 1) * g.pages + id
  }

  lemma {:induction false} HomeOf(g: Geo, file: Obj, fdn: nat, id: nat)
    requires id < g.pages && (fdn == 0 ==> id > 0)
    ensures var q := PageNumber(g, fdn, id);
            q >= 0 && HomeId(g, q) == id && HomeObj(g, file, q) == (if fdn == 0 then file else (file.1, fdn))
  {
    if fdn > 0 {
      NotNegative(fdn - 1, g.pages);
      var x := (fdn - 1) * g.pages + id;
      QuotientIs(x, g.pages, fdn - 1);
      assert x % g.pages == x - (x / g.pages) * g.pages;
    }
  }

  /** No two pages of a file share a place. */
  lemma {:induction false} HomesDiffer(g: Geo, file: Obj, q: nat, r: nat)
    requires forall f: nat :: f > 0 ==> file != (file.1, f)
    ensures HomeObj(g, file, q) == HomeObj(g, file, r) && HomeId(g, q) == HomeId(g, r) <==> q == r
  {
    var n := g.pages;
    if q >= n - 1 && r >= n - 1 && HomeObj(g, file, q) == HomeObj(g, file, r) && HomeId(g, q) == HomeId(g, r) {
      var x, y := q - (n - 1), r - (n - 1);
      assert x == (x / n) * n + x % n;
      assert y == (y / n) * n + y % n;
    }
  }

  /** A byte of a file, split into block serial, page id and offset, and back. */
  lemma {:induction false} SplitOffset(g: Geo, ofs: nat)
    ensures GetStartOfDataBlock(g, GetFdnByOfs(g, ofs)) <= ofs
    ensures var fdn := GetFdnByOfs(g, ofs);
            var x: nat := ofs - GetStartOfDataBlock(g, fdn);
            var id := PageIndex(g, x) + (if fdn == 0 then 1 else 0);
            id < g.pages && PageNumber(g, fdn, id) == PageIndex(g, ofs) && PageOffset(g, x) == PageOffset(g, ofs)
  {
    var fdn := GetFdnByOfs(g, ofs);
    FdnIsBlockOfByte(g, ofs, fdn);
    var start := GetStartOfDataBlock(g, fdn);
    StartIsPage(g, fdn);
    BlockIsPages(g, fdn);
    NotNegative(if fdn == 0 then 0 else fdn - 1, g.pages);
    var k: nat := if fdn == 0 then 0 else g.pages - 1 + (fdn - 1) * g.pages;
    OfsIs(g, k);
    SplitInBlock(k, ofs - start, g.pageSize, if fdn == 0 then g.pages - 1 else g.pages);
    hide Ofs, GetStartOfDataBlock, GetFdnByOfs;
  }

  lemma {:induction false} OfsIs(g: Geo, q: nat)
    ensures Ofs(g, q) == q * g.pageSize
  {
  }

  lemma {:induction false} SplitInBlock(k: nat, x: nat, n: nat, count: nat)
    requires n > 0 && x < count * n
    ensures (k * n + x) / n == k + x / n && (k * n + x) % n == x % n && x / n < count
  {
    QuotientBounds(x, n);
    SumOfProducts(k, x / n, n);
    QuotientIs(k * n + x, n, k + x / n);
    Remainders(k * n + x, n);
    Remainders(x, n);
    if x / n >= count {
      MulMono(count, x / n, n);
    }
  }

  lemma {:induction false} Remainders(x: nat, n: nat)
    requires n > 0
    ensures x % n == x - (x / n) * n
  {
  }

  lemma {:induction false} SumOfProducts(a: nat, b: nat, n: nat)
    ensures (a + b) * n == a * n + b * n
  {
  }

  lemma {:induction false} BlockIsPages(g: Geo, fdn: nat)
    ensures GetStartOfDataBlock(g, fdn + 1) ==
            GetStartOfDataBlock(g, fdn) + (if fdn == 0 then g.pages - 1 else g.pages) * g.pageSize
  {
    if fdn > 0 {
      assert fdn * BlockBytes(g) == (fdn - 1) * BlockBytes(g) + BlockBytes(g);
    }
  }

  /** A block starts at the first byte of a page. */
  lemma {:induction false} StartIsPage(g: Geo, fdn: nat)
    ensures GetStartOfDataBlock(g, fdn) == (if fdn == 0 then 0 else Ofs(g, g.pages - 1 + (fdn - 1) * g.pages))
  {
    if fdn > 0 {
      NotNegative(fdn - 1, g.pages);
      SumOfProducts(g.pages - 1, (fdn - 1) * g.pages, g.pageSize);
      Associate(fdn - 1, g.pages, g.pageSize);
    }
  }

  lemma {:induction false} Associate(a: nat, b: nat, c: nat)
    ensures (a * b) * c == a * (c * b)
  {
  }
}
