/** The pages of a file as a sequence of bytes, and what writing one page does to it. */
module FileSteps {
  import opened FlashModel
  import opened LogicalBlock
  import opened DeviceState
  import opened BufferSteps
  import opened WriteSteps
  import opened FileLayout

  // ----- bytes

  /** d written over the bytes from `at` on. */
  function Splice(bytes: seq<Byte>, at: nat, d: seq<Byte>): (r: seq<Byte>)
    requires at <= |bytes|
    ensures |r| == if at + |d| > |bytes| then at + |d| else |bytes|
    ensures forall i :: 0 <= i < |r| ==> r[i] == if at <= i < at + |d| then d[i - at] else bytes[i]
  {
    bytes[..at] + d + (if at + |d| > |bytes| then [] else bytes[at + |d|..])
  }

  lemma {:induction false} SpliceTwice(bytes: seq<Byte>, at: nat, d: seq<Byte>, k: nat, j: nat)
    requires at <= |bytes| && k <= j <= |d|
    ensures Splice(Splice(bytes, at, d[..k]), at + k, d[k..j]) == Splice(bytes, at, d[..j])
  {
    var a, b := Splice(Splice(bytes, at, d[..k]), at + k, d[k..j]), Splice(bytes, at, d[..j]);
    forall i | 0 <= i < |b| ensures a[i] == b[i] { }
  }

  lemma {:induction false} SpliceNothing(bytes: seq<Byte>, at: nat)
    requires at <= |bytes|
    ensures Splice(bytes, at, []) == bytes
  {
  }

  // ----- pages

  /** The page holds the bytes from `at` on, as many as fit and as there are. */
  predicate PageIs(p: LPage, g: Geo, bytes: seq<Byte>, at: nat)
    requires at < |bytes|
  {
    && |p.data| == g.pageSize
    && p.len == (if |bytes| - at < g.pageSize then |bytes| - at else g.pageSize)
    && p.data[..p.len] == bytes[at..at + p.len]
  }

  ghost predicate PageHeld(content: Content, g: Geo, file: Obj, bytes: seq<Byte>, q: nat) {
    var pages, id := ContentAt(content, HomeObj(g, file, q)), HomeId(g, q);
    if Ofs(g, q) < |bytes| then id < |pages| && PageIs(pages[id], g, bytes, Ofs(g, q))
    else |pages| <= id
  }

  /** The pages of the file hold its bytes and no more; page 0 of the head block holds its attributes. */
  ghost predicate FileRep(content: Content, g: Geo, file: Obj, bytes: seq<Byte>) {
    && |ContentAt(content, file)| > 0
    && (forall f: nat :: f > 0 ==> file != (file.1, f))
    && (forall q: nat :: PageHeld(content, g, file, bytes, q))
  }

  /** The page a write at page q starts from: the page there, or a blank one at the end of the file. */
  ghost function PageBefore(content: Content, g: Geo, file: Obj, bytes: seq<Byte>, q: nat): LPage
    requires PageHeld(content, g, file, bytes, q)
  {
    if Ofs(g, q) < |bytes| then ContentAt(content, HomeObj(g, file, q))[HomeId(g, q)] else BlankPage(g)
  }

  /** A page is missing exactly at the end of its block. */
  lemma {:induction false} NextPageIsNew(content: Content, g: Geo, file: Obj, bytes: seq<Byte>, q: nat)
    requires FileRep(content, g, file, bytes) && Ofs(g, q) <= |bytes|
    ensures var pages := ContentAt(content, HomeObj(g, file, q));
            HomeId(g, q) <= |pages| && (HomeId(g, q) < |pages| <==> Ofs(g, q) < |bytes|)
  {
    assert PageHeld(content, g, file, bytes, q);
    if Ofs(g, q) == |bytes| && HomeId(g, q) > 0 && q > 0 {
      OfsStep(g, q - 1, q);
      SameBlock(g, file, q);
      assert PageHeld(content, g, file, bytes, q - 1);
    }
  }

  lemma {:induction false} SameBlock(g: Geo, file: Obj, q: nat)
    requires q > 0 && HomeId(g, q) > 0
    ensures HomeObj(g, file, q - 1) == HomeObj(g, file, q) && HomeId(g, q - 1) == HomeId(g, q) - 1
  {
    if q >= g.pages - 1 {
      SameQuotient(q - (g.pages - 1), g.pages);
    }
  }

  lemma {:induction false} SameQuotient(x: nat, n: nat)
    requires n > 0
    ensures x % n > 0 ==> x > 0 && (x - 1) / n == x / n && (x - 1) % n == x % n - 1
    ensures x == 0 ==> x % n == 0
  {
    if x > 0 && x % n > 0 {
      LowerQuotient(x, n);
      LowerRemainder(x, n, x / n);
    }
  }

  lemma {:induction false} LowerQuotient(x: nat, n: nat)
    requires n > 0 && x > 0 && x % n > 0
    ensures (x - 1) / n == x / n
  {
    Remainders(x, n);
    QuotientBounds(x, n);
    QuotientIs(x - 1, n, x / n);
  }

  lemma {:induction false} LowerRemainder(x: nat, n: nat, k: nat)
    requires n > 0 && x > 0 && x / n == k && (x - 1) / n == k
    ensures (x - 1) % n == x % n - 1
  {
    Remainders(x, n);
    Remainders(x - 1, n);
  }

  /** Writing within page q, or at its start when it is the next page of the file, writes the bytes of the file. */
  lemma {:induction false} WritePageRep(content: Content, g: Geo, file: Obj, bytes: seq<Byte>, q: nat, ofs: nat,
                                        d: seq<Byte>, content': Content)
    requires FileRep(content, g, file, bytes) && PageHeld(content, g, file, bytes, q)
    requires Ofs(g, q) + ofs <= |bytes| && |d| > 0 && ofs + |d| <= g.pageSize
    requires |PageBefore(content, g, file, bytes, q).data| == g.pageSize
    requires content' ==
             content[HomeObj(g, file, q) := Put(ContentAt(content, HomeObj(g, file, q)), HomeId(g, q),
                                                Overwritten(PageBefore(content, g, file, bytes, q), ofs, d))]
    ensures FileRep(content', g, file, Splice(bytes, Ofs(g, q) + ofs, d))
  {
    hide Ofs, HomeObj, HomeId, Splice, Overwritten;
    var bytes' := Splice(bytes, Ofs(g, q) + ofs, d);
    NextPageIsNew(content, g, file, bytes, q);
    forall r: nat ensures PageHeld(content', g, file, bytes', r) {
      HomesDiffer(g, file, q, r);
      if r == q {
        PageWritten(content, g, file, bytes, q, ofs, d);
      } else {
        OtherPage(content, g, file, bytes, q, ofs, d, r);
      }
    }
  }

  lemma {:induction false} PageWritten(content: Content, g: Geo, file: Obj, bytes: seq<Byte>, q: nat, ofs: nat,
                                       d: seq<Byte>)
    requires FileRep(content, g, file, bytes) && PageHeld(content, g, file, bytes, q)
    requires Ofs(g, q) + ofs <= |bytes| && |d| > 0 && ofs + |d| <= g.pageSize
    requires |PageBefore(content, g, file, bytes, q).data| == g.pageSize
    ensures Ofs(g, q) < |Splice(bytes, Ofs(g, q) + ofs, d)|
    ensures PageIs(Overwritten(PageBefore(content, g, file, bytes, q), ofs, d), g, Splice(bytes, Ofs(g, q) + ofs, d),
                   Ofs(g, q))
  {
    hide Ofs, HomeObj, HomeId, Splice, FileRep;
    var at := Ofs(g, q);
    var bytes', p := Splice(bytes, at + ofs, d), PageBefore(content, g, file, bytes, q);
    var p' := Overwritten(p, ofs, d);
    assert at < |bytes| ==> forall i :: 0 <= i < p.len ==> p.data[..p.len][i] == bytes[at..at + p.len][i];
    forall i | 0 <= i < p'.len ensures p'.data[i] == bytes'[at + i] {
      if i < ofs {
        assert p'.data[i] == p.data[i];
      } else if i < ofs + |d| {
        assert p'.data[i] == d[i - ofs];
      } else {
        assert p'.data[i] == p.data[i];
      }
    }
  }

  /** The other pages keep their place and their bytes. */
  lemma {:induction false} OtherPage(content: Content, g: Geo, file: Obj, bytes: seq<Byte>, q: nat, ofs: nat,
                                     d: seq<Byte>, r: nat)
    requires PageHeld(content, g, file, bytes, r) && r != q
    requires Ofs(g, q) + ofs <= |bytes| && |d| > 0 && ofs + |d| <= g.pageSize
    ensures PageHeld(content, g, file, Splice(bytes, Ofs(g, q) + ofs, d), r)
    ensures Ofs(g, r) < |bytes| <==> Ofs(g, r) < |Splice(bytes, Ofs(g, q) + ofs, d)|
  {
    hide Ofs, HomeObj, HomeId, Splice;
    var bytes' := Splice(bytes, Ofs(g, q) + ofs, d);
    OfsStep(g, r, q);
    OfsStep(g, q, r);
    if Ofs(g, r) < |bytes| {
      var p := ContentAt(content, HomeObj(g, file, r))[HomeId(g, r)];
      assert bytes'[Ofs(g, r)..Ofs(g, r) + p.len] == bytes[Ofs(g, r)..Ofs(g, r) + p.len];
    }
  }
}
