/** Pages, page tags and blocks of the NAND flash, as the file system sees them.
    A tag is a record of the fields packed into the spare area of a page. */
module FlashModel {

  type Byte = x: int | 0 <= x < 256

  // Block types (the two-bit `type` field of a tag).
  const DIR: nat := 0
  const FILE: nat := 1
  const DATA: nat := 2

  // Largest values of the packed fields, all bits set.
  const MAX_TYPE: nat := 3
  const MAX_TS: nat := 3
  const MAX_LEN: nat := 0xFFF
  const MAX_SERIAL: nat := 0x3FFF
  const MAX_PARENT: nat := 0x3FF
  const MAX_PAGE_ID: nat := 0x3F

  const INVALID_PAGE: nat := 0xFFFF

  /** `dirty` and `valid` are true when the stored bit is 0, `sealed` when the seal byte is not 0xFF. */
  datatype Tag = Tag(sealed: bool, dirty: bool, valid: bool, ty: nat, ts: nat, dataLen: nat,
                     serial: nat, parent: nat, pageId: nat)

  const ERASED_TAG := Tag(false, false, false, MAX_TYPE, MAX_TS, MAX_LEN, MAX_SERIAL, MAX_PARENT, MAX_PAGE_ID)

  /** The first 32 bits of the stored tag are not all ones. */
  predicate TagIsDirty(t: Tag) {
    t.dirty || t.valid || t.ty != MAX_TYPE || t.ts != MAX_TS || t.dataLen != MAX_LEN || t.serial != MAX_SERIAL
  }

  predicate TagIsGood(t: Tag) {
    t.sealed && t.valid
  }

  /** The page may be programmed: nothing in its tag says otherwise. */
  predicate TagIsErased(t: Tag) {
    !t.sealed && !TagIsDirty(t) && !t.valid
  }

  /** `programmed` is true when the status byte of the mini header is not 0xFF. */
  datatype Page = Page(tag: Tag, programmed: bool, data: seq<Byte>)

  function ErasedPage(pageSize: nat): Page {
    Page(ERASED_TAG, false, seq(pageSize, i => 0xFF))
  }

  type Block = seq<Page>

  function TagsOf(b: Block): (tags: seq<Tag>)
    ensures |tags| == |b|
    ensures forall i :: 0 <= i < |b| ==> tags[i] == b[i].tag
  {
    seq(|b|, i requires 0 <= i < |b| => b[i].tag)
  }

  function ErasedBlock(pageCount: nat, pageSize: nat): (b: Block)
    ensures |b| == pageCount
    ensures forall i :: 0 <= i < pageCount ==> b[i] == ErasedPage(pageSize)
  {
    seq(pageCount, i => ErasedPage(pageSize))
  }

  // ----- block time stamps

  const FIRST_TIME_STAMP: nat := 0

  function NextTimeStamp(prev: nat): (ts: nat)
    ensures ts < 3
  {
    (prev + 1) % 3
  }

  /** Equal or out-of-range stamps are reported as serious and count as not newer. */
  predicate IsSrcNewerThanObj(src: nat, obj: nat) {
    src as int - obj == 1 || src as int - obj == -2
  }

  /** The stamps run 0, 1, 2, 0, and each is newer than the one before it. */
  lemma StampsCycle()
    ensures FIRST_TIME_STAMP == 0 && NextTimeStamp(0) == 1 && NextTimeStamp(1) == 2 && NextTimeStamp(2) == 0
    ensures forall src: nat, obj: nat | src < 3 && obj < 3 ::
              IsSrcNewerThanObj(src, obj) <==>
                (src == 1 && obj == 0) || (src == 2 && obj == 1) || (src == 0 && obj == 2)
  {
  }

  /** Of two stamps, one is newer exactly when it is the next one. */
  lemma NewerMeansNext(src: nat, obj: nat)
    requires src < 3 && obj < 3
    ensures IsSrcNewerThanObj(src, obj) <==> src == NextTimeStamp(obj)
    ensures src != obj ==> (IsSrcNewerThanObj(src, obj) <==> !IsSrcNewerThanObj(obj, src))
  {
  }
}
