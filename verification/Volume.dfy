/** A volume: a device with its directories and files, from its formatting to a mount, over any run of operations. */
module Volumes {
  import opened FlashModel
  import opened LogicalBlock
  import opened DeviceState
  import opened CacheSteps
  import opened FlushSteps
  import opened CopySteps
  import opened BufferSteps
  import opened WriteSteps
  import opened DeviceModel
  import opened FileLayout
  import opened FileSteps
  import opened FileObjects
  import opened MountModel
  import opened MountSteps
  import opened Mounting
  import opened MountLengths
  import opened CrashSafety
  import opened CrashRuns
  import opened FileLengths
  import opened VolumeSteps

  // ----- operations, and what they do to the directories and files

  datatype Op =
    | CreateDir(dir: nat, info: seq<Byte>)
    | CreateFile(dir: nat, info: seq<Byte>)
    | Write(serial: nat, pos: nat, append: bool, data: seq<Byte>)
    | Read(serial: nat, pos: nat, count: nat)
    | Flush(serial: nat)
    | FlushAll

  /** `end` is the position of the file after a write. */
  datatype Outcome = Refused | Made(serial: nat) | Wrote(count: nat, end: nat) | Got(bytes: seq<Byte>) | Synced

  function Start(bytes: seq<Byte>, pos: nat, append: bool): nat {
    if append then |bytes| else pos
  }

  /** The bytes of a file after a write; when the gap before the position could not be filled, zeros as far as it
      was. */
  function AfterWrite(bytes: seq<Byte>, pos: nat, append: bool, data: seq<Byte>, count: nat, end: nat): seq<Byte>
    requires count <= |data|
  {
    var at := Start(bytes, pos, append);
    if end < at then Padded(bytes, end) else WrittenAt(bytes, at, data[..count])
  }

  function BytesAt(bytes: seq<Byte>, pos: nat, count: nat): seq<Byte> {
    if pos >= |bytes| then [] else if pos + count < |bytes| then bytes[pos..pos + count] else bytes[pos..]
  }

  /** What a volume lives with: the blocks of the device, those it keeps back, and those that may turn bad. */
  datatype Limits = Limits(geo: Geo, reserved: nat, faults: nat)

  /** Fewer erased blocks may be left than are kept back: there are if all the faults have come. */
  ghost predicate MayBeFull(spec: Entries, lim: Limits) {
    lim.geo.blocks < lim.reserved + lim.faults + |Parts(spec, lim.geo)|
  }

  /** As many may be left: there are if no fault has come. Without faults this is the opposite of the other. */
  ghost predicate MayHaveRoom(spec: Entries, lim: Limits) {
    lim.geo.blocks >= lim.reserved + |Parts(spec, lim.geo)|
  }

  /** The outcomes an operation may have. A creation is refused only without a parent or a serial, or on a volume that
      is full, and succeeds only on one that is not; a write falls short only when it fills the volume. */
  ghost predicate MayEnd(spec: Entries, op: Op, out: Outcome, lim: Limits) {
    match op
    case CreateDir(dir, _) => MayCreate(spec, dir, out, lim)
    case CreateFile(dir, _) => MayCreate(spec, dir, out, lim)
    case Write(s, pos, append, data) =>
      if IsFile(spec, s) then
        && out.Wrote? && out.count <= |data|
        && var at := Start(spec[s].bytes, pos, append);
           (if out.end < at then out.count == 0 else out.end == at + out.count) &&
           (out.end < at || out.count < |data| ==> MayBeFull(Done(spec, op, out), lim))
      else out.Refused?
    case Read(s, pos, count) => if IsFile(spec, s) then out == Got(BytesAt(spec[s].bytes, pos, count)) else out.Refused?
    case Flush(s) => if s in spec then out.Synced? else out.Refused?
    case FlushAll => out.Synced?
  }

  ghost predicate MayCreate(spec: Entries, dir: nat, out: Outcome, lim: Limits) {
    if out.Refused? then !IsDir(spec, dir) || NoSerialLeft(spec) || MayBeFull(spec, lim)
    else out.Made? && NewSerial(spec, dir, out.serial) && MayHaveRoom(spec, lim)
  }

  ghost predicate NoSerialLeft(spec: Entries) {
    forall i :: ROOT_DIR_SERIAL < i < MAX_FSN ==> i in spec
  }

  /** The smallest serial that is free. */
  ghost predicate NewSerial(spec: Entries, dir: nat, s: nat) {
    IsDir(spec, dir) && s !in spec && ROOT_DIR_SERIAL < s < MAX_FSN && forall i :: ROOT_DIR_SERIAL < i < s ==> i in spec
  }

  /** The directories and files after an operation. */
  function Done(spec: Entries, op: Op, out: Outcome): Entries {
    if op.CreateDir? && out.Made? then spec[out.serial := DirEntry(op.dir, op.info)]
    else if op.CreateFile? && out.Made? then spec[out.serial := FileEntry(op.dir, op.info, [])]
    else if op.Write? && out.Wrote? && out.count <= |op.data| && IsFile(spec, op.serial) then
      var e := spec[op.serial];
      spec[op.serial := FileEntry(e.parent, e.info,
                                  AfterWrite(e.bytes, op.pos, op.append, op.data, out.count, out.end))]
    else spec
  }

  /** The directories and files of which flash holds every page as a reader sees it: a new one, one flushed since it
      was last written, and all after all buffers are flushed. */
  function SettledBy(spec: Entries, settled: set<nat>, op: Op, out: Outcome): set<nat> {
    if (op.CreateDir? || op.CreateFile?) && out.Made? then settled + {out.serial}
    else if op.Write? && out.Wrote? then settled - {op.serial}
    else if op.Flush? && out.Synced? then settled + {op.serial}
    else if op.FlushAll? then spec.Keys
    else settled
  }

  /** A run of operations, each with an outcome it may have. */
  ghost predicate RunMayEnd(spec: Entries, ops: seq<Op>, outs: seq<Outcome>, lim: Limits)
    requires |outs| == |ops|
    decreases |ops|
  {
    ops == [] || (MayEnd(spec, ops[0], outs[0], lim) &&
                  RunMayEnd(Done(spec, ops[0], outs[0]), ops[1..], outs[1..], lim))
  }

  function AllDone(spec: Entries, ops: seq<Op>, outs: seq<Outcome>): Entries
    requires |outs| == |ops|
    decreases |ops|
  {
    if ops == [] then spec else AllDone(Done(spec, ops[0], outs[0]), ops[1..], outs[1..])
  }

  function AllSettledBy(spec: Entries, settled: set<nat>, ops: seq<Op>, outs: seq<Outcome>): set<nat>
    requires |outs| == |ops|
    decreases |ops|
  {
    if ops == [] then settled
    else AllSettledBy(Done(spec, ops[0], outs[0]), SettledBy(spec, settled, ops[0], outs[0]), ops[1..], outs[1..])
  }

  lemma {:induction false} OneMoreSettled(spec: Entries, settled: set<nat>, ops: seq<Op>, outs: seq<Outcome>, op: Op,
                                          out: Outcome)
    requires |outs| == |ops|
    ensures AllSettledBy(spec, settled, ops + [op], outs + [out]) ==
            SettledBy(AllDone(spec, ops, outs), AllSettledBy(spec, settled, ops, outs), op, out)
    decreases |ops|
  {
    hide Done, SettledBy;
    var ops', outs' := ops + [op], outs + [out];
    if ops == [] {
      assert ops'[1..] == [] && outs'[1..] == [];
    } else {
      OneMoreSettled(Done(spec, ops[0], outs[0]), SettledBy(spec, settled, ops[0], outs[0]), ops[1..], outs[1..], op,
                     out);
      assert ops'[1..] == ops[1..] + [op] && outs'[1..] == outs[1..] + [out];
    }
  }

  lemma {:induction false} OneMoreOp(spec: Entries, ops: seq<Op>, outs: seq<Outcome>, op: Op, out: Outcome, lim: Limits)
    requires |outs| == |ops| && RunMayEnd(spec, ops, outs, lim) && MayEnd(AllDone(spec, ops, outs), op, out, lim)
    ensures RunMayEnd(spec, ops + [op], outs + [out], lim)
    ensures AllDone(spec, ops + [op], outs + [out]) == Done(AllDone(spec, ops, outs), op, out)
    decreases |ops|
  {
    var ops', outs' := ops + [op], outs + [out];
    if ops == [] {
      assert ops'[1..] == [] && outs'[1..] == [];
    } else {
      OneMoreOp(Done(spec, ops[0], outs[0]), ops[1..], outs[1..], op, out, lim);
      assert ops'[1..] == ops[1..] + [op] && outs'[1..] == outs[1..] + [out];
    }
  }

  /** Attributes are a record of a fixed size. */
  predicate OpFits(op: Op, infoSize: nat) {
    op.CreateDir? || op.CreateFile? ==> |op.info| == infoSize
  }

  // ----- the volume

  /** A directory or file in the tree; the length of a file is the running one. */
  datatype FsNode = DirNode(parent: nat) | FileNode(parent: nat, len: nat)

  function NodeOf(e: Entry): FsNode {
    if e.DirEntry? then DirNode(e.parent) else FileNode(e.parent, |e.bytes|)
  }

  ghost predicate NodesMatch(nodes: map<nat, FsNode>, spec: Entries) {
    nodes.Keys == spec.Keys && forall s :: s in nodes ==> nodes[s] == NodeOf(spec[s])
  }

  class Volume {
    const dev: Device
    const reserved: nat
    const infoSize: nat
    var nodes: map<nat, FsNode>
    ghost var spec: Entries
    // Directories and files of which flash holds every page.
    ghost var settled: set<nat>

    ghost predicate Valid()
      reads this, dev
    {
      && dev.Valid() && Calm(dev.buf, dev.tree, Wear(dev.faults, dev.maxFaults), dev.dirtyMax)
      && dev.geo.blocks <= SERIALS && reserved >= dev.maxFaults + 2 && 0 < infoSize <= dev.geo.pageSize
      && NodesMatch(nodes, spec) && Held(spec, dev.content, dev.geo, dev.typeOf, dev.flash, dev.tree.nodes)
      && AllSettled(spec, settled, dev.buf.pool)
    }

    lemma ValidIs()
      ensures Valid() <==>
              dev.Valid() && Calm(dev.buf, dev.tree, Wear(dev.faults, dev.maxFaults), dev.dirtyMax) &&
              dev.geo.blocks <= SERIALS && reserved >= dev.maxFaults + 2 && 0 < infoSize <= dev.geo.pageSize &&
              NodesMatch(nodes, spec) && Held(spec, dev.content, dev.geo, dev.typeOf, dev.flash, dev.tree.nodes) &&
              AllSettled(spec, settled, dev.buf.pool)
    {
    }

    ghost function Lim(): (lim: Limits) {
      Limits(dev.geo, reserved, dev.maxFaults)
    }

    /** The erased blocks are those that are neither bad nor needed by the directories and files. */
    lemma BlocksLeft()
      requires Valid()
      ensures |dev.tree.erased| + |dev.tree.bad| + |Parts(spec, dev.geo)| == dev.geo.blocks
      ensures |dev.tree.bad| + dev.faults <= dev.maxFaults
      ensures |dev.tree.erased| < reserved ==> MayBeFull(spec, Lim())
      ensures |dev.tree.erased| >= reserved ==> MayHaveRoom(spec, Lim())
    {
      hide Parts, DeviceOk, Held, NodesMatch;
      PartsAreNodes(spec, dev.geo, dev.typeOf, dev.buf, dev.flash, dev.tree, dev.owner, dev.content);
      BlocksCounted(dev.geo, dev.typeOf, dev.buf, dev.flash, dev.tree, dev.owner, dev.content);
    }

    /** Format: an empty volume. Block serials in tags have 14 bits. As many blocks may turn bad as are kept back beside
        the two that a write to a new block takes. */
    constructor (geo: Geo, dirtyMax: nat, bufs: nat, groups: nat, reserved: nat, infoSize: nat, maxFaults: nat)
      requires maxFaults + 2 <= geo.blocks <= SERIALS && bufs > 0 && groups > 0 && dirtyMax > 0
      requires reserved >= maxFaults + 2 && 0 < infoSize <= geo.pageSize
      ensures Valid() && fresh(dev) && dev.geo == geo && spec == map[] && settled == {} && this.infoSize == infoSize
      ensures Lim() == Limits(geo, reserved, maxFaults)
    {
      dev := new Device(geo, dirtyMax, _ => DIR, maxFaults, bufs, groups);
      this.reserved, this.infoSize := reserved, infoSize;
      nodes, spec, settled := map[], map[], {};
      new;
      hide *;
      NewDeviceCalm(geo, bufs, groups, dirtyMax, maxFaults);
      NothingHeld(geo, dev.typeOf, dev.flash);
      NothingSettled(dev.buf.pool);
      NoNodes();
      LimIs();
      ValidIs();
    }

    lemma LimIs()
      ensures Lim() == Limits(dev.geo, reserved, dev.maxFaults)
    {
    }

    /** The smallest serial that no directory or file has. */
    method FindFreeSerial() returns (s: nat)
      ensures s == INVALID_SERIAL ==> forall i :: ROOT_DIR_SERIAL < i < MAX_FSN ==> i in nodes
      ensures s != INVALID_SERIAL ==>
                ROOT_DIR_SERIAL < s < MAX_FSN && s !in nodes && forall i :: ROOT_DIR_SERIAL < i < s ==> i in nodes
    {
      for i := ROOT_DIR_SERIAL + 1 to MAX_FSN
        invariant forall j :: ROOT_DIR_SERIAL < j < i ==> j in nodes
      {
        if i !in nodes {
          return i;
        }
      }
      s := INVALID_SERIAL;
    }

    /** Create a directory or file. It is refused when its parent is no directory, when serials have run out, and when
        fewer blocks than reserved are left. */
    method Create(isDir: bool, parent: nat, info: seq<Byte>) returns (out: Outcome)
      requires Valid() && |info| == infoSize
      modifies this`nodes, this`spec, this`settled, dev
      ensures Valid()
      ensures settled == SettledBy(old(spec), old(settled), if isDir then CreateDir(parent, info)
                                                            else CreateFile(parent, info), out)
      ensures MayEnd(old(spec), if isDir then CreateDir(parent, info) else CreateFile(parent, info), out, Lim())
      ensures out.Refused? ==> !IsDir(old(spec), parent) || NoSerialLeft(old(spec)) || |old(dev.tree).erased| < reserved
      ensures out.Made? ==> |old(dev.tree).erased| >= reserved
      ensures spec == Done(old(spec), if isDir then CreateDir(parent, info) else CreateFile(parent, info), out)
    {
      hide *;
      ValidIs();
      BlocksLeft();
      out := Refused;
      CreateRefused(spec, settled, isDir, parent, info, Lim());
      DirOf(nodes, spec, parent);
      if !(parent == ROOT_DIR_SERIAL || (parent in nodes && nodes[parent].DirNode?)) {
        return;
      }
      var s := FindFreeSerial();
      SerialsIn(nodes, spec, s);
      if s == INVALID_SERIAL {
        return;
      }
      if |dev.tree.erased| < reserved {
        return;
      }
      SameKeys(nodes, spec, s);
      ParentDiffers(spec, parent, s);
      NewSerialIsFree(spec, dev.content, dev.geo, dev.typeOf, dev.flash, dev.tree.nodes, parent, s, isDir);
      NewTypes(dev.typeOf, (parent, s), isDir);
      ghost var v0, types0 := View(dev.content, dev.buf, dev.flash, dev.tree), dev.typeOf;
      dev.ValidIs();
      DirtyHavePages(dev.geo, dev.typeOf, dev.buf, dev.flash, dev.tree, dev.owner, dev.content);
      dev.SetTypes(TypesWith(dev.typeOf, (parent, s), isDir));
      var made := CreateObject(dev, if isDir then DIR else FILE, (parent, s), info, reserved);
      ghost var v := View(dev.content, dev.buf, dev.flash, dev.tree);
      dev.ValidIs();
      NewInfoPage(dev.geo, info);
      HeldAfterCreate(spec, dev.geo, types0, v0, v, dev.owner, parent, s, isDir, info,
                      Overwritten(BlankPage(dev.geo), 0, info));
      OnwardGrows(v0.buf, v0.flash, v0.tree, v.buf, v.flash, v.tree, {});
      NoneOfNew(v0.content, v0.buf.pool, s);
      SettledAfterCreate(spec, settled, v0.buf.pool, dev.buf.pool, parent, s, isDir, info);
      out := Made(s);
      CreateDone(spec, settled, nodes, isDir, parent, info, s, Lim());
      nodes := nodes[s := if isDir then DirNode(parent) else FileNode(parent, 0)];
      spec := spec[s := NewEntry(parent, info, isDir)];
      settled := settled + {s};
      ValidIs();
    }

    /** Open a file at a position. */
    method Open(s: nat, pos: nat, append: bool, readOnly: bool, writeOnly: bool) returns (f: FileObject)
      requires Valid() && IsFile(spec, s)
      ensures fresh(f) && f.dev == dev && f.Valid() && s in spec && f.file == NameOf(spec, s) && f.reserved == reserved
      ensures f.append == append && f.readOnly == readOnly && f.writeOnly == writeOnly && f.pos == pos
      ensures IsFile(spec, s) && f.bytes == spec[s].bytes
    {
      hide *;
      ValidIs();
      HeldFile(spec, dev.content, dev.geo, dev.typeOf, dev.flash, dev.tree.nodes, s);
      FileNodeIs(nodes, spec, s);
      CalmIsReady(dev.buf, dev.tree, Wear(dev.faults, dev.maxFaults), dev.dirtyMax, NameOf(spec, s));
      f := new FileObject(dev, (nodes[s].parent, s), reserved, append, readOnly, writeOnly, nodes[s].len,
                          spec[s].bytes);
      f.pos := pos;
      f.HoldingIs(f.file);
      f.ValidIs();
    }

    /** Open a file, write to it and close it; the tree keeps its new length. */
    method WriteFile(s: nat, pos: nat, append: bool, data: seq<Byte>) returns (out: Outcome)
      requires Valid()
      modifies this`nodes, this`spec, this`settled, dev
      ensures Valid() && MayEnd(old(spec), Write(s, pos, append, data), out, Lim())
      ensures settled == SettledBy(old(spec), old(settled), Write(s, pos, append, data), out)
      ensures spec == Done(old(spec), Write(s, pos, append, data), out)
      ensures out.Wrote? && (out.count < |data| ||
                             (IsFile(old(spec), s) && out.end < Start(old(spec)[s].bytes, pos, append))) ==>
                |dev.tree.erased| < reserved
    {
      hide *;
      ValidIs();
      ghost var op := Write(s, pos, append, data);
      FileIs(nodes, spec, s);
      out := Refused;
      if !(s in nodes && nodes[s].FileNode?) {
        RefusedOp(spec, settled, op, Lim());
        return;
      }
      HeldFile(spec, dev.content, dev.geo, dev.typeOf, dev.flash, dev.tree.nodes, s);
      var f := Open(s, pos, append, false, false);
      ghost var bytes0, v0 := f.bytes, View(dev.content, dev.buf, dev.flash, dev.tree);
      ViewIs(dev);
      var count := f.WriteObject(data);
      ViewIs(dev);
      f.ValidIs();
      f.HoldingIs(f.file);
      out := Wrote(count, f.pos);
      StartIs(bytes0, pos, append);
      WriteDone(spec, settled, nodes, s, pos, append, data, count, f.pos, bytes0, f.bytes);
      InTreeAt(dev.geo, dev.tree.nodes, f.file, |f.bytes|, f.file, 0);
      ReadyIsCalm(dev.buf, dev.tree, Wear(dev.faults, dev.maxFaults), dev.dirtyMax, f.file);
      dev.ValidIs();
      HeldAfterWrite(spec, dev.geo, dev.typeOf, v0, ViewOf(dev), dev.owner, s, f.bytes);
      SettledAfterWrite(spec, settled, v0, ViewOf(dev), s, f.bytes);
      ghost var spec0 := spec;
      nodes := nodes[s := FileNode(nodes[s].parent, f.len)];
      spec := spec[s := FileEntry(spec[s].parent, spec[s].info, f.bytes)];
      settled := settled - {s};
      ValidIs();
      BlocksLeft();
      WriteMayEnd(spec0, spec, s, pos, append, data, count, f.pos, Lim());
    }

    /** Open a file, read from it and close it. */
    method ReadFile(s: nat, pos: nat, count: nat) returns (out: Outcome)
      requires Valid()
      modifies dev
      ensures Valid() && MayEnd(spec, Read(s, pos, count), out, Lim()) && spec == Done(spec, Read(s, pos, count), out)
      ensures dev.content == old(dev.content) && settled == SettledBy(spec, settled, Read(s, pos, count), out)
    {
      hide *;
      ValidIs();
      FileIs(nodes, spec, s);
      out := Refused;
      if !(s in nodes && nodes[s].FileNode?) {
        RefusedOp(spec, settled, Read(s, pos, count), Lim());
        return;
      }
      HeldFile(spec, dev.content, dev.geo, dev.typeOf, dev.flash, dev.tree.nodes, s);
      var f := Open(s, pos, false, true, false);
      ghost var v0 := View(dev.content, dev.buf, dev.flash, dev.tree);
      ViewIs(dev);
      var data := f.ReadObject(count);
      ViewIs(dev);
      f.ValidIs();
      f.HoldingIs(f.file);
      out := Got(data);
      ReadDone(spec, settled, s, pos, count, data, Lim());
      InTreeAt(dev.geo, dev.tree.nodes, f.file, |f.bytes|, f.file, 0);
      ReadyIsCalm(dev.buf, dev.tree, Wear(dev.faults, dev.maxFaults), dev.dirtyMax, f.file);
      dev.ValidIs();
      WithinIs(v0, ViewOf(dev), f.file);
      HeldAfterFlush(spec, dev.geo, dev.typeOf, v0, ViewOf(dev), dev.owner);
      SettledLess(spec, settled, v0.buf.pool, settled, dev.buf.pool);
      ValidIs();
    }

    /** Flush the dirty buffers of one object. */
    method FlushHead(o: Obj)
      requires Valid()
      modifies dev
      ensures Valid() && dev.content == old(dev.content)
      ensures DirtyObjs(dev.buf.pool) <= DirtyObjs(old(dev.buf).pool) && o !in DirtyObjs(dev.buf.pool)
      ensures OnlyOfObj(old(dev.buf).pool, dev.buf.pool, o)
    {
      hide *;
      ValidIs();
      ghost var v0, faults0 := View(dev.content, dev.buf, dev.flash, dev.tree), dev.faults;
      ghost var x := CalmFor(v0.buf, v0.tree, Wear(faults0, dev.maxFaults), dev.dirtyMax);
      ReadyIs(v0.buf, v0.tree, Wear(faults0, dev.maxFaults), dev.dirtyMax, x);
      var ok := dev.FlushGroup(o);
      CleanObj(dev.buf.pool, o);
      AfterFlush(v0.buf, v0.tree, Wear(faults0, dev.maxFaults), dev.buf, dev.tree, Wear(dev.faults, dev.maxFaults),
                 dev.dirtyMax, x);
      OnlyFlushed(v0);
    }

    /** Flush the dirty buffers of all objects with a parent: for a file, those of its data blocks. */
    method FlushDataBlocks(s: nat)
      requires Valid()
      modifies dev
      ensures Valid() && dev.content == old(dev.content)
      ensures DirtyObjs(dev.buf.pool) <= DirtyObjs(old(dev.buf).pool)
      ensures forall o :: o in DirtyObjs(dev.buf.pool) ==> o.0 != s
      ensures OnlyOfParent(old(dev.buf).pool, dev.buf.pool, s)
    {
      hide *;
      ValidIs();
      ghost var v0, faults0 := View(dev.content, dev.buf, dev.flash, dev.tree), dev.faults;
      ghost var x := CalmFor(v0.buf, v0.tree, Wear(faults0, dev.maxFaults), dev.dirtyMax);
      ReadyIs(v0.buf, v0.tree, Wear(faults0, dev.maxFaults), dev.dirtyMax, x);
      var ok := dev.FlushGroupMatchParent(s);
      CleanParent(dev.buf.pool, s);
      AfterFlush(v0.buf, v0.tree, Wear(faults0, dev.maxFaults), dev.buf, dev.tree, Wear(dev.faults, dev.maxFaults),
                 dev.dirtyMax, x);
      OnlyFlushed(v0);
    }

    /** A flush has changed neither what a reader sees nor the directories and files. */
    lemma OnlyFlushed(v0: View)
      requires Held(spec, v0.content, dev.geo, dev.typeOf, v0.flash, v0.tree.nodes) && NodesMatch(nodes, spec)
      requires AllSettled(spec, settled, v0.buf.pool) && v0.tree.nodes.Keys <= dev.tree.nodes.Keys
      requires dev.content == v0.content && dev.Valid()
      requires Onward(v0.buf, v0.flash, v0.tree, dev.buf, dev.flash, dev.tree, {})
      requires Calm(dev.buf, dev.tree, Wear(dev.faults, dev.maxFaults), dev.dirtyMax)
      requires dev.geo.blocks <= SERIALS && reserved >= dev.maxFaults + 2 && 0 < infoSize <= dev.geo.pageSize
      ensures Valid() && DirtyObjs(dev.buf.pool) <= DirtyObjs(v0.buf.pool)
    {
      hide *;
      dev.ValidIs();
      OnwardGrows(v0.buf, v0.flash, v0.tree, dev.buf, dev.flash, dev.tree, {});
      HeldAfterFlush(spec, dev.geo, dev.typeOf, v0, View(dev.content, dev.buf, dev.flash, dev.tree), dev.owner);
      SettledLess(spec, settled, v0.buf.pool, settled, dev.buf.pool);
      ValidIs();
    }

    /** Flush a directory or file: for a file, its data blocks and then its head block. */
    method FlushObject(s: nat) returns (out: Outcome)
      requires Valid()
      modifies this`settled, dev
      ensures Valid() && MayEnd(spec, Flush(s), out, Lim()) && spec == Done(spec, Flush(s), out)
      ensures dev.content == old(dev.content) && settled == SettledBy(spec, old(settled), Flush(s), out)
      ensures if s in spec then OnlyParts(spec, old(dev.buf).pool, dev.buf.pool, s) else dev.buf == old(dev.buf)
    {
      hide *;
      ValidIs();
      dev.ValidIs();
      DirtyHavePages(dev.geo, dev.typeOf, dev.buf, dev.flash, dev.tree, dev.owner, dev.content);
      ghost var pool0 := dev.buf.pool;
      out := Refused;
      FileIs(nodes, spec, s);
      FlushDone(nodes, spec, settled, s, Lim());
      if s !in nodes {
        return;
      }
      out := Synced;
      if nodes[s].FileNode? {
        FlushDataBlocks(s);
      }
      ghost var pool1 := dev.buf.pool;
      FlushHead((nodes[s].parent, s));
      ValidIs();
      PartsOnly(spec, dev.content, dev.geo, dev.typeOf, dev.flash, dev.tree.nodes, pool0, pool1, dev.buf.pool, s);
      SettledMore(spec, settled, dev.buf.pool, s);
      settled := settled + {s};
      ValidIs();
    }

    /** Flush all buffers. */
    method Sync() returns (out: Outcome)
      requires Valid()
      modifies this`settled, dev
      ensures Valid() && MayEnd(spec, FlushAll, out, Lim()) && spec == Done(spec, FlushAll, out)
      ensures dev.content == old(dev.content) && settled == SettledBy(spec, old(settled), FlushAll, out)
      ensures forall i :: 0 <= i < |dev.buf.pool| ==> dev.buf.pool[i].mark != Dirty
    {
      hide *;
      ValidIs();
      SyncDone(spec, settled, Lim());
      out := Synced;
      ghost var v0, faults0 := View(dev.content, dev.buf, dev.flash, dev.tree), dev.faults;
      ghost var x := CalmFor(v0.buf, v0.tree, Wear(faults0, dev.maxFaults), dev.dirtyMax);
      ReadyIs(v0.buf, v0.tree, Wear(faults0, dev.maxFaults), dev.dirtyMax, x);
      var ok := dev.FlushAll();
      AfterFlush(v0.buf, v0.tree, Wear(faults0, dev.maxFaults), dev.buf, dev.tree, Wear(dev.faults, dev.maxFaults),
                 dev.dirtyMax, x);
      OnlyFlushed(v0);
      EverySettled(spec, dev.buf.pool);
      ValidIs();
      settled := spec.Keys;
      ValidIs();
    }

    /** One operation. A flush leaves on flash what it is asked for, as a reader sees it. */
    method Do(op: Op) returns (out: Outcome)
      requires Valid() && OpFits(op, infoSize)
      modifies this`nodes, this`spec, this`settled, dev
      ensures Valid() && MayEnd(old(spec), op, out, Lim()) && spec == Done(old(spec), op, out)
      ensures settled == SettledBy(old(spec), old(settled), op, out)
      ensures StoredAsSeen(spec, settled, dev.content, dev.flash, dev.tree.nodes)
      ensures op.FlushAll? ==> forall i :: 0 <= i < |dev.buf.pool| ==> dev.buf.pool[i].mark != Dirty
      ensures op.Flush? && op.serial in spec ==>
                (forall o :: o in DirtyObjs(dev.buf.pool) ==> !PartOf(spec, op.serial, o)) &&
                OnlyParts(spec, old(dev.buf).pool, dev.buf.pool, op.serial)
    {
      hide Valid, IsFile, IsDir, NewSerial, Done, MayEnd, Lim, NoSerialLeft, SettledBy, DirtyObjs, PartOf, StoredAsSeen,
           OnlyParts;
      match op {
        case CreateDir(dir, info) => out := Create(true, dir, info);
        case CreateFile(dir, info) => out := Create(false, dir, info);
        case Write(s, pos, append, data) => out := WriteFile(s, pos, append, data);
        case Read(s, pos, count) => out := ReadFile(s, pos, count);
        case Flush(s) => out := FlushObject(s);
        case FlushAll => out := Sync();
      }
      NowOnFlash();
      FlushedSettled(old(spec), old(settled), op, out, Lim());
    }

    lemma NowOnFlash()
      requires Valid()
      ensures StoredAsSeen(spec, settled, dev.content, dev.flash, dev.tree.nodes)
      ensures forall s, o :: s in settled && o in DirtyObjs(dev.buf.pool) ==> s in spec && !PartOf(spec, s, o)
    {
      hide *;
      ValidIs();
      dev.ValidIs();
      SettledOnFlash(spec, settled, dev.geo, dev.typeOf, dev.buf, dev.flash, dev.tree, dev.owner, dev.content);
      SettledIs(spec, settled, dev.buf.pool);
    }

    /** Any run of operations acts on the directories and files as the operations one by one do on their bytes. */
    method Run(ops: seq<Op>) returns (outs: seq<Outcome>)
      requires Valid() && forall i :: 0 <= i < |ops| ==> OpFits(ops[i], infoSize)
      modifies this`nodes, this`spec, this`settled, dev
      ensures Valid() && |outs| == |ops| && RunMayEnd(old(spec), ops, outs, Lim()) &&
              spec == AllDone(old(spec), ops, outs)
      ensures settled == AllSettledBy(old(spec), old(settled), ops, outs)
      ensures StoredAsSeen(spec, settled, dev.content, dev.flash, dev.tree.nodes)
    {
      hide Valid, MayEnd, Done, OpFits, Lim, SettledBy, StoredAsSeen, PartOf, DirtyObjs;
      outs := [];
      NowOnFlash();
      for i := 0 to |ops|
        invariant Valid() && |outs| == i
        invariant RunMayEnd(old(spec), ops[..i], outs, Lim()) && spec == AllDone(old(spec), ops[..i], outs)
        invariant settled == AllSettledBy(old(spec), old(settled), ops[..i], outs)
        invariant StoredAsSeen(spec, settled, dev.content, dev.flash, dev.tree.nodes)
      {
        var out := Do(ops[i]);
        OneMoreSettled(old(spec), old(settled), ops[..i], outs, ops[i], out);
        OneMoreOp(old(spec), ops[..i], outs, ops[i], out, Lim());
        assert ops[..i] + [ops[i]] == ops[..i + 1];
        outs := outs + [out];
      }
      assert ops[..|ops|] == ops;
    }

    /** Mount what has been written out: the tree of the run, the same block for each object, every file with its
        length. */
    method Mount(failing: set<nat>, now: nat) returns (ok: bool, m: Mount)
      requires Valid() && forall i :: 0 <= i < |dev.buf.pool| ==> dev.buf.pool[i].mark != Dirty
      ensures ok && Remounted(m.tree.nodes, m.blocks, nodes, spec, dev.tree.nodes, dev.typeOf, dev.content)
      ensures forall b: nat :: b < dev.geo.blocks ==> b in dev.flash
      ensures BlocksPlaced(BlocksOf(dev.flash, dev.geo.blocks), Marked(dev.tree), m.blocks, m.marked, m.tree,
                           m.unchecked, failing, dev.geo.pageSize)
    {
      hide *;
      ValidIs();
      dev.ValidIs();
      TreeOfVolume(spec, dev.geo, dev.typeOf, dev.buf, dev.flash, dev.tree, dev.owner, dev.content);
      ok, m := RemountDevice(dev, failing, now, BytesOfFiles(spec));
      InfoIs(spec, dev.content, dev.geo, dev.typeOf, dev.flash, dev.tree.nodes);
      RemountedIs(m.tree.nodes, m.blocks, nodes, spec, dev.tree.nodes, dev.typeOf, dev.content);
    }

    /** Flush a group by a merge, cut the power at any step of it, and mount what that has left: on the way blocks may
        have turned bad. Whatever the cut has left, the mounted tree has the directories and files of the volume, the
        object that was flushed with the pages flash held before, or, once the flush is over, with those a reader saw,
        and every other object on its block as it was. */
    method FlushCutMount(slot: nat, o: Obj, blocks: Blocks, marked: set<nat>, failing: set<nat>, now: nat)
      returns (done: bool, ok: bool, m: Mount)
      requires Valid() && slot < |dev.buf.groups| && GroupOf(dev.buf, slot, o)
      requires Sized(blocks) && |blocks| == dev.geo.blocks
      modifies dev
      ensures done && Valid() && dev.content == old(dev.content) && dev.typeOf == old(dev.typeOf)
      ensures |old(dev.history)| < |dev.history| && Over(dev.history[|dev.history| - 1], dev.flash, dev.tree, done)
      ensures o in old(dev.tree).nodes && old(dev.tree).nodes[o] in old(dev.flash) &&
              |old(dev.flash)[old(dev.tree).nodes[o]]| > 0
      ensures forall i :: |old(dev.history)| <= i < |dev.history| ==>
                CutState(dev.history[i], dev.geo, dev.typeOf, o, old(dev.buf), old(dev.flash), old(dev.tree),
                         old(dev.owner), dev.flash, dev.tree, done)
      ensures ok ==> BlocksPlaced(blocks, marked, m.blocks, m.marked, m.tree, m.unchecked, failing, dev.geo.pageSize)
      ensures CutState(SnapshotOf(blocks, marked), dev.geo, dev.typeOf, o, old(dev.buf), old(dev.flash), old(dev.tree),
                       old(dev.owner), dev.flash, dev.tree, done) ==>
              ok && Durable(m.tree.nodes, m.blocks, spec, old(settled), dev.typeOf, dev.content) &&
              NoHoles(m.tree.nodes, m.blocks, spec, dev.typeOf, old(dev.tree).nodes, dev.geo)
      ensures CutState(SnapshotOf(blocks, marked), dev.geo, dev.typeOf, o, old(dev.buf), old(dev.flash), old(dev.tree),
                       old(dev.owner), dev.flash, dev.tree, done) ==>
              ok && HeadsAre(m.tree.nodes.Keys, nodes) &&
              var over := Over(SnapshotOf(blocks, marked), dev.flash, dev.tree, done);
              SurviveWith(m.blocks, m.tree, if over then dev.tree.nodes else old(dev.tree).nodes, dev.typeOf, o,
                          if over then ContentAt(dev.content, o) else Stored(old(dev.flash), old(dev.tree).nodes, o),
                          old(dev.flash), old(dev.tree).nodes)
    {
      hide *;
      ValidIs();
      dev.ValidIs();
      TreeOfVolume(spec, dev.geo, dev.typeOf, dev.buf, dev.flash, dev.tree, dev.owner, dev.content);
      ghost var buf0, tree0, faults0, flash0, owner0 := dev.buf, dev.tree, dev.faults, dev.flash, dev.owner;
      ghost var v0 := View(dev.content, buf0, flash0, tree0);
      GroupIsDirty(buf0, slot, o);
      SettledIs(spec, settled, buf0.pool);
      SettledOnFlash(spec, settled, dev.geo, dev.typeOf, buf0, flash0, tree0, owner0, dev.content);
      FilesLaid(spec, dev.content, dev.geo, dev.typeOf, flash0, tree0.nodes);
      StoredNotMore(dev.geo, dev.typeOf, buf0, flash0, tree0, owner0, dev.content, o);
      CalmGroup(buf0, tree0, Wear(faults0, dev.maxFaults), dev.dirtyMax, slot, o);
      CalmIsReady(buf0, tree0, Wear(faults0, dev.maxFaults), dev.dirtyMax, o);
      done, ok, m := CrashRuns.FlushCutMount(dev, slot, o, false, blocks, marked, failing, now);
      WearIs();
      ReadyIs(buf0, tree0, Wear(faults0, dev.maxFaults), dev.dirtyMax, o);
      RoomKept(buf0, tree0, Wear(faults0, dev.maxFaults), dev.buf, dev.tree, Wear(dev.faults, dev.maxFaults), slot, o,
               o);
      FlushStepIsFlushed(buf0, dev.buf, slot, o);
      AfterFlush(buf0, tree0, Wear(faults0, dev.maxFaults), dev.buf, dev.tree, Wear(dev.faults, dev.maxFaults),
                 dev.dirtyMax, o);
      OnlyFlushed(v0);
      if CutState(SnapshotOf(blocks, marked), dev.geo, dev.typeOf, o, buf0, flash0, tree0, owner0, dev.flash, dev.tree,
                  done) {
        var over := Over(SnapshotOf(blocks, marked), dev.flash, dev.tree, done);
        SurvivorsHeads(m.blocks, m.tree, if over then dev.tree.nodes else tree0.nodes, dev.typeOf, o,
                       if over then ContentAt(dev.content, o) else Stored(flash0, tree0.nodes, o),
                       flash0, tree0.nodes, nodes, spec);
        SurvivorsDurable(m.blocks, m.tree, if over then dev.tree.nodes else tree0.nodes, dev.typeOf, o,
                         if over then ContentAt(dev.content, o) else Stored(flash0, tree0.nodes, o),
                         flash0, tree0.nodes, spec, settled, dev.content);
        SurvivorsWhole(m.blocks, m.tree, if over then dev.tree.nodes else tree0.nodes, dev.typeOf, o,
                       if over then ContentAt(dev.content, o) else Stored(flash0, tree0.nodes, o),
                       flash0, tree0.nodes, spec, dev.geo);
      }
    }
  }

  // ----- the mounted tree

  /** One node for each object in the tree, on the same block, with the pages a reader saw; directories and files are
      those of the volume with their attributes, and a file's node has the length the file had. */
  ghost predicate Remounted(mounted: map<Key, Node>, blocks: Blocks, nodes: map<nat, FsNode>, spec: Entries,
                            tree: map<Obj, nat>, typeOf: Obj -> nat, content: Content) {
    && mounted.Keys == (set o | o in tree :: ObjKey(typeOf(o), o))
    && (forall o :: o in tree ==> OnSameBlock(mounted, blocks, tree, typeOf, content, o))
    && HeadsAre(mounted.Keys, nodes)
    && (forall s :: s in nodes && nodes[s].FileNode? ==> HasLength(mounted, nodes, spec, s))
    && (forall s :: s in nodes ==> InfoFound(mounted, blocks, spec, s, if nodes[s].DirNode? then DIR else FILE))
  }

  /** The first page of the block found for a directory or file holds its attributes. */
  ghost predicate InfoFound(mounted: map<Key, Node>, blocks: Blocks, spec: Entries, s: nat, ty: nat) {
    s in spec && ObjKey(ty, NameOf(spec, s)) in mounted &&
    mounted[ObjKey(ty, NameOf(spec, s))].block < |blocks| &&
    HasInfo(Logical(blocks[mounted[ObjKey(ty, NameOf(spec, s))].block]), spec[s].info)
  }

  ghost predicate OnSameBlock(mounted: map<Key, Node>, blocks: Blocks, tree: map<Obj, nat>, typeOf: Obj -> nat,
                              content: Content, o: Obj)
    requires o in tree
  {
    ObjKey(typeOf(o), o) in mounted &&
    var node := mounted[ObjKey(typeOf(o), o)];
    node.block == tree[o] < |blocks| && node.parent == o.0 && node.serial == o.1 &&
    Logical(blocks[node.block]) == ContentAt(content, o)
  }

  ghost predicate HasLength(mounted: map<Key, Node>, nodes: map<nat, FsNode>, spec: Entries, s: nat)
    requires s in nodes && nodes[s].FileNode?
  {
    s in spec && spec[s].FileEntry? && FileKey(s) in mounted &&
    mounted[FileKey(s)].len == nodes[s].len == |spec[s].bytes|
  }

  lemma {:induction false} RemountedIs(mounted: map<Key, Node>, blocks: Blocks, nodes: map<nat, FsNode>, spec: Entries,
                                       tree: map<Obj, nat>, typeOf: Obj -> nat, content: Content)
    requires NodesMatch(nodes, spec) && EntriesOk(spec) && KindsOk(spec, tree, typeOf)
    requires mounted.Keys == set o | o in tree :: ObjKey(typeOf(o), o)
    requires forall o :: o in tree ==>
               var node := mounted[ObjKey(typeOf(o), o)];
               node.block == tree[o] && node.parent == o.0 && node.serial == o.1 &&
               (typeOf(o) == FILE ==> o in BytesOfFiles(spec) && node.len == |BytesOfFiles(spec)[o]|) &&
               node.block < |blocks| && Logical(blocks[node.block]) == ContentAt(content, o)
    requires forall s :: s in spec ==> HasInfo(ContentAt(content, NameOf(spec, s)), spec[s].info)
    ensures Remounted(mounted, blocks, nodes, spec, tree, typeOf, content)
  {
    hide Logical, ContentAt, EntriesOk, NodesMatch, KindsOk, BytesOfFiles, HasLength, ObjKey, InfoFound, HasInfo;
    forall o | o in tree ensures FoundWith(mounted, blocks, typeOf, o, ContentAt(content, o)) {
      assert ObjKey(typeOf(o), o) in mounted.Keys;
    }
    forall s | s in nodes ensures InfoFound(mounted, blocks, spec, s, if nodes[s].DirNode? then DIR else FILE) {
      InfoIsFound(mounted, blocks, nodes, spec, tree, typeOf, content, s);
    }
    forall s | s in nodes && nodes[s].FileNode? ensures HasLength(mounted, nodes, spec, s) {
      LengthIs(mounted, nodes, spec, tree, typeOf, s);
    }
    KeysOfHeads(mounted.Keys, nodes, spec, tree, typeOf);
  }

  lemma {:induction false} InfoIsFound(mounted: map<Key, Node>, blocks: Blocks, nodes: map<nat, FsNode>, spec: Entries,
                                       tree: map<Obj, nat>, typeOf: Obj -> nat, content: Content, s: nat)
    requires NodesMatch(nodes, spec) && KindsOk(spec, tree, typeOf) && s in nodes
    requires forall o :: o in tree ==> FoundWith(mounted, blocks, typeOf, o, ContentAt(content, o))
    requires s in spec ==> HasInfo(ContentAt(content, NameOf(spec, s)), spec[s].info)
    ensures InfoFound(mounted, blocks, spec, s, if nodes[s].DirNode? then DIR else FILE)
  {
    hide Logical, ContentAt, ObjKey, HasInfo;
    assert NameOf(spec, s) in tree;
  }

  // ----- after a cut

  /** A mount finds every page of these directories and files. */
  ghost predicate Durable(mounted: map<Key, Node>, blocks: Blocks, spec: Entries, settled: set<nat>,
                          typeOf: Obj -> nat, content: Content) {
    forall s, o: Obj :: s in settled && s in spec && PartOf(spec, s, o) && ContentAt(content, o) != [] ==>
      FoundWith(mounted, blocks, typeOf, o, ContentAt(content, o))
  }

  ghost predicate FoundWith(mounted: map<Key, Node>, blocks: Blocks, typeOf: Obj -> nat, o: Obj, pages: seq<LPage>) {
    ObjKey(typeOf(o), o) in mounted && mounted[ObjKey(typeOf(o), o)].block < |blocks| &&
    Logical(blocks[mounted[ObjKey(typeOf(o), o)].block]) == pages
  }

  /** Before a block of a file that is found, every block is found with all the pages it can have. */
  ghost predicate NoHoles(mounted: map<Key, Node>, blocks: Blocks, spec: Entries, typeOf: Obj -> nat,
                          tree: map<Obj, nat>, g: Geo) {
    forall s, f: nat, k: nat :: IsFile(spec, s) && f < k && BlockObj(NameOf(spec, s), k) in tree ==>
      FoundFull(mounted, blocks, typeOf, BlockObj(NameOf(spec, s), f), g)
  }

  ghost predicate FoundFull(mounted: map<Key, Node>, blocks: Blocks, typeOf: Obj -> nat, o: Obj, g: Geo) {
    ObjKey(typeOf(o), o) in mounted && mounted[ObjKey(typeOf(o), o)].block < |blocks| &&
    |Logical(blocks[mounted[ObjKey(typeOf(o), o)].block])| >= g.pages
  }

  /** What was settled before a cut is found after it. */
  lemma {:induction false} SurvivorsDurable(blocks: Blocks, tree: Tree, found: map<Obj, nat>, typeOf: Obj -> nat,
                                            o: Obj, pages: seq<LPage>, flash0: Flash, nodes0: map<Obj, nat>,
                                            spec: Entries, settled: set<nat>, content: Content)
    requires SurviveWith(blocks, tree, found, typeOf, o, pages, flash0, nodes0)
    requires StoredAsSeen(spec, settled, content, flash0, nodes0)
    requires forall s :: s in settled ==> s in spec && !PartOf(spec, s, o)
    ensures Durable(tree.nodes, blocks, spec, settled, typeOf, content)
  {
    hide Listed, Logical, ObjKey, PartOf, ContentAt;
    forall s, p: Obj | s in settled && s in spec && PartOf(spec, s, p) && ContentAt(content, p) != []
      ensures FoundWith(tree.nodes, blocks, typeOf, p, ContentAt(content, p))
    {
      assert Stored(flash0, nodes0, p) == ContentAt(content, p);
      assert p in nodes0 && p != o;
    }
  }

  lemma {:induction false} SurvivorsWhole(blocks: Blocks, tree: Tree, found: map<Obj, nat>, typeOf: Obj -> nat, o: Obj,
                                          pages: seq<LPage>, flash0: Flash, nodes0: map<Obj, nat>, spec: Entries,
                                          g: Geo)
    requires SurviveWith(blocks, tree, found, typeOf, o, pages, flash0, nodes0)
    requires |pages| >= |Stored(flash0, nodes0, o)|
    requires forall s :: IsFile(spec, s) ==> Laid(g, flash0, nodes0, NameOf(spec, s), NameOf(spec, s))
    requires forall s, k: nat :: IsFile(spec, s) && k > 0 ==> BlockObj(NameOf(spec, s), k) != NameOf(spec, s)
    ensures NoHoles(tree.nodes, blocks, spec, typeOf, nodes0, g)
  {
    hide Listed, Logical, ObjKey, BlockObj;
    forall s, f: nat, k: nat | IsFile(spec, s) && f < k && BlockObj(NameOf(spec, s), k) in nodes0
      ensures FoundFull(tree.nodes, blocks, typeOf, BlockObj(NameOf(spec, s), f), g)
    {
      var p := BlockObj(NameOf(spec, s), f);
      assert AllPagesStored(g, flash0, nodes0, p);
      GeoFacts(g);
      assert p in nodes0;
    }
  }

  /** A reader sees every page that is on flash. */
  lemma {:induction false} StoredNotMore(g: Geo, typeOf: Obj -> nat, buf: BufSt, flash: Flash, tree: TreeSt,
                                         owner: map<nat, Owner>, content: Content, o: Obj)
    requires DeviceOk(g, typeOf, buf, flash, tree, owner, content)
    ensures |ContentAt(content, o)| >= |Stored(flash, tree.nodes, o)|
  {
    hide CacheOk, StoreOk, Coherent, Stored, DirtyMap;
    MergeNotShorter(Stored(flash, tree.nodes, o), DirtyMap(buf.pool, o, g.pages), g.pages);
  }

  lemma {:induction false} FilesLaid(spec: Entries, content: Content, g: Geo, typeOf: Obj -> nat, flash: Flash,
                                     nodes: map<Obj, nat>)
    requires Held(spec, content, g, typeOf, flash, nodes)
    ensures forall s :: IsFile(spec, s) ==> Laid(g, flash, nodes, NameOf(spec, s), NameOf(spec, s))
    ensures forall s, k: nat :: IsFile(spec, s) && k > 0 ==> BlockObj(NameOf(spec, s), k) != NameOf(spec, s)
  {
    hide InTree, Laid, Typed, HasInfo;
    forall s | IsFile(spec, s) ensures Laid(g, flash, nodes, NameOf(spec, s), NameOf(spec, s)) {
      HeldFile(spec, content, g, typeOf, flash, nodes, s);
    }
  }

  lemma {:induction false} InfoIs(spec: Entries, content: Content, g: Geo, typeOf: Obj -> nat, flash: Flash,
                                  nodes: map<Obj, nat>)
    requires Held(spec, content, g, typeOf, flash, nodes)
    ensures forall s :: s in spec ==> HasInfo(ContentAt(content, NameOf(spec, s)), spec[s].info)
  {
  }

  lemma {:induction false} LengthIs(mounted: map<Key, Node>, nodes: map<nat, FsNode>, spec: Entries,
                                    tree: map<Obj, nat>, typeOf: Obj -> nat, s: nat)
    requires NodesMatch(nodes, spec) && EntriesOk(spec) && KindsOk(spec, tree, typeOf) && s in nodes &&
             nodes[s].FileNode?
    requires forall o :: o in tree ==> ObjKey(typeOf(o), o) in mounted
    requires forall o :: o in tree && typeOf(o) == FILE ==>
               o in BytesOfFiles(spec) && mounted[ObjKey(typeOf(o), o)].len == |BytesOfFiles(spec)[o]|
    ensures HasLength(mounted, nodes, spec, s)
  {
    hide EntriesOk;
    var o := NameOf(spec, s);
    assert o in tree && typeOf(o) == FILE && ObjKey(FILE, o) == FileKey(s);
  }

  /** The directories and files among the keys are those of the volume. */
  ghost predicate HeadsAre(keys: set<Key>, nodes: map<nat, FsNode>) {
    && (forall s :: DirKey(s) in keys <==> s in nodes && nodes[s].DirNode?)
    && (forall s :: FileKey(s) in keys <==> s in nodes && nodes[s].FileNode?)
  }

  lemma {:induction false} SurvivorsHeads(blocks: Blocks, tree: Tree, found: map<Obj, nat>, typeOf: Obj -> nat, o: Obj,
                                          pages: seq<LPage>, flash0: Flash, nodes0: map<Obj, nat>,
                                          nodes: map<nat, FsNode>, spec: Entries)
    requires SurviveWith(blocks, tree, found, typeOf, o, pages, flash0, nodes0)
    requires NodesMatch(nodes, spec) && KindsOk(spec, nodes0, typeOf)
    ensures HeadsAre(tree.nodes.Keys, nodes)
  {
    hide Listed, Logical, ObjKey, KindsOk, NodesMatch, HeadsAre;
    assert tree.nodes.Keys == set p | p in nodes0 :: ObjKey(typeOf(p), p);
    KeysOfHeads(tree.nodes.Keys, nodes, spec, nodes0, typeOf);
  }

  lemma {:induction false} KeysOfHeads(keys: set<Key>, nodes: map<nat, FsNode>, spec: Entries, tree: map<Obj, nat>,
                                       typeOf: Obj -> nat)
    requires NodesMatch(nodes, spec) && KindsOk(spec, tree, typeOf)
    requires keys == set o | o in tree :: ObjKey(typeOf(o), o)
    ensures HeadsAre(keys, nodes)
  {
    forall s | s in nodes ensures (if nodes[s].DirNode? then DirKey(s) else FileKey(s)) in keys {
      assert ObjKey(typeOf(NameOf(spec, s)), NameOf(spec, s)) in keys;
    }
    forall k | k in keys && !k.DataKey?
      ensures (k.DirKey? || k.FileKey?) && k.serial in nodes && (nodes[k.serial].DirNode? <==> k.DirKey?)
    {
      var o :| o in tree && k == ObjKey(typeOf(o), o);
    }
  }

  // ----- small steps

  lemma {:induction false} CalmGroup(buf: BufSt, tree: TreeSt, w: Wear, max: nat, s: nat, o: Obj)
    requires Calm(buf, tree, w, max) && s < |buf.groups| && GroupOf(buf, s, o)
    ensures o in tree.nodes && |tree.erased| > w.faults
  {
    var i := buf.groups[s].dirty[0];
    assert buf.pool[i].mark == Dirty && ObjOf(buf.pool[i]) == o;
  }

  /** The object of a group is dirty. */
  lemma {:induction false} GroupIsDirty(buf: BufSt, s: nat, o: Obj)
    requires s < |buf.groups| && GroupOf(buf, s, o)
    ensures o in DirtyObjs(buf.pool)
  {
    var i := buf.groups[s].dirty[0];
    assert buf.pool[i].mark == Dirty && ObjOf(buf.pool[i]) == o;
  }

  lemma {:induction false} SettledIs(spec: Entries, settled: set<nat>, pool: seq<Buf>)
    requires AllSettled(spec, settled, pool)
    ensures forall s, o :: s in settled && o in DirtyObjs(pool) ==> s in spec && !PartOf(spec, s, o)
  {
  }

  lemma {:induction false} NothingSettled(pool: seq<Buf>)
    ensures AllSettled(map[], {}, pool)
  {
  }

  lemma {:induction false} CleanParent(pool: seq<Buf>, s: nat)
    requires forall i :: 0 <= i < |pool| ==> !(pool[i].mark == Dirty && pool[i].parent == s)
    ensures forall o :: o in DirtyObjs(pool) ==> o.0 != s
  {
  }

  lemma {:induction false} NoneOfNew(content: Content, pool: seq<Buf>, s: nat)
    requires forall o :: o in DirtyObjs(pool) ==> ContentAt(content, o) != []
    requires forall n: nat :: n > 0 ==> ContentAt(content, (s, n)) == []
    ensures forall o :: o in DirtyObjs(pool) ==> o.0 != s || o.1 == 0
  {
  }

  /** A flush that was not refused has settled its object. */
  lemma {:induction false} FlushedSettled(spec: Entries, settled: set<nat>, op: Op, out: Outcome, lim: Limits)
    requires MayEnd(spec, op, out, lim)
    ensures op.Flush? && op.serial in Done(spec, op, out) ==> op.serial in SettledBy(spec, settled, op, out)
  {
  }

  lemma {:induction false} NoNodes()
    ensures NodesMatch(map[], map[])
  {
  }

  lemma {:induction false} DirOf(nodes: map<nat, FsNode>, spec: Entries, s: nat)
    requires NodesMatch(nodes, spec)
    ensures IsDir(spec, s) <==> s == ROOT_DIR_SERIAL || (s in nodes && nodes[s].DirNode?)
  {
  }

  lemma {:induction false} FileIs(nodes: map<nat, FsNode>, spec: Entries, s: nat)
    requires NodesMatch(nodes, spec)
    ensures IsFile(spec, s) <==> s in nodes && nodes[s].FileNode?
    ensures IsFile(spec, s) ==> s in spec && spec[s].FileEntry?
  {
  }

  lemma {:induction false} FileNodeIs(nodes: map<nat, FsNode>, spec: Entries, s: nat)
    requires NodesMatch(nodes, spec) && IsFile(spec, s)
    ensures s in nodes && nodes[s].FileNode? && s in spec && spec[s].FileEntry?
    ensures nodes[s].len == |spec[s].bytes| && (nodes[s].parent, s) == NameOf(spec, s)
  {
  }

  lemma {:induction false} SameKeys(nodes: map<nat, FsNode>, spec: Entries, s: nat)
    requires NodesMatch(nodes, spec)
    ensures s in nodes <==> s in spec
  {
  }

  lemma {:induction false} ParentDiffers(spec: Entries, parent: nat, s: nat)
    requires IsDir(spec, parent) && s !in spec && s > ROOT_DIR_SERIAL
    ensures parent != s
  {
  }

  lemma {:induction false} CreateRefused(spec: Entries, settled: set<nat>, isDir: bool, parent: nat, info: seq<Byte>,
                                         lim: Limits)
    ensures var op := if isDir then CreateDir(parent, info) else CreateFile(parent, info);
            Done(spec, op, Refused) == spec && SettledBy(spec, settled, op, Refused) == settled &&
            (!IsDir(spec, parent) || NoSerialLeft(spec) || MayBeFull(spec, lim) ==> MayEnd(spec, op, Refused, lim))
  {
  }

  lemma {:induction false} RefusedOp(spec: Entries, settled: set<nat>, op: Op, lim: Limits)
    requires (op.Write? || op.Read?) && !IsFile(spec, op.serial)
    ensures MayEnd(spec, op, Refused, lim) && Done(spec, op, Refused) == spec &&
            SettledBy(spec, settled, op, Refused) == settled
  {
  }

  lemma {:induction false} SerialsIn(nodes: map<nat, FsNode>, spec: Entries, s: nat)
    requires NodesMatch(nodes, spec)
    ensures (forall i :: ROOT_DIR_SERIAL < i < MAX_FSN ==> i in nodes) ==> NoSerialLeft(spec)
    ensures (forall i :: ROOT_DIR_SERIAL < i < s ==> i in nodes) ==> forall i :: ROOT_DIR_SERIAL < i < s ==> i in spec
  {
  }

  lemma {:induction false} CreateDone(spec: Entries, settled: set<nat>, nodes: map<nat, FsNode>, isDir: bool,
                                      parent: nat, info: seq<Byte>, s: nat, lim: Limits)
    requires NodesMatch(nodes, spec) && IsDir(spec, parent) && s !in spec && ROOT_DIR_SERIAL < s < MAX_FSN
    requires MayHaveRoom(spec, lim) && forall i :: ROOT_DIR_SERIAL < i < s ==> i in spec
    ensures MayEnd(spec, if isDir then CreateDir(parent, info) else CreateFile(parent, info), Made(s), lim)
    ensures SettledBy(spec, settled, if isDir then CreateDir(parent, info) else CreateFile(parent, info), Made(s)) ==
            settled + {s}
    ensures var spec' := spec[s := NewEntry(parent, info, isDir)];
            Done(spec, if isDir then CreateDir(parent, info) else CreateFile(parent, info), Made(s)) == spec' &&
            NodesMatch(nodes[s := if isDir then DirNode(parent) else FileNode(parent, 0)], spec')
  {
  }

  lemma {:induction false} WriteDone(spec: Entries, settled: set<nat>, nodes: map<nat, FsNode>, s: nat, pos: nat,
                                     append: bool, data: seq<Byte>, count: nat, end: nat, bytes0: seq<Byte>,
                                     bytes: seq<Byte>)
    requires NodesMatch(nodes, spec) && IsFile(spec, s) && bytes0 == spec[s].bytes && count <= |data|
    requires var at := Start(bytes0, pos, append);
             if end < at then count == 0 && bytes == Padded(bytes0, end)
             else bytes == WrittenAt(bytes0, at, data[..count]) && end == at + count
    ensures s in nodes
    ensures SettledBy(spec, settled, Write(s, pos, append, data), Wrote(count, end)) == settled - {s}
    ensures var spec' := spec[s := FileEntry(spec[s].parent, spec[s].info, bytes)];
            Done(spec, Write(s, pos, append, data), Wrote(count, end)) == spec' &&
            NodesMatch(nodes[s := FileNode(nodes[s].parent, |bytes|)], spec')
  {
  }

  lemma {:induction false} WriteMayEnd(spec: Entries, spec': Entries, s: nat, pos: nat, append: bool, data: seq<Byte>,
                                       count: nat, end: nat, lim: Limits)
    requires IsFile(spec, s) && spec' == Done(spec, Write(s, pos, append, data), Wrote(count, end)) && count <= |data|
    requires var at := Start(spec[s].bytes, pos, append); if end < at then count == 0 else end == at + count
    requires end < Start(spec[s].bytes, pos, append) || count < |data| ==> MayBeFull(spec', lim)
    ensures MayEnd(spec, Write(s, pos, append, data), Wrote(count, end), lim)
  {
  }

  lemma {:induction false} StartIs(bytes: seq<Byte>, pos: nat, append: bool)
    ensures Start(bytes, pos, append) == if append then |bytes| else pos
  {
  }

  lemma {:induction false} ReadDone(spec: Entries, settled: set<nat>, s: nat, pos: nat, count: nat, data: seq<Byte>,
                                    lim: Limits)
    requires IsFile(spec, s)
    requires var bytes := spec[s].bytes;
             data == if pos >= |bytes| then [] else if pos + count < |bytes| then bytes[pos..pos + count]
               else bytes[pos..]
    ensures MayEnd(spec, Read(s, pos, count), Got(data), lim) && Done(spec, Read(s, pos, count), Got(data)) == spec
    ensures SettledBy(spec, settled, Read(s, pos, count), Got(data)) == settled
  {
  }

  lemma {:induction false} FlushDone(nodes: map<nat, FsNode>, spec: Entries, settled: set<nat>, s: nat, lim: Limits)
    requires NodesMatch(nodes, spec)
    ensures s in nodes <==> s in spec
    ensures MayEnd(spec, Flush(s), if s in nodes then Synced else Refused, lim)
    ensures Done(spec, Flush(s), Synced) == spec == Done(spec, Flush(s), Refused)
    ensures SettledBy(spec, settled, Flush(s), Synced) == settled + {s}
    ensures SettledBy(spec, settled, Flush(s), Refused) == settled
    ensures s in nodes ==> (nodes[s].parent, s) == NameOf(spec, s)
  {
  }

  lemma {:induction false} SyncDone(spec: Entries, settled: set<nat>, lim: Limits)
    ensures MayEnd(spec, FlushAll, Synced, lim) && Done(spec, FlushAll, Synced) == spec
    ensures SettledBy(spec, settled, FlushAll, Synced) == spec.Keys
  {
  }

  lemma {:induction false} AfterFlush(buf: BufSt, tree: TreeSt, w: Wear, buf': BufSt, tree': TreeSt, w': Wear, max: nat,
                                      x: Obj)
    requires Ready(buf, tree, w, max, x) && (x in tree.nodes || (tree.nodes == map[] && Calm(buf, tree, w, max)))
    requires tree.nodes.Keys <= tree'.nodes.Keys && Flushed(buf, buf') && RoomFor(buf', tree', w', x)
    ensures Calm(buf', tree', w', max)
  {
    ReadyAfterFlush(buf, tree, w, buf', tree', w', max, x);
    if x !in tree.nodes {
      NoneDirtyStays(buf, tree, buf');
    }
    ReadyIsCalm(buf', tree', w', max, x);
  }

  lemma {:induction false} NoneDirtyStays(buf: BufSt, tree: TreeSt, buf': BufSt)
    requires tree.nodes == map[] && Flushed(buf, buf')
    requires forall i :: 0 <= i < |buf.pool| && buf.pool[i].mark == Dirty ==> ObjOf(buf.pool[i]) in tree.nodes
    ensures forall i :: 0 <= i < |buf'.pool| ==> buf'.pool[i].mark != Dirty
  {
    forall i | 0 <= i < |buf'.pool| ensures buf'.pool[i].mark != Dirty {
      assert buf.pool[i].mark != Dirty;
    }
  }

  // ----- from formatting to a mount

  /** Format a device, do any operations, write everything out and mount: the directories and files are those the
      operations make, on the same blocks, with their pages and lengths. */
  method FormatRunMount(geo: Geo, dirtyMax: nat, bufs: nat, groups: nat, reserved: nat, infoSize: nat,
                        maxFaults: nat, ops: seq<Op>, failing: set<nat>, now: nat)
    returns (v: Volume, outs: seq<Outcome>, ok: bool, m: Mount)
    requires maxFaults + 2 <= geo.blocks <= SERIALS && bufs > 0 && groups > 0 && dirtyMax > 0
    requires reserved >= maxFaults + 2 && 0 < infoSize <= geo.pageSize
    requires forall i :: 0 <= i < |ops| ==> OpFits(ops[i], infoSize)
    ensures fresh(v) && fresh(v.dev) && v.Valid() && ok
    ensures Remounted(m.tree.nodes, m.blocks, v.nodes, v.spec, v.dev.tree.nodes, v.dev.typeOf, v.dev.content)
    ensures |outs| == |ops| && RunMayEnd(map[], ops, outs, Limits(geo, reserved, maxFaults)) &&
            v.spec == AllDone(map[], ops, outs)
    ensures (forall b: nat :: b < geo.blocks ==> b in v.dev.flash) &&
            BlocksPlaced(BlocksOf(v.dev.flash, geo.blocks), Marked(v.dev.tree), m.blocks, m.marked, m.tree,
                         m.unchecked, failing, geo.pageSize)
  {
    hide *;
    v := new Volume(geo, dirtyMax, bufs, groups, reserved, infoSize, maxFaults);
    outs := v.Run(ops);
    var synced := v.Sync();
    SyncDone(v.spec, v.settled, v.Lim());
    ok, m := v.Mount(failing, now);
  }
}
