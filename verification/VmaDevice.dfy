/** The memory-mapped character device: read, write, mmap and page faults over one buffer.

    The buffer is a vmalloc area: four pages that are contiguous for the kernel and lie in four
    arbitrary frames of physical memory. User mappings reach the same frames through page-table
    entries that the fault handler installs. Each system call, fault, load and store is one step. */
module VmaDevice {
  import opened Bytes

  const PAGE_SIZE: nat := 4096
  const BUFFER_PAGES: nat := 4
  const BUFFER_SIZE: nat := 16384

  // ---------------------------------------------------------------- the vmalloc area

  /** The frames of the four pages: pairwise different, inside physical memory. */
  ghost predicate FramesOk(size: nat, frames: seq<nat>) {
    && |frames| == BUFFER_PAGES
    && (forall i :: 0 <= i < BUFFER_PAGES ==> (frames[i] + 1) * PAGE_SIZE <= size)
    && (forall i, j :: 0 <= i < j < BUFFER_PAGES ==> frames[i] != frames[j])
  }

  function PageOf(offset: nat): nat {
    offset / PAGE_SIZE
  }

  /** Physical address of byte `k` of page `page`. */
  function InFrame(frame: nat, k: nat): nat {
    frame * PAGE_SIZE + k % PAGE_SIZE
  }

  /** Physical address of byte `k` of the buffer. */
  function Phys(frames: seq<nat>, k: nat): nat
    requires |frames| == BUFFER_PAGES && k < BUFFER_SIZE
  {
    InFrame(frames[PageOf(k)], k)
  }

  lemma {:induction false} PhysInRange(size: nat, frames: seq<nat>, k: nat)
    requires FramesOk(size, frames) && k < BUFFER_SIZE
    ensures Phys(frames, k) < size
  {
  }

  lemma {:induction false} InFrameInjective(f: nat, g: nat, j: nat, k: nat)
    requires InFrame(f, j) == InFrame(g, k)
    ensures f == g && j % PAGE_SIZE == k % PAGE_SIZE
  {
  }

  lemma {:induction false} PhysInjective(size: nat, frames: seq<nat>, j: nat, k: nat)
    requires FramesOk(size, frames) && j < BUFFER_SIZE && k < BUFFER_SIZE
    requires Phys(frames, j) == Phys(frames, k)
    ensures j == k
  {
    InFrameInjective(frames[PageOf(j)], frames[PageOf(k)], j, k);
    assert PageOf(j) == PageOf(k);
  }

  /** The buffer as the kernel sees it. */
  ghost function View(phys: seq<Byte>, frames: seq<nat>): (r: seq<Byte>)
    requires FramesOk(|phys|, frames)
    ensures |r| == BUFFER_SIZE
  {
    seq(BUFFER_SIZE, k requires 0 <= k < BUFFER_SIZE =>
      PhysInRange(|phys|, frames, k); phys[Phys(frames, k)])
  }

  ghost predicate InBuffer(frames: seq<nat>, a: nat)
    requires |frames| == BUFFER_PAGES
  {
    exists k :: 0 <= k < BUFFER_SIZE && a == Phys(frames, k)
  }

  /** Physical memory changed inside the buffer's frames only. */
  ghost predicate OutsideUnchanged(before: seq<Byte>, after: seq<Byte>, frames: seq<nat>)
    requires |frames| == BUFFER_PAGES
  {
    && |after| == |before|
    && forall a :: 0 <= a < |before| && !InBuffer(frames, a) ==> after[a] == before[a]
  }

  lemma {:induction false} OutsideTransitive(a: seq<Byte>, b: seq<Byte>, c: seq<Byte>, frames: seq<nat>)
    requires |frames| == BUFFER_PAGES
    requires OutsideUnchanged(a, b, frames) && OutsideUnchanged(b, c, frames)
    ensures OutsideUnchanged(a, c, frames)
  {
  }

  lemma {:induction false} StoreChangesOneByte(phys: seq<Byte>, frames: seq<nat>, k: nat, b: Byte)
    requires FramesOk(|phys|, frames) && k < BUFFER_SIZE
    ensures Phys(frames, k) < |phys|
    ensures View(phys[Phys(frames, k) := b], frames) == View(phys, frames)[k := b]
    ensures OutsideUnchanged(phys, phys[Phys(frames, k) := b], frames)
  {
    PhysInRange(|phys|, frames, k);
    var phys' := phys[Phys(frames, k) := b];
    forall j | 0 <= j < BUFFER_SIZE
      ensures View(phys', frames)[j] == View(phys, frames)[k := b][j]
    {
      PhysInRange(|phys|, frames, j);
      if Phys(frames, j) == Phys(frames, k) {
        PhysInjective(|phys|, frames, j, k);
      }
    }
    assert InBuffer(frames, Phys(frames, k));
  }

  const FILL: Byte := 0x42

  /** "Hello from kernel VMA example!" and a newline. */
  const GREETING: seq<Byte> :=
    [72, 101, 108, 108, 111, 32, 102, 114, 111, 109, 32, 107, 101, 114, 110, 101, 108, 32,
     86, 77, 65, 32, 101, 120, 97, 109, 112, 108, 101, 33, 10]

  /** The buffer after initialisation: the greeting, its terminator, and the fill pattern. */
  ghost function InitialContent(): seq<Byte> {
    GREETING + [0] + seq(BUFFER_SIZE - |GREETING| - 1, _ => FILL)
  }

  // ---------------------------------------------------------------- mappings

  /** A user mapping of the device: page-aligned, `pgoff` pages into the file. */
  datatype Area = Area(start: nat, end: nat, pgoff: nat)

  /** What the kernel's mmap core guarantees of an area it passes to a driver. */
  predicate AreaOk(v: Area) {
    && v.start < v.end && v.start % PAGE_SIZE == 0 && v.end % PAGE_SIZE == 0
    && v.pgoff * PAGE_SIZE + (v.end - v.start) < TWO_64
  }

  predicate Contains(v: Area, address: nat) {
    v.start <= address < v.end
  }

  /** File offset of an address: what the fault handler computes. */
  function FileOffset(v: Area, address: nat): nat
    requires Contains(v, address)
  {
    (address - v.start) + v.pgoff * PAGE_SIZE
  }

  /** `vmf->pgoff`: the file page the kernel's fault core computes. */
  function FilePage(v: Area, address: nat): nat
    requires Contains(v, address)
  {
    (address - v.start) / PAGE_SIZE + v.pgoff
  }

  /** The page the handler takes by `pgoff` is the page that holds the offset it checked. */
  lemma {:induction false} PageHoldsOffset(v: Area, address: nat)
    requires AreaOk(v) && Contains(v, address)
    ensures FilePage(v, address) == PageOf(FileOffset(v, address))
    ensures FilePage(v, address) < BUFFER_PAGES <==> FileOffset(v, address) < BUFFER_SIZE
    ensures address % PAGE_SIZE == FileOffset(v, address) % PAGE_SIZE
  {
    var d, q := address - v.start, v.start / PAGE_SIZE;
    assert v.start == q * PAGE_SIZE;
    assert address == d + q * PAGE_SIZE;
    DivModShift(d, v.pgoff);
    DivModShift(d, q);
  }

  lemma {:induction false} DivModShift(d: nat, q: nat)
    ensures (d + q * PAGE_SIZE) / PAGE_SIZE == d / PAGE_SIZE + q
    ensures (d + q * PAGE_SIZE) % PAGE_SIZE == d % PAGE_SIZE
  {
  }

  // ---------------------------------------------------------------- the reference device

  /** One flat buffer and the admitted mappings. */
  datatype Flat = Flat(content: seq<Byte>, areas: seq<Area>)

  datatype Errno = EINVAL | ENOSPC | EFAULT | ERESTARTSYS
  datatype Result = Done(n: nat) | Bytes(data: seq<Byte>) | Failed(errno: Errno) | Loaded(b: Byte) | Stored | Sigbus

  /** How a user copy ends: fully, or with a fault. A faulting copy from the user leaves the bytes
      `landed` in the destination (what was copied, then whatever the kernel puts after it). */
  datatype Copy = Full | Fault(landed: seq<Byte>)

  datatype Op =
    | ReadOp(pos: nat, count: nat, interrupted: bool, faulted: bool)
    | WriteOp(pos: nat, data: seq<Byte>, interrupted: bool, copy: Copy)
    | MmapOp(area: Area)
    | LoadOp(which: nat, address: nat)
    | StoreOp(which: nat, address: nat, b: Byte)

  function Clip(pos: nat, count: nat): (n: nat)
    ensures pos < BUFFER_SIZE ==> n == if count <= BUFFER_SIZE - pos then count else BUFFER_SIZE - pos
  {
    if pos >= BUFFER_SIZE then 0 else if pos + count > BUFFER_SIZE then BUFFER_SIZE - pos else count
  }

  /** Operations the kernel can issue in a state with these mappings. */
  predicate OpOk(areas: seq<Area>, op: Op) {
    match op
    case ReadOp(_, _, _, _) => true
    case WriteOp(pos, data, _, copy) => copy.Fault? ==> |copy.landed| == Clip(pos, |data|)
    case MmapOp(v) => AreaOk(v)
    case LoadOp(i, address) => i < |areas| && Contains(areas[i], address)
    case StoreOp(i, address, _) => i < |areas| && Contains(areas[i], address)
  }

  function FlatResult(s: Flat, op: Op): Result
    requires |s.content| == BUFFER_SIZE && OpOk(s.areas, op)
  {
    match op
    case ReadOp(pos, count, interrupted, faulted) =>
      if interrupted then Failed(ERESTARTSYS)
      else if pos >= BUFFER_SIZE then Bytes([])
      else if faulted then Failed(EFAULT)
      else Bytes(s.content[pos..pos + Clip(pos, count)])
    case WriteOp(pos, data, interrupted, copy) =>
      if interrupted then Failed(ERESTARTSYS)
      else if pos >= BUFFER_SIZE then Failed(ENOSPC)
      else if copy.Fault? then Failed(EFAULT)
      else Done(Clip(pos, |data|))
    case MmapOp(v) => if v.end - v.start > BUFFER_SIZE then Failed(EINVAL) else Done(0)
    case LoadOp(i, address) =>
      var k := FileOffset(s.areas[i], address);
      if k < BUFFER_SIZE then Loaded(s.content[k]) else Sigbus
    case StoreOp(i, address, _) =>
      if FileOffset(s.areas[i], address) < BUFFER_SIZE then Stored else Sigbus
  }

  /** The overwrites of the flat buffer an operation makes. */
  function OpWrites(areas: seq<Area>, op: Op): (ps: seq<Patch>)
    requires OpOk(areas, op)
    ensures forall i :: 0 <= i < |ps| ==> ps[i].at + |ps[i].bytes| <= BUFFER_SIZE
  {
    match op
    case WriteOp(pos, data, interrupted, copy) =>
      if interrupted || pos >= BUFFER_SIZE then []
      else [Patch(pos, if copy.Fault? then copy.landed else data[..Clip(pos, |data|)])]
    case StoreOp(i, address, b) =>
      var k := FileOffset(areas[i], address);
      if k < BUFFER_SIZE then [Patch(k, [b])] else []
    case _ => []
  }

  function FlatStep(s: Flat, op: Op): (r: Flat)
    requires |s.content| == BUFFER_SIZE && OpOk(s.areas, op)
    ensures |r.content| == BUFFER_SIZE
  {
    Flat(ApplyAll(s.content, OpWrites(s.areas, op)),
         if op.MmapOp? && op.area.end - op.area.start <= BUFFER_SIZE then s.areas + [op.area] else s.areas)
  }

  // ---------------------------------------------------------------- the driver

  /** A page-table entry of area `v`: virtual page `vpn` maps the frame of the file page it stands for. */
  ghost predicate PteOk(frames: seq<nat>, v: Area, vpn: int, frame: nat)
    requires |frames| == BUFFER_PAGES
  {
    var q := vpn - v.start / PAGE_SIZE + v.pgoff;
    0 <= q < BUFFER_PAGES && frame == frames[q]
  }

  lemma {:induction false} FilePageOfVirtualPage(v: Area, address: nat)
    requires AreaOk(v) && Contains(v, address)
    ensures FilePage(v, address) == address / PAGE_SIZE - v.start / PAGE_SIZE + v.pgoff
  {
    var d, q := address - v.start, v.start / PAGE_SIZE;
    assert v.start == q * PAGE_SIZE && address == d + q * PAGE_SIZE;
    DivModShift(d, q);
  }

  /** A mapped access reaches the physical byte of its file offset. */
  lemma {:induction false} PteReachesOffset(frames: seq<nat>, v: Area, address: nat, frame: nat)
    requires |frames| == BUFFER_PAGES && AreaOk(v) && Contains(v, address)
    requires PteOk(frames, v, address / PAGE_SIZE, frame)
    ensures FileOffset(v, address) < BUFFER_SIZE
    ensures InFrame(frame, address) == Phys(frames, FileOffset(v, address))
  {
    FilePageOfVirtualPage(v, address);
    PageHoldsOffset(v, address);
  }

  class VmaDev {
    const phys: array<Byte>
    const frames: seq<nat>
    var areas: seq<Area>
    var ptes: seq<map<int, nat>>

    ghost predicate Valid()
      reads this
    {
      && FramesOk(phys.Length, frames)
      && |ptes| == |areas|
      && (forall i :: 0 <= i < |areas| ==> AreaOk(areas[i]))
      && forall i, vpn :: 0 <= i < |areas| && vpn in ptes[i] ==> PteOk(frames, areas[i], vpn, ptes[i][vpn])
    }

    ghost function Abs(): (s: Flat)
      requires Valid()
      reads this, phys
      ensures |s.content| == BUFFER_SIZE
    {
      Flat(View(phys[..], frames), areas)
    }

    /** The buffer part of `simple_vma_init`: vmalloc gave the frames, whatever they held before. */
    constructor (phys: array<Byte>, frames: seq<nat>)
      requires FramesOk(phys.Length, frames)
      modifies phys
      ensures Valid() && this.phys == phys && this.frames == frames
      ensures Abs() == Flat(InitialContent(), [])
      ensures OutsideUnchanged(old(phys[..]), phys[..], frames)
    {
      this.phys := phys;
      this.frames := frames;
      areas := [];
      ptes := [];
      new;
      CopyIn(0, seq(BUFFER_SIZE, _ => FILL));
      CopyIn(0, GREETING + [0]);
    }

    /** `example_vma_fault`: false is VM_FAULT_SIGBUS. */
    method HandleFault(i: nat, address: nat) returns (ok: bool)
      requires Valid() && i < |areas| && Contains(areas[i], address)
      modifies this`ptes
      ensures Valid()
      ensures ok <==> FileOffset(areas[i], address) < BUFFER_SIZE
      ensures ok ==> address / PAGE_SIZE in ptes[i] &&
                     ptes[i][address / PAGE_SIZE] == frames[PageOf(FileOffset(areas[i], address))]
      ensures !ok ==> ptes == old(ptes)
    {
      var v := areas[i];
      PageHoldsOffset(v, address);
      FilePageOfVirtualPage(v, address);
      var pgoff := (address - v.start) / PAGE_SIZE + v.pgoff;
      var offset := Wrap64((address - v.start) + Wrap64(v.pgoff * PAGE_SIZE));
      if offset >= BUFFER_SIZE {
        return false;
      }
      var page := frames[pgoff];
      ptes := ptes[i := ptes[i][address / PAGE_SIZE := page]];
      return true;
    }

    /** `example_char_read`, with the new file position. */
    method Read(pos: nat, count: nat, interrupted: bool, faulted: bool) returns (r: Result, pos': nat)
      requires Valid()
      ensures r == FlatResult(Abs(), ReadOp(pos, count, interrupted, faulted))
      ensures pos < BUFFER_SIZE && !interrupted && !faulted ==>
        r.Bytes? && |r.data| == if count <= BUFFER_SIZE - pos then count else BUFFER_SIZE - pos
      ensures pos' == if r.Bytes? then pos + |r.data| else pos
    {
      if interrupted {
        return Failed(ERESTARTSYS), pos;
      }
      if pos >= BUFFER_SIZE {
        return Bytes([]), pos;
      }
      var n := count;
      if pos + count > BUFFER_SIZE {
        n := BUFFER_SIZE - pos;
      }
      if faulted {
        return Failed(EFAULT), pos;
      }
      var data := CopyOut(pos, n);
      return Bytes(data), pos + n;
    }

    /** Copy bytes out of the buffer through the kernel's mapping. */
    method CopyOut(pos: nat, n: nat) returns (data: seq<Byte>)
      requires Valid() && pos + n <= BUFFER_SIZE
      ensures data == View(phys[..], frames)[pos..pos + n]
    {
      data := [];
      var k := 0;
      ghost var content := View(phys[..], frames);
      while k < n
        invariant 0 <= k <= n
        invariant data == content[pos..pos + k]
      {
        PhysInRange(phys.Length, frames, pos + k);
        SliceSnoc(content, pos, pos + k);
        data := data + [phys[Phys(frames, pos + k)]];
        k := k + 1;
      }
    }

    /** Copy bytes into the buffer through the kernel's mapping. */
    method CopyIn(pos: nat, data: seq<Byte>)
      requires Valid() && pos + |data| <= BUFFER_SIZE
      modifies phys
      ensures View(phys[..], frames) == Splice(old(View(phys[..], frames)), pos, data)
      ensures OutsideUnchanged(old(phys[..]), phys[..], frames)
    {
      var k := 0;
      ghost var before, view := phys[..], View(phys[..], frames);
      assert view == Splice(view, pos, data[..0]);
      while k < |data|
        invariant 0 <= k <= |data|
        invariant View(phys[..], frames) == Splice(view, pos, data[..k])
        invariant OutsideUnchanged(before, phys[..], frames)
      {
        ghost var now := phys[..];
        StoreChangesOneByte(now, frames, pos + k, data[k]);
        OneMoreByte(view, pos, data, k);
        phys[Phys(frames, pos + k)] := data[k];
        assert phys[..] == now[Phys(frames, pos + k) := data[k]];
        OutsideTransitive(before, now, phys[..], frames);
        k := k + 1;
      }
      assert data[..k] == data;
    }

    /** `example_char_write`, with the new file position. */
    method Write(pos: nat, data: seq<Byte>, interrupted: bool, copy: Copy) returns (r: Result, pos': nat)
      requires Valid() && OpOk(areas, WriteOp(pos, data, interrupted, copy))
      modifies phys
      ensures Valid() && Abs() == FlatStep(old(Abs()), WriteOp(pos, data, interrupted, copy))
      ensures r == FlatResult(old(Abs()), WriteOp(pos, data, interrupted, copy))
      ensures pos < BUFFER_SIZE && !interrupted && copy.Full? ==>
        r == Done(if |data| <= BUFFER_SIZE - pos then |data| else BUFFER_SIZE - pos)
      ensures pos' == if r.Done? then pos + r.n else pos
      ensures OutsideUnchanged(old(phys[..]), phys[..], frames)
    {
      if interrupted {
        return Failed(ERESTARTSYS), pos;
      }
      if pos >= BUFFER_SIZE {
        return Failed(ENOSPC), pos;
      }
      var count := |data|;
      if pos + count > BUFFER_SIZE {
        count := BUFFER_SIZE - pos;
      }
      if copy.Fault? {
        CopyIn(pos, copy.landed);
        ApplyOne(old(Abs()).content, Patch(pos, copy.landed));
        return Failed(EFAULT), pos;
      }
      CopyIn(pos, data[..count]);
      ApplyOne(old(Abs()).content, Patch(pos, data[..count]));
      return Done(count), pos + count;
    }

    /** `example_char_mmap`. */
    method Mmap(v: Area) returns (r: Result)
      requires Valid() && AreaOk(v)
      modifies this
      ensures Valid() && Abs() == FlatStep(old(Abs()), MmapOp(v))
      ensures r == FlatResult(old(Abs()), MmapOp(v))
    {
      if v.end - v.start > BUFFER_SIZE {
        return Failed(EINVAL);
      }
      areas := areas + [v];
      ptes := ptes + [map[]];
      return Done(0);
    }

    /** A load through a mapping, faulting the page in when it is not mapped yet. */
    method Load(i: nat, address: nat) returns (r: Result)
      requires Valid() && i < |areas| && Contains(areas[i], address)
      modifies this`ptes
      ensures Valid() && Abs() == old(Abs())
      ensures r == FlatResult(old(Abs()), LoadOp(i, address))
    {
      var mapped := address / PAGE_SIZE in ptes[i];
      if !mapped {
        mapped := HandleFault(i, address);
        if !mapped {
          return Sigbus;
        }
      }
      PteReachesOffset(frames, areas[i], address, ptes[i][address / PAGE_SIZE]);
      PhysInRange(phys.Length, frames, FileOffset(areas[i], address));
      return Loaded(phys[InFrame(ptes[i][address / PAGE_SIZE], address)]);
    }

    /** A store through a mapping, faulting the page in when it is not mapped yet. */
    method Store(i: nat, address: nat, b: Byte) returns (r: Result)
      requires Valid() && i < |areas| && Contains(areas[i], address)
      modifies this`ptes, phys
      ensures Valid() && Abs() == FlatStep(old(Abs()), StoreOp(i, address, b))
      ensures r == FlatResult(old(Abs()), StoreOp(i, address, b))
      ensures OutsideUnchanged(old(phys[..]), phys[..], frames)
    {
      var mapped := address / PAGE_SIZE in ptes[i];
      if !mapped {
        mapped := HandleFault(i, address);
        if !mapped {
          return Sigbus;
        }
      }
      ghost var k := FileOffset(areas[i], address);
      PteReachesOffset(frames, areas[i], address, ptes[i][address / PAGE_SIZE]);
      StoreChangesOneByte(phys[..], frames, k, b);
      StoreIsPatch(View(phys[..], frames), k, b);
      phys[InFrame(ptes[i][address / PAGE_SIZE], address)] := b;
      return Stored;
    }

    /** One operation of a run. */
    method Perform(op: Op) returns (r: Result)
      requires Valid() && OpOk(areas, op)
      modifies this, phys
      ensures Valid() && Abs() == FlatStep(old(Abs()), op)
      ensures r == FlatResult(old(Abs()), op)
      ensures OutsideUnchanged(old(phys[..]), phys[..], frames)
    {
      match op {
        case ReadOp(pos, count, interrupted, faulted) =>
          var pos';
          r, pos' := Read(pos, count, interrupted, faulted);
        case WriteOp(pos, data, interrupted, copy) =>
          var pos';
          r, pos' := Write(pos, data, interrupted, copy);
        case MmapOp(v) =>
          r := Mmap(v);
        case LoadOp(i, address) =>
          r := Load(i, address);
        case StoreOp(i, address, b) =>
          r := Store(i, address, b);
      }
    }

    /** The next operation of a run; `rs` are the results so far. */
    method PerformNext(ghost s: Flat, ops: seq<Op>, rs: seq<Result>, ghost before: seq<Byte>)
      returns (rs': seq<Result>)
      requires Valid() && |rs| < |ops| && OutsideUnchanged(before, phys[..], frames)
      requires |s.content| == BUFFER_SIZE && RunOk(s, ops) && Abs() == FlatAfter(s, ops, |rs|)
      requires ResultsOk(s, ops, rs)
      modifies this, phys
      ensures Valid() && |rs'| == |rs| + 1 && Abs() == FlatAfter(s, ops, |rs'|)
      ensures ResultsOk(s, ops, rs') && OutsideUnchanged(before, phys[..], frames)
    {
      assert Issuable(s, ops, |rs|);
      ghost var now := phys[..];
      var r := Perform(ops[|rs|]);
      OutsideTransitive(before, now, phys[..], frames);
      OneMoreResult(s, ops, rs, r);
      rs' := rs + [r];
    }

    /** Any run of system calls, faults, loads and stores behaves as the flat reference device,
        result by result, and touches no physical byte outside the buffer. */
    method Replay(ops: seq<Op>) returns (rs: seq<Result>)
      requires Valid() && RunOk(Abs(), ops)
      modifies this, phys
      ensures Valid() && Abs() == FlatAfter(old(Abs()), ops, |ops|)
      ensures |rs| == |ops| && ResultsOk(old(Abs()), ops, rs)
      ensures OutsideUnchanged(old(phys[..]), phys[..], frames)
    {
      rs := [];
      ghost var s, before := Abs(), phys[..];
      while |rs| < |ops|
        invariant |rs| <= |ops| && Valid() && Abs() == FlatAfter(s, ops, |rs|)
        invariant ResultsOk(s, ops, rs) && OutsideUnchanged(before, phys[..], frames)
        decreases |ops| - |rs|
      {
        rs := PerformNext(s, ops, rs, before);
      }
    }
  }

  lemma {:induction false} SliceSnoc(s: seq<Byte>, a: nat, b: nat)
    requires a <= b < |s|
    ensures s[a..b + 1] == s[a..b] + [s[b]]
  {
  }

  lemma {:induction false} OneMoreByte(view: seq<Byte>, pos: nat, data: seq<Byte>, k: nat)
    requires k < |data| && pos + |data| <= |view|
    ensures Splice(view, pos, data[..k])[pos + k := data[k]] == Splice(view, pos, data[..k + 1])
  {
  }

  lemma {:induction false} ApplyOne(s: seq<Byte>, p: Patch)
    ensures ApplyAll(s, [p]) == Apply(s, p)
  {
    ApplyAllSnoc(s, [], p);
    assert [] + [p] == [p];
  }

  lemma {:induction false} StoreIsPatch(s: seq<Byte>, k: nat, b: Byte)
    requires k < |s|
    ensures ApplyAll(s, [Patch(k, [b])]) == s[k := b]
  {
    ApplyOne(s, Patch(k, [b]));
  }

  // ---------------------------------------------------------------- whole runs

  /** The reference device after the first `n` operations; one that cannot be issued is skipped. */
  function FlatAfter(s: Flat, ops: seq<Op>, n: nat): (r: Flat)
    requires |s.content| == BUFFER_SIZE && n <= |ops|
    ensures |r.content| == BUFFER_SIZE
  {
    if n == 0 then s
    else
      var t := FlatAfter(s, ops, n - 1);
      if OpOk(t.areas, ops[n - 1]) then FlatStep(t, ops[n - 1]) else t
  }

  ghost predicate RunOk(s: Flat, ops: seq<Op>)
    requires |s.content| == BUFFER_SIZE
  {
    forall n: nat :: n < |ops| ==> Issuable(s, ops, n)
  }

  /** Operation `n` of the run can be issued when it is reached. */
  predicate Issuable(s: Flat, ops: seq<Op>, n: nat)
    requires |s.content| == BUFFER_SIZE && n < |ops|
  {
    OpOk(FlatAfter(s, ops, n).areas, ops[n])
  }

  /** `r` is what the reference device answers to operation `n` of the run. */
  ghost predicate ResultOk(s: Flat, ops: seq<Op>, n: nat, r: Result)
    requires |s.content| == BUFFER_SIZE && n < |ops|
  {
    var t := FlatAfter(s, ops, n);
    Issuable(s, ops, n) && r == FlatResult(t, ops[n])
  }

  /** `rs` are what the reference device answers to the first operations of the run. */
  ghost predicate ResultsOk(s: Flat, ops: seq<Op>, rs: seq<Result>)
    requires |s.content| == BUFFER_SIZE && |rs| <= |ops|
  {
    forall k: nat :: k < |rs| ==> ResultOk(s, ops, k, rs[k])
  }

  lemma {:induction false} OneMoreResult(s: Flat, ops: seq<Op>, rs: seq<Result>, r: Result)
    requires |s.content| == BUFFER_SIZE && |rs| < |ops|
    requires ResultsOk(s, ops, rs) && ResultOk(s, ops, |rs|, r)
    ensures ResultsOk(s, ops, rs + [r])
  {
  }

  /** Everything written in a run, by `write` and through every mapping, in order. */
  function AllWrites(s: Flat, ops: seq<Op>, n: nat): seq<Patch>
    requires |s.content| == BUFFER_SIZE && n <= |ops|
  {
    if n == 0 then []
    else
      var t := FlatAfter(s, ops, n - 1);
      AllWrites(s, ops, n - 1) + if OpOk(t.areas, ops[n - 1]) then OpWrites(t.areas, ops[n - 1]) else []
  }

  lemma {:induction false} RunIsOverwrites(s: Flat, ops: seq<Op>, n: nat)
    requires |s.content| == BUFFER_SIZE && n <= |ops|
    ensures FlatAfter(s, ops, n).content == ApplyAll(s.content, AllWrites(s, ops, n))
  {
    if n == 0 {
    } else {
      RunIsOverwrites(s, ops, n - 1);
      var t := FlatAfter(s, ops, n - 1);
      var last := if OpOk(t.areas, ops[n - 1]) then OpWrites(t.areas, ops[n - 1]) else [];
      ApplyAllConcat(s.content, AllWrites(s, ops, n - 1), last);
    }
  }

  /** The newest byte written at offset `k` by any path, or the byte that was there before the run. */
  function NewestByte(s: Flat, ops: seq<Op>, k: nat): Byte
    requires |s.content| == BUFFER_SIZE && k < BUFFER_SIZE
  {
    Newest(BUFFER_SIZE, AllWrites(s, ops, |ops|), k, s.content[k])
  }

  /** After any run a load through any mapping sees the newest byte at its file offset, or faults
      exactly when that offset is past the buffer. */
  lemma {:induction false} LoadSeesNewest(s: Flat, ops: seq<Op>, i: nat, address: nat)
    requires |s.content| == BUFFER_SIZE
    requires OpOk(FlatAfter(s, ops, |ops|).areas, LoadOp(i, address))
    ensures var t := FlatAfter(s, ops, |ops|);
      var k := FileOffset(t.areas[i], address);
      FlatResult(t, LoadOp(i, address)) == if k < BUFFER_SIZE then Loaded(NewestByte(s, ops, k)) else Sigbus
  {
    var t := FlatAfter(s, ops, |ops|);
    RunIsOverwrites(s, ops, |ops|);
    var k := FileOffset(t.areas[i], address);
    if k < BUFFER_SIZE {
      ApplyAllIsNewest(s.content, AllWrites(s, ops, |ops|), k);
    }
  }

  /** After any run a `read` sees, byte for byte, what loads through mappings see. */
  lemma {:induction false} ReadSeesNewest(s: Flat, ops: seq<Op>, pos: nat, count: nat, x: nat)
    requires |s.content| == BUFFER_SIZE && pos < BUFFER_SIZE && x < Clip(pos, count)
    ensures var r := FlatResult(FlatAfter(s, ops, |ops|), ReadOp(pos, count, false, false));
      r.Bytes? && |r.data| == Clip(pos, count) && r.data[x] == NewestByte(s, ops, pos + x)
  {
    RunIsOverwrites(s, ops, |ops|);
    ApplyAllIsNewest(s.content, AllWrites(s, ops, |ops|), pos + x);
  }
}
