/** The RAM block device: requests, bios, segments, byte ranges.

    Kernel memory that bios point into is one flat array `ram` (the kernel's direct map: a segment
    is the address `page_address(bv_page) + bv_offset` and a length). The driver's storage is a
    separate array. `RequestSpec` follows the two nested loops over byte ranges; the theorems
    compare it with one flat overwrite of the disk, and one flat slice read from it. */
module BlockDevice {
  import opened Bytes

  const KERNEL_SECTOR_SIZE: nat := 512
  const SIMPLE_BLOCK_SIZE: nat := 1024 * 1024
  const PAGE_SIZE: nat := 4096
  const FILL: Byte := 0xAA

  datatype Direction = Read | Write
  datatype Segment = Segment(addr: nat, len: nat)
  datatype Bio = Bio(sector: nat, segs: seq<Segment>)
  datatype Status = StatusOk | StatusError
  datatype State = State(disk: seq<Byte>, ram: seq<Byte>)

  /** A bio as byte ranges: the device offset it starts at, and the memory ranges it moves. */
  datatype Part = Part(addr: nat, n: nat)
  datatype Extent = Extent(at: nat, parts: seq<Part>)

  /** A segment moves whole sectors only. */
  function PartOf(seg: Segment): (p: Part)
    ensures p.n <= seg.len
  {
    Part(seg.addr, seg.len / KERNEL_SECTOR_SIZE * KERNEL_SECTOR_SIZE)
  }

  function ExtentOf(bio: Bio): Extent {
    Extent(bio.sector * KERNEL_SECTOR_SIZE,
           seq(|bio.segs|, i requires 0 <= i < |bio.segs| => PartOf(bio.segs[i])))
  }

  function ExtentsOf(bios: seq<Bio>): (es: seq<Extent>)
    ensures |es| == |bios|
    ensures forall k :: 0 <= k < |bios| ==> es[k] == ExtentOf(bios[k])
  {
    seq(|bios|, i requires 0 <= i < |bios| => ExtentOf(bios[i]))
  }

  /** Device offset of part `m`: it advances whether or not the earlier parts fitted. */
  function Offset(e: Extent, m: nat): (r: nat)
    requires m <= |e.parts|
    ensures e.at <= r
  {
    if m == 0 then e.at else Offset(e, m - 1) + e.parts[m - 1].n
  }

  function End(e: Extent): nat {
    Offset(e, |e.parts|)
  }

  lemma {:induction false} OffsetMonotone(e: Extent, m: nat, n: nat)
    requires m <= n <= |e.parts|
    ensures Offset(e, m) <= Offset(e, n)
    decreases n
  {
    if m < n {
      OffsetMonotone(e, m, n - 1);
    }
  }

  ghost predicate InMemory(size: nat, e: Extent) {
    forall k :: 0 <= k < |e.parts| ==> e.parts[k].addr + e.parts[k].n <= size
  }

  ghost predicate AllInMemory(size: nat, es: seq<Extent>) {
    forall k :: 0 <= k < |es| ==> InMemory(size, es[k])
  }

  /** What the block layer hands the driver: segments inside memory, offsets below 2^64. */
  ghost predicate BioOk(size: nat, bio: Bio) {
    && (forall k :: 0 <= k < |bio.segs| ==> bio.segs[k].addr + bio.segs[k].len <= size)
    && End(ExtentOf(bio)) < TWO_64
  }

  // ---------------------------------------------------------------- the loops, on values

  function TransferSpec(s: State, offset: nat, p: Part, dir: Direction): (r: State)
    requires p.addr + p.n <= |s.ram|
    ensures |r.disk| == |s.disk| && |r.ram| == |s.ram|
  {
    if offset + p.n > |s.disk| then s
    else if dir.Write? then s.(disk := Splice(s.disk, offset, s.ram[p.addr..p.addr + p.n]))
    else s.(ram := Splice(s.ram, p.addr, s.disk[offset..offset + p.n]))
  }

  /** The state after the first `m` parts of a bio. */
  function BioSpec(s: State, e: Extent, dir: Direction, m: nat): (r: State)
    requires InMemory(|s.ram|, e) && m <= |e.parts|
    ensures |r.disk| == |s.disk| && |r.ram| == |s.ram|
  {
    if m == 0 then s else TransferSpec(BioSpec(s, e, dir, m - 1), Offset(e, m - 1), e.parts[m - 1], dir)
  }

  /** The state after the first `m` bios of a request. */
  function RequestSpec(s: State, es: seq<Extent>, dir: Direction, m: nat): (r: State)
    requires AllInMemory(|s.ram|, es) && m <= |es|
    ensures |r.disk| == |s.disk| && |r.ram| == |s.ram|
  {
    if m == 0 then s else BioSpec(RequestSpec(s, es, dir, m - 1), es[m - 1], dir, |es[m - 1].parts|)
  }

  // ---------------------------------------------------------------- the driver

  class SimpleBlockDev {
    const size: nat
    const data: array<Byte>

    ghost predicate Valid() {
      data.Length == size && size == SIMPLE_BLOCK_SIZE
    }

    ghost function Snapshot(ram: array<Byte>): State
      reads data, ram
    {
      State(data[..], ram[..])
    }

    /** The storage part of `simple_block_init`. */
    constructor ()
      ensures Valid() && fresh(data)
      ensures data[..] == InitialDisk()
    {
      size := SIMPLE_BLOCK_SIZE;
      data := new Byte[SIMPLE_BLOCK_SIZE](_ => FILL);
    }

    /** `simple_transfer`, in 64-bit arithmetic. */
    method Transfer(ram: array<Byte>, sector: nat, nsect: nat, buffer: nat, dir: Direction)
      requires Valid() && ram != data
      requires buffer + nsect * KERNEL_SECTOR_SIZE <= ram.Length
      requires (sector + nsect) * KERNEL_SECTOR_SIZE < TWO_64
      modifies data, ram
      ensures Snapshot(ram) == TransferSpec(old(Snapshot(ram)), sector * KERNEL_SECTOR_SIZE,
                                            Part(buffer, nsect * KERNEL_SECTOR_SIZE), dir)
    {
      var offset := Wrap64(sector * KERNEL_SECTOR_SIZE);
      var nbytes := Wrap64(nsect * KERNEL_SECTOR_SIZE);
      if Wrap64(offset + nbytes) > size {
        return;
      }
      if dir.Write? {
        CopyBytes(data, offset, ram, buffer, nbytes);
      } else {
        CopyBytes(ram, buffer, data, offset, nbytes);
      }
    }

    /** `simple_handle_bio`. */
    method HandleBio(ram: array<Byte>, bio: Bio, dir: Direction) returns (status: Status)
      requires Valid() && ram != data && BioOk(ram.Length, bio)
      modifies data, ram
      ensures status == StatusOk
      ensures Snapshot(ram) == BioSpec(old(Snapshot(ram)), ExtentOf(bio), dir, |bio.segs|)
    {
      ghost var e := ExtentOf(bio);
      var sector := bio.sector;
      var k := 0;
      while k < |bio.segs|
        invariant 0 <= k <= |bio.segs|
        invariant sector * KERNEL_SECTOR_SIZE == Offset(e, k)
        invariant Snapshot(ram) == BioSpec(old(Snapshot(ram)), e, dir, k)
      {
        OffsetMonotone(e, k + 1, |bio.segs|);
        Transfer(ram, sector, bio.segs[k].len / KERNEL_SECTOR_SIZE, bio.segs[k].addr, dir);
        sector := sector + bio.segs[k].len / KERNEL_SECTOR_SIZE;
        k := k + 1;
      }
      status := StatusOk;
    }

    /** `simple_queue_rq`. */
    method QueueRq(ram: array<Byte>, bios: seq<Bio>, dir: Direction) returns (status: Status)
      requires Valid() && ram != data
      requires forall k :: 0 <= k < |bios| ==> BioOk(ram.Length, bios[k])
      modifies data, ram
      ensures AllInMemory(ram.Length, ExtentsOf(bios))
      ensures status == StatusOk
      ensures Snapshot(ram) == RequestSpec(old(Snapshot(ram)), ExtentsOf(bios), dir, |bios|)
    {
      assert AllInMemory(ram.Length, ExtentsOf(bios)) by {
        assert forall k :: 0 <= k < |bios| ==> BioOk(ram.Length, bios[k]);
      }
      status := StatusOk;
      var k := 0;
      while k < |bios|
        invariant 0 <= k <= |bios| && status == StatusOk
        invariant Snapshot(ram) == RequestSpec(old(Snapshot(ram)), ExtentsOf(bios), dir, k)
      {
        status := HandleBio(ram, bios[k], dir);
        if status != StatusOk {
          break;
        }
        k := k + 1;
      }
    }
  }

  // ---------------------------------------------------------------- the longest prefix that fits

  /** The first `m` parts end inside the device. */
  predicate PrefixFits(size: nat, e: Extent, m: nat) {
    m <= |e.parts| && Offset(e, m) <= size
  }

  /** The first `k` parts are the longest prefix that ends inside the device. */
  ghost predicate LongestFit(size: nat, e: Extent, k: nat) {
    && k <= |e.parts|
    && (k > 0 ==> PrefixFits(size, e, k))
    && forall m: nat :: k < m <= |e.parts| ==> !PrefixFits(size, e, m)
  }

  function FitCount(size: nat, e: Extent, m: nat): (k: nat)
    requires m <= |e.parts|
    ensures k <= m
  {
    if m == 0 || PrefixFits(size, e, m) then m else FitCount(size, e, m - 1)
  }

  function Fit(size: nat, e: Extent): (k: nat)
    ensures k <= |e.parts|
  {
    FitCount(size, e, |e.parts|)
  }

  lemma {:induction false} FitIsLongest(size: nat, e: Extent, m: nat)
    requires m <= |e.parts|
    requires forall n: nat :: m < n <= |e.parts| ==> !PrefixFits(size, e, n)
    ensures LongestFit(size, e, FitCount(size, e, m))
  {
    if m > 0 && !PrefixFits(size, e, m) {
      FitIsLongest(size, e, m - 1);
    }
  }

  lemma {:induction false} InsidePrefixFits(size: nat, e: Extent, m: nat, k: nat)
    requires m < k && PrefixFits(size, e, k)
    ensures Offset(e, m) + e.parts[m].n <= size
  {
    OffsetMonotone(e, m + 1, k);
  }

  lemma {:induction false} PastPrefixOverflows(size: nat, e: Extent, m: nat, k: nat)
    requires k <= m < |e.parts|
    requires forall n: nat :: k < n <= |e.parts| ==> !PrefixFits(size, e, n)
    ensures Offset(e, m) + e.parts[m].n > size
  {
    assert !PrefixFits(size, e, m + 1);
  }

  /** A part is transferred exactly when it belongs to the longest fitting prefix. */
  lemma {:induction false} TransferredIffInPrefix(size: nat, e: Extent, m: nat)
    requires m < |e.parts|
    ensures Offset(e, m) + e.parts[m].n <= size <==> m < Fit(size, e)
  {
    var k := Fit(size, e);
    FitIsLongest(size, e, |e.parts|);
    if m < k {
      InsidePrefixFits(size, e, m, k);
    } else {
      PastPrefixOverflows(size, e, m, k);
    }
  }

  // ---------------------------------------------------------------- one write bio is one overwrite

  /** The bytes of the first `m` parts, end to end. */
  function Payload(ram: seq<Byte>, e: Extent, m: nat): (r: seq<Byte>)
    requires InMemory(|ram|, e) && m <= |e.parts|
    ensures |r| == Offset(e, m) - e.at
  {
    if m == 0 then [] else Payload(ram, e, m - 1) + PartBytes(ram, e.parts[m - 1])
  }

  function PartBytes(ram: seq<Byte>, p: Part): (r: seq<Byte>)
    requires p.addr + p.n <= |ram|
    ensures |r| == p.n
  {
    ram[p.addr..p.addr + p.n]
  }

  /** The single overwrite a write bio amounts to. */
  function BioPatch(size: nat, ram: seq<Byte>, e: Extent): Patch
    requires InMemory(|ram|, e)
  {
    Patch(e.at, Payload(ram, e, Fit(size, e)))
  }

  /** Within the fitting prefix each part extends the overwrite. */
  lemma {:induction false} WriteFitting(s: State, e: Extent, m: nat)
    requires InMemory(|s.ram|, e) && m <= Fit(|s.disk|, e)
    ensures BioSpec(s, e, Write, m) == s.(disk := Apply(s.disk, Patch(e.at, Payload(s.ram, e, m))))
  {
    if m == 0 {
      ApplyNothing(s.disk, e.at);
    } else {
      WriteFitting(s, e, m - 1);
      TransferredIffInPrefix(|s.disk|, e, m - 1);
      WriteOneMore(s.disk, e.at, Payload(s.ram, e, m - 1), PartBytes(s.ram, e.parts[m - 1]));
    }
  }

  lemma {:induction false} WriteOneMore(disk: seq<Byte>, at: nat, done: seq<Byte>, piece: seq<Byte>)
    requires at + |done| + |piece| <= |disk|
    ensures Splice(Apply(disk, Patch(at, done)), at + |done|, piece) == Apply(disk, Patch(at, done + piece))
  {
    SpliceSplice(disk, at, done, piece);
  }

  /** Past the fitting prefix nothing happens, in either direction. */
  lemma {:induction false} NothingAfterPrefix(s: State, e: Extent, dir: Direction, m: nat)
    requires InMemory(|s.ram|, e) && Fit(|s.disk|, e) <= m <= |e.parts|
    ensures BioSpec(s, e, dir, m) == BioSpec(s, e, dir, Fit(|s.disk|, e))
  {
    if m > Fit(|s.disk|, e) {
      NothingAfterPrefix(s, e, dir, m - 1);
      TransferredIffInPrefix(|s.disk|, e, m - 1);
    }
  }

  /** Any write bio, in range or not: the disk changes by exactly one overwrite, taken from the
      longest prefix of segments that fits; memory does not change. */
  lemma {:induction false} WriteBioIsOneOverwrite(s: State, e: Extent)
    requires InMemory(|s.ram|, e)
    ensures LongestFit(|s.disk|, e, Fit(|s.disk|, e))
    ensures BioSpec(s, e, Write, |e.parts|) == s.(disk := Apply(s.disk, BioPatch(|s.disk|, s.ram, e)))
  {
    FitIsLongest(|s.disk|, e, |e.parts|);
    NothingAfterPrefix(s, e, Write, |e.parts|);
    WriteFitting(s, e, Fit(|s.disk|, e));
  }

  // ---------------------------------------------------------------- one read bio is one slice

  /** Address `a` is one that part `p` moves. */
  predicate Holds(p: Part, a: nat) {
    p.addr <= a < p.addr + p.n
  }

  /** `j` is the last of the first `m` parts that holds address `a`. */
  ghost predicate LastHolder(e: Extent, m: nat, a: nat, j: nat)
    requires m <= |e.parts|
  {
    j < m && Holds(e.parts[j], a) && forall i :: j < i < m ==> !Holds(e.parts[i], a)
  }

  ghost predicate NoHolder(e: Extent, m: nat, a: nat)
    requires m <= |e.parts|
  {
    forall i :: 0 <= i < m ==> !Holds(e.parts[i], a)
  }

  lemma {:induction false} ReadKeepsDisk(s: State, e: Extent, m: nat)
    requires InMemory(|s.ram|, e) && m <= |e.parts|
    ensures BioSpec(s, e, Read, m).disk == s.disk
  {
    if m == 0 {
    } else {
      ReadKeepsDisk(s, e, m - 1);
    }
  }

  lemma {:induction false} TransferMisses(s: State, offset: nat, p: Part, a: nat)
    requires p.addr + p.n <= |s.ram| && a < |s.ram| && !Holds(p, a)
    ensures TransferSpec(s, offset, p, Read).ram[a] == s.ram[a]
  {
  }

  lemma {:induction false} TransferHits(s: State, offset: nat, p: Part, a: nat)
    requires p.addr + p.n <= |s.ram| && offset + p.n <= |s.disk| && Holds(p, a)
    ensures TransferSpec(s, offset, p, Read).ram[a] == s.disk[offset + a - p.addr]
  {
  }

  lemma {:induction false} ReadFittingKeeps(s: State, e: Extent, m: nat, a: nat)
    requires InMemory(|s.ram|, e) && m <= Fit(|s.disk|, e) && a < |s.ram|
    requires NoHolder(e, m, a)
    ensures BioSpec(s, e, Read, m).ram[a] == s.ram[a]
  {
    if m == 0 {
    } else {
      TransferMisses(BioSpec(s, e, Read, m - 1), Offset(e, m - 1), e.parts[m - 1], a);
      ReadFittingKeeps(s, e, m - 1, a);
    }
  }

  lemma {:induction false} ReadFittingGets(s: State, e: Extent, m: nat, a: nat, j: nat)
    requires InMemory(|s.ram|, e) && m <= Fit(|s.disk|, e) && a < |s.ram|
    requires LastHolder(e, m, a, j)
    ensures Offset(e, j) + a - e.parts[j].addr < |s.disk|
    ensures BioSpec(s, e, Read, m).ram[a] == s.disk[Offset(e, j) + a - e.parts[j].addr]
  {
    TransferredIffInPrefix(|s.disk|, e, m - 1);
    ReadKeepsDisk(s, e, m - 1);
    if j < m - 1 {
      ReadFittingGets(s, e, m - 1, a, j);
      TransferMisses(BioSpec(s, e, Read, m - 1), Offset(e, m - 1), e.parts[m - 1], a);
    } else {
      TransferHits(BioSpec(s, e, Read, m - 1), Offset(e, m - 1), e.parts[m - 1], a);
    }
  }

  /** Any read bio, in range or not: a memory byte that no transferred part holds is kept. */
  lemma {:induction false} ReadBioKeeps(s: State, e: Extent, a: nat)
    requires InMemory(|s.ram|, e) && a < |s.ram|
    requires NoHolder(e, Fit(|s.disk|, e), a)
    ensures BioSpec(s, e, Read, |e.parts|).ram[a] == s.ram[a]
  {
    NothingAfterPrefix(s, e, Read, |e.parts|);
    ReadFittingKeeps(s, e, Fit(|s.disk|, e), a);
  }

  /** Any read bio, in range or not: a memory byte that a transferred part holds comes from the
      device; where parts overlap, from the last of them. */
  lemma {:induction false} ReadBioGets(s: State, e: Extent, a: nat, j: nat)
    requires InMemory(|s.ram|, e) && a < |s.ram|
    requires LastHolder(e, Fit(|s.disk|, e), a, j)
    ensures Offset(e, j) + a - e.parts[j].addr < |s.disk|
    ensures BioSpec(s, e, Read, |e.parts|).ram[a] == s.disk[Offset(e, j) + a - e.parts[j].addr]
  {
    NothingAfterPrefix(s, e, Read, |e.parts|);
    ReadFittingGets(s, e, Fit(|s.disk|, e), a, j);
  }

  ghost predicate Disjoint(e: Extent) {
    forall i, j, a: nat :: 0 <= i < j < |e.parts| && Holds(e.parts[i], a) ==> !Holds(e.parts[j], a)
  }

  /** With separate parts, each transferred part holds its own slice of the device. */
  lemma {:induction false} ReadPart(s: State, e: Extent, m: nat)
    requires InMemory(|s.ram|, e) && Disjoint(e) && m < Fit(|s.disk|, e)
    ensures Offset(e, m + 1) <= |s.disk|
    ensures PartBytes(BioSpec(s, e, Read, |e.parts|).ram, e.parts[m]) == s.disk[Offset(e, m)..Offset(e, m + 1)]
  {
    TransferredIffInPrefix(|s.disk|, e, m);
    var p := e.parts[m];
    var got, want := PartBytes(BioSpec(s, e, Read, |e.parts|).ram, p), s.disk[Offset(e, m)..Offset(e, m + 1)];
    forall x | 0 <= x < |got|
      ensures got[x] == want[x]
    {
      assert Holds(e.parts[m], p.addr + x);
      assert LastHolder(e, Fit(|s.disk|, e), p.addr + x, m);
      ReadBioGets(s, e, p.addr + x, m);
    }
    assert got == want;
  }

  /** Any read bio with separate parts: end to end, the transferred parts hold one slice of the device. */
  lemma {:induction false} ReadBioIsOneSlice(s: State, e: Extent, m: nat)
    requires InMemory(|s.ram|, e) && Disjoint(e) && 0 < m <= Fit(|s.disk|, e)
    ensures Offset(e, m) <= |s.disk|
    ensures Payload(BioSpec(s, e, Read, |e.parts|).ram, e, m) == s.disk[e.at..Offset(e, m)]
    decreases m
  {
    ReadPart(s, e, m - 1);
    if m > 1 {
      ReadBioIsOneSlice(s, e, m - 1);
    }
    SlicesJoin(s.disk, e.at, Offset(e, m - 1), Offset(e, m));
  }

  lemma {:induction false} SlicesJoin(s: seq<Byte>, a: nat, b: nat, c: nat)
    requires a <= b <= c <= |s|
    ensures s[a..b] + s[b..c] == s[a..c]
  {
  }

  lemma {:induction false} ReadRequestKeepsDisk(s: State, es: seq<Extent>, m: nat)
    requires AllInMemory(|s.ram|, es) && m <= |es|
    ensures RequestSpec(s, es, Read, m).disk == s.disk
  {
    if m == 0 {
    } else {
      ReadRequestKeepsDisk(s, es, m - 1);
      ReadKeepsDisk(RequestSpec(s, es, Read, m - 1), es[m - 1], |es[m - 1].parts|);
    }
  }

  /** Any read request of several bios: a byte that bio `b` transferred and no later bio
      overwrote is the device's. */
  lemma {:induction false} ReadRequestGets(s: State, es: seq<Extent>, m: nat, a: nat, b: nat, j: nat)
    requires AllInMemory(|s.ram|, es) && b < m <= |es| && a < |s.ram|
    requires LastHolder(es[b], Fit(|s.disk|, es[b]), a, j)
    requires forall c :: b < c < m ==> NoHolder(es[c], Fit(|s.disk|, es[c]), a)
    ensures Offset(es[b], j) + a - es[b].parts[j].addr < |s.disk|
    ensures RequestSpec(s, es, Read, m).ram[a] == s.disk[Offset(es[b], j) + a - es[b].parts[j].addr]
  {
    var t := RequestSpec(s, es, Read, m - 1);
    ReadRequestKeepsDisk(s, es, m - 1);
    if b == m - 1 {
      ReadBioGets(t, es[b], a, j);
    } else {
      ReadRequestGets(s, es, m - 1, a, b, j);
      ReadBioKeeps(t, es[m - 1], a);
    }
  }

  // ---------------------------------------------------------------- whole runs

  /** A request together with the memory contents at the time it is queued: between requests
      the rest of the kernel may change memory in any way. */
  datatype Submission = Submission(ram: seq<Byte>, extents: seq<Extent>, dir: Direction)

  ghost predicate RunOk(subs: seq<Submission>) {
    forall k :: 0 <= k < |subs| ==> AllInMemory(|subs[k].ram|, subs[k].extents)
  }

  /** The device as `simple_block_init` leaves it. */
  ghost function InitialDisk(): seq<Byte> {
    seq(SIMPLE_BLOCK_SIZE, _ => FILL)
  }

  ghost function SubmissionSpec(disk: seq<Byte>, sub: Submission): (r: State)
    requires AllInMemory(|sub.ram|, sub.extents)
    ensures |r.disk| == |disk|
  {
    RequestSpec(State(disk, sub.ram), sub.extents, sub.dir, |sub.extents|)
  }

  /** The disk after the first `m` requests of a run. */
  ghost function RunDisk(disk: seq<Byte>, subs: seq<Submission>, m: nat): (r: seq<Byte>)
    requires RunOk(subs) && m <= |subs|
    ensures |r| == |disk|
  {
    if m == 0 then disk else SubmissionSpec(RunDisk(disk, subs, m - 1), subs[m - 1]).disk
  }

  /** The flat overwrites of a request: one per write bio, in order, whatever the segments are. */
  ghost function RequestWrites(size: nat, sub: Submission, m: nat): seq<Patch>
    requires AllInMemory(|sub.ram|, sub.extents) && m <= |sub.extents|
  {
    if m == 0 || sub.dir.Read? then []
    else RequestWrites(size, sub, m - 1) + [BioPatch(size, sub.ram, sub.extents[m - 1])]
  }

  ghost function RunWrites(size: nat, subs: seq<Submission>, m: nat): seq<Patch>
    requires RunOk(subs) && m <= |subs|
  {
    if m == 0 then []
    else RunWrites(size, subs, m - 1) + RequestWrites(size, subs[m - 1], |subs[m - 1].extents|)
  }

  lemma {:induction false} RequestIsOverwrites(disk: seq<Byte>, sub: Submission, m: nat)
    requires AllInMemory(|sub.ram|, sub.extents) && m <= |sub.extents|
    ensures RequestSpec(State(disk, sub.ram), sub.extents, sub.dir, m).disk
         == ApplyAll(disk, RequestWrites(|disk|, sub, m))
    ensures sub.dir.Write? ==> RequestSpec(State(disk, sub.ram), sub.extents, sub.dir, m).ram == sub.ram
  {
    if m == 0 {
    } else {
      RequestIsOverwrites(disk, sub, m - 1);
      var t, e := RequestSpec(State(disk, sub.ram), sub.extents, sub.dir, m - 1), sub.extents[m - 1];
      if sub.dir.Write? {
        WriteBioIsOneOverwrite(t, e);
        ApplyAllSnoc(disk, RequestWrites(|disk|, sub, m - 1), BioPatch(|disk|, sub.ram, e));
      } else {
        ReadKeepsDisk(t, e, |e.parts|);
      }
    }
  }

  /** The nested loops of a whole run refine the flat list of overwrites. */
  lemma {:induction false} RunIsOverwrites(disk: seq<Byte>, subs: seq<Submission>, m: nat)
    requires RunOk(subs) && m <= |subs|
    ensures RunDisk(disk, subs, m) == ApplyAll(disk, RunWrites(|disk|, subs, m))
  {
    if m == 0 {
    } else {
      RunIsOverwrites(disk, subs, m - 1);
      var sub := subs[m - 1];
      RequestIsOverwrites(RunDisk(disk, subs, m - 1), sub, |sub.extents|);
      ApplyAllConcat(disk, RunWrites(|disk|, subs, m - 1), RequestWrites(|disk|, sub, |sub.extents|));
    }
  }

  /** What a run says about byte `i` of the device: the newest write covering it, or the fill byte. */
  ghost function FlatView(subs: seq<Submission>, i: nat): Byte
    requires RunOk(subs)
  {
    Newest(SIMPLE_BLOCK_SIZE, RunWrites(SIMPLE_BLOCK_SIZE, subs, |subs|), i, FILL)
  }

  /** After every run, a device byte is the newest write covering it, or the fill byte. */
  lemma {:induction false} LastWriteWins(subs: seq<Submission>, i: nat)
    requires RunOk(subs) && i < SIMPLE_BLOCK_SIZE
    ensures RunDisk(InitialDisk(), subs, |subs|)[i] == FlatView(subs, i)
  {
    RunIsOverwrites(InitialDisk(), subs, |subs|);
    ApplyAllIsNewest(InitialDisk(), RunWrites(SIMPLE_BLOCK_SIZE, subs, |subs|), i);
  }

  /** An in-range read bio with separate parts returns its slice of the device, byte for byte. */
  lemma {:induction false} ReadInRange(s: State, e: Extent, x: nat)
    requires InMemory(|s.ram|, e) && Disjoint(e)
    requires e.at + x < End(e) <= |s.disk|
    ensures Payload(BioSpec(s, e, Read, |e.parts|).ram, e, |e.parts|)[x] == s.disk[e.at + x]
  {
    ReadBioIsOneSlice(s, e, |e.parts|);
  }

  /** After every run, the bytes an in-range read bio returns are the flat view of the device. */
  lemma {:induction false} ReadSeesLastWrite(subs: seq<Submission>, ram: seq<Byte>, e: Extent, x: nat)
    requires RunOk(subs)
    requires InMemory(|ram|, e) && Disjoint(e)
    requires e.at + x < End(e) <= SIMPLE_BLOCK_SIZE
    ensures
      var s := State(RunDisk(InitialDisk(), subs, |subs|), ram);
      Payload(BioSpec(s, e, Read, |e.parts|).ram, e, |e.parts|)[x] == FlatView(subs, e.at + x)
  {
    var s := State(RunDisk(InitialDisk(), subs, |subs|), ram);
    ReadInRange(s, e, x);
    LastWriteWins(subs, e.at + x);
  }

  // ---------------------------------------------------------------- how a bio is cut

  function TotalLength(bio: Bio, m: nat): nat
    requires m <= |bio.segs|
  {
    if m == 0 then 0 else TotalLength(bio, m - 1) + bio.segs[m - 1].len
  }

  /** Every byte of every segment is moved exactly when all segments are whole sectors. */
  lemma {:induction false} MovesEverythingIffAligned(bio: Bio, m: nat)
    requires m <= |bio.segs|
    ensures Offset(ExtentOf(bio), m) - ExtentOf(bio).at <= TotalLength(bio, m)
    ensures Offset(ExtentOf(bio), m) - ExtentOf(bio).at == TotalLength(bio, m)
       <==> forall k :: 0 <= k < m ==> bio.segs[k].len % KERNEL_SECTOR_SIZE == 0
  {
    if m == 0 {
    } else {
      MovesEverythingIffAligned(bio, m - 1);
      var len := bio.segs[m - 1].len;
      assert len == len / KERNEL_SECTOR_SIZE * KERNEL_SECTOR_SIZE + len % KERNEL_SECTOR_SIZE;
    }
  }

  /** A write bio with the memory it takes its bytes from. */
  datatype Cut = Cut(ram: seq<Byte>, bio: Bio)

  /** `bio_for_each_segment` yields segments that lie in one page each. */
  predicate InOnePage(seg: Segment) {
    seg.addr % PAGE_SIZE + seg.len <= PAGE_SIZE
  }

  ghost predicate CutOk(c: Cut) {
    && InMemory(|c.ram|, ExtentOf(c.bio))
    && forall k :: 0 <= k < |c.bio.segs| ==> InOnePage(c.bio.segs[k])
  }

  ghost function CutBytes(c: Cut): seq<Byte>
    requires CutOk(c)
  {
    Payload(c.ram, ExtentOf(c.bio), |c.bio.segs|)
  }

  ghost function CutResult(disk: seq<Byte>, c: Cut): seq<Byte>
    requires CutOk(c)
  {
    BioSpec(State(disk, c.ram), ExtentOf(c.bio), Write, |c.bio.segs|).disk
  }

  /** The same `n` sectors written at the same place, cut into segments in two ways. */
  ghost predicate SameBytes(sector: nat, n: nat, c: Cut, c': Cut) {
    && CutOk(c) && CutOk(c') && c.bio.sector == sector == c'.bio.sector
    && CutBytes(c) == CutBytes(c') && |CutBytes(c)| == n * KERNEL_SECTOR_SIZE
  }

  /** Writing `n` sectors at `sector` has one result, however the bytes are cut into segments. */
  ghost predicate CutIndependent(size: nat, sector: nat, n: nat) {
    forall disk: seq<Byte>, c, c' {:trigger CutResult(disk, c), CutResult(disk, c')} ::
      |disk| == size && SameBytes(sector, n, c, c') ==> CutResult(disk, c) == CutResult(disk, c')
  }

  /** Two ranges with the same start and the same bytes write the same, inside the device or past its end. */
  lemma {:induction false} SameRangeSameResult(disk: seq<Byte>, ram: seq<Byte>, e: Extent,
                                               ram': seq<Byte>, e': Extent)
    requires InMemory(|ram|, e) && InMemory(|ram'|, e') && e.at == e'.at
    requires Payload(ram, e, |e.parts|) == Payload(ram', e', |e'.parts|)
    requires End(e) <= |disk| || e.at >= |disk|
    ensures BioSpec(State(disk, ram), e, Write, |e.parts|).disk
         == BioSpec(State(disk, ram'), e', Write, |e'.parts|).disk
  {
    WriteBioIsOneOverwrite(State(disk, ram), e);
    WriteBioIsOneOverwrite(State(disk, ram'), e');
    if End(e) > |disk| {
      NoBytesFitAtEnd(disk, ram, e);
      NoBytesFitAtEnd(disk, ram', e');
    }
  }

  /** At or past the end of the device no byte fits. */
  lemma {:induction false} NoBytesFitAtEnd(disk: seq<Byte>, ram: seq<Byte>, e: Extent)
    requires InMemory(|ram|, e) && e.at >= |disk|
    ensures Apply(disk, BioPatch(|disk|, ram, e)) == disk
  {
    FitIsLongest(|disk|, e, |e.parts|);
    if BioPatch(|disk|, ram, e).bytes == [] {
      ApplyNothing(disk, e.at);
    }
  }

  /** One segment per sector. */
  function Singles(sector: nat, n: nat): Bio {
    Bio(sector, seq(n, _ => Segment(0, KERNEL_SECTOR_SIZE)))
  }

  /** The same, but sectors `m` and `m + 1` are one segment. */
  function Paired(sector: nat, n: nat, m: nat): Bio
    requires m + 1 < n
  {
    Bio(sector, seq(n - 1, i => Segment(0, if i == m then 2 * KERNEL_SECTOR_SIZE else KERNEL_SECTOR_SIZE)))
  }

  lemma {:induction false} CutsOk(ram: seq<Byte>, sector: nat, n: nat, m: nat)
    requires m + 1 < n && |ram| == 2 * KERNEL_SECTOR_SIZE
    ensures CutOk(Cut(ram, Singles(sector, n))) && CutOk(Cut(ram, Paired(sector, n, m)))
  {
  }

  lemma {:induction false} SinglesOffset(sector: nat, n: nat, k: nat)
    requires k <= n
    ensures Offset(ExtentOf(Singles(sector, n)), k) == (sector + k) * KERNEL_SECTOR_SIZE
  {
    if k == 0 {
    } else {
      SinglesOffset(sector, n, k - 1);
    }
  }

  lemma {:induction false} PairedOffset(sector: nat, n: nat, m: nat, k: nat)
    requires m + 1 < n && k < n
    ensures Offset(ExtentOf(Paired(sector, n, m)), k) == (sector + if k <= m then k else k + 1) * KERNEL_SECTOR_SIZE
  {
    if k == 0 {
    } else {
      PairedOffset(sector, n, m, k - 1);
    }
  }

  /** Equal bytes in memory are equal bytes in the payload. */
  lemma {:induction false} PayloadOfOnes(ram: seq<Byte>, e: Extent, m: nat)
    requires InMemory(|ram|, e) && m <= |e.parts| && forall i :: 0 <= i < |ram| ==> ram[i] == 1
    ensures forall x :: 0 <= x < |Payload(ram, e, m)| ==> Payload(ram, e, m)[x] == 1
  {
    if m == 0 {
    } else {
      PayloadOfOnes(ram, e, m - 1);
    }
  }

  /** Writing ones over zeros: byte `i` of the range is written exactly when the fitting prefix covers it. */
  lemma {:induction false} OnesWritten(disk: seq<Byte>, ram: seq<Byte>, e: Extent, i: nat)
    requires InMemory(|ram|, e) && (forall x :: 0 <= x < |ram| ==> ram[x] == 1)
    requires e.at <= i < |disk| && disk[i] == 0
    ensures BioSpec(State(disk, ram), e, Write, |e.parts|).disk[i] == if i < Offset(e, Fit(|disk|, e)) then 1 else 0
  {
    var k := Fit(|disk|, e);
    WriteBioIsOneOverwrite(State(disk, ram), e);
    PayloadOfOnes(ram, e, k);
  }

  lemma {:induction false} FitReaches(size: nat, e: Extent, k: nat)
    requires PrefixFits(size, e, k)
    ensures Offset(e, k) <= Offset(e, Fit(size, e))
  {
    FitIsLongest(size, e, |e.parts|);
    OffsetMonotone(e, k, Fit(size, e));
  }

  lemma {:induction false} FitStops(size: nat, e: Extent, m: nat)
    requires m < |e.parts| && Offset(e, m + 1) > size
    ensures Offset(e, Fit(size, e)) <= Offset(e, m)
  {
    TransferredIffInPrefix(size, e, m);
    OffsetMonotone(e, Fit(size, e), m);
  }

  /** A write that straddles the end: with one segment per sector it writes up to the end; with the last
      sector inside and the first outside in one segment, which is within a page, it writes one sector less. */
  lemma {:induction false} CutMatters(size: nat, sector: nat, n: nat)
    requires size % KERNEL_SECTOR_SIZE == 0
    requires sector * KERNEL_SECTOR_SIZE < size < (sector + n) * KERNEL_SECTOR_SIZE
    ensures !CutIndependent(size, sector, n)
  {
    var m := size / KERNEL_SECTOR_SIZE - sector - 1;
    var ram: seq<Byte> := seq(2 * KERNEL_SECTOR_SIZE, _ => 1);
    var disk: seq<Byte> := seq(size, _ => 0);
    var c, c' := Cut(ram, Singles(sector, n)), Cut(ram, Paired(sector, n, m));
    SameOnes(ram, sector, n, m);
    SinglesReachEnd(disk, ram, sector, n, m);
    PairedStopEarlier(disk, ram, sector, n, m);
    assert CutResult(disk, c)[(sector + m) * KERNEL_SECTOR_SIZE] == 1;
    assert CutResult(disk, c')[(sector + m) * KERNEL_SECTOR_SIZE] == 0;
  }

  lemma {:induction false} SamePayload(ram: seq<Byte>, e: Extent, e': Extent)
    requires InMemory(|ram|, e) && InMemory(|ram|, e') && (forall x :: 0 <= x < |ram| ==> ram[x] == 1)
    requires e.at == e'.at && End(e) == End(e')
    ensures Payload(ram, e, |e.parts|) == Payload(ram, e', |e'.parts|)
  {
    PayloadOfOnes(ram, e, |e.parts|);
    PayloadOfOnes(ram, e', |e'.parts|);
  }

  lemma {:induction false} SameOnes(ram: seq<Byte>, sector: nat, n: nat, m: nat)
    requires m + 1 < n && |ram| == 2 * KERNEL_SECTOR_SIZE && forall x :: 0 <= x < |ram| ==> ram[x] == 1
    ensures SameBytes(sector, n, Cut(ram, Singles(sector, n)), Cut(ram, Paired(sector, n, m)))
  {
    CutsOk(ram, sector, n, m);
    SinglesOffset(sector, n, n);
    PairedOffset(sector, n, m, n - 1);
    SamePayload(ram, ExtentOf(Singles(sector, n)), ExtentOf(Paired(sector, n, m)));
  }

  lemma {:induction false} SinglesReachEnd(disk: seq<Byte>, ram: seq<Byte>, sector: nat, n: nat, m: nat)
    requires m + 1 < n && |disk| == (sector + m + 1) * KERNEL_SECTOR_SIZE && |ram| == 2 * KERNEL_SECTOR_SIZE
    requires (forall x :: 0 <= x < |ram| ==> ram[x] == 1) && forall x :: 0 <= x < |disk| ==> disk[x] == 0
    ensures CutOk(Cut(ram, Singles(sector, n)))
    ensures CutResult(disk, Cut(ram, Singles(sector, n)))[(sector + m) * KERNEL_SECTOR_SIZE] == 1
  {
    var e := ExtentOf(Singles(sector, n));
    CutsOk(ram, sector, n, m);
    SinglesOffset(sector, n, m + 1);
    assert PrefixFits(|disk|, e, m + 1);
    FitReaches(|disk|, e, m + 1);
    OnesWritten(disk, ram, e, (sector + m) * KERNEL_SECTOR_SIZE);
  }

  lemma {:induction false} PairedStopEarlier(disk: seq<Byte>, ram: seq<Byte>, sector: nat, n: nat, m: nat)
    requires m + 1 < n && |disk| == (sector + m + 1) * KERNEL_SECTOR_SIZE && |ram| == 2 * KERNEL_SECTOR_SIZE
    requires (forall x :: 0 <= x < |ram| ==> ram[x] == 1) && forall x :: 0 <= x < |disk| ==> disk[x] == 0
    ensures CutOk(Cut(ram, Paired(sector, n, m)))
    ensures CutResult(disk, Cut(ram, Paired(sector, n, m)))[(sector + m) * KERNEL_SECTOR_SIZE] == 0
  {
    var e := ExtentOf(Paired(sector, n, m));
    CutsOk(ram, sector, n, m);
    PairedOffset(sector, n, m, m);
    PairedOffset(sector, n, m, m + 1);
    FitStops(|disk|, e, m);
    OnesWritten(disk, ram, e, (sector + m) * KERNEL_SECTOR_SIZE);
  }

  /** Re-cutting a write is harmless exactly when it ends inside the device or starts at or past its end. */
  lemma {:induction false} CutIndependentIff(size: nat, sector: nat, n: nat)
    requires size % KERNEL_SECTOR_SIZE == 0
    ensures CutIndependent(size, sector, n)
       <==> (sector + n) * KERNEL_SECTOR_SIZE <= size || sector * KERNEL_SECTOR_SIZE >= size
  {
    if (sector + n) * KERNEL_SECTOR_SIZE <= size || sector * KERNEL_SECTOR_SIZE >= size {
      forall disk: seq<Byte>, c, c' | |disk| == size && SameBytes(sector, n, c, c')
        ensures CutResult(disk, c) == CutResult(disk, c')
      {
        SameRangeSameResult(disk, c.ram, ExtentOf(c.bio), c'.ram, ExtentOf(c'.bio));
      }
    } else {
      CutMatters(size, sector, n);
    }
  }
}
