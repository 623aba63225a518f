/** The 64-byte files and the fixed directory of the example file system. */
module SimpleVfs {
  import opened Bytes
  import opened CStrings

  const DATA_SIZE: nat := 64
  const MAX_TEXT: nat := 63
  const EFAULT: int := 14

  // ---------------------------------------------------------------- the text of a file

  /** The bytes before the first NUL. */
  function Text(s: seq<Byte>): seq<Byte> {
    CString(s, 0)
  }

  lemma {:induction false} TextSlice(s: seq<Byte>, a: nat, b: nat)
    requires a <= b <= |Text(s)|
    ensures Text(s)[a..b] == s[a..b]
  {
    assert Text(s) == s[..|Text(s)|];
  }

  // ---------------------------------------------------------------- writes

  function Clip(n: nat): (r: nat)
    ensures r == if n <= 63 then n else 63
  {
    if n > MAX_TEXT then MAX_TEXT else n
  }

  /** One write call: the user's bytes, or a call whose copy faults after `landed` has been stored. */
  datatype WriteCall = Whole(bytes: seq<Byte>) | Faulting(count: nat, landed: seq<Byte>)

  predicate Possible(w: WriteCall) {
    w.Faulting? ==> |w.landed| <= Clip(w.count)
  }

  /** What one call leaves in the file. */
  function Written(data: seq<Byte>, w: WriteCall): (r: seq<Byte>)
    requires |data| == DATA_SIZE && Possible(w)
    ensures |r| == DATA_SIZE
  {
    match w
    case Whole(bytes) => Splice(data, 0, bytes[..Clip(|bytes|)] + [0])
    case Faulting(_, landed) => Splice(data, 0, landed)
  }

  predicate AllPossible(ws: seq<WriteCall>) {
    forall k :: 0 <= k < |ws| ==> Possible(ws[k])
  }

  function Blank(): (r: seq<Byte>)
    ensures |r| == DATA_SIZE && forall k: nat :: k < DATA_SIZE ==> r[k] == 0
  {
    seq(DATA_SIZE, _ => 0)
  }

  /** A new file after the first `k` calls. */
  function DataAfter(ws: seq<WriteCall>, k: nat): (r: seq<Byte>)
    requires k <= |ws| && AllPossible(ws)
    ensures |r| == DATA_SIZE
  {
    if k == 0 then Blank() else Written(DataAfter(ws, k - 1), ws[k - 1])
  }

  /** Over every run of writes, faulting ones included, the last byte stays NUL, so the file always holds
      a terminated string. */
  lemma {:induction false} AlwaysTerminated(ws: seq<WriteCall>, k: nat)
    requires k <= |ws| && AllPossible(ws)
    ensures DataAfter(ws, k)[DATA_SIZE - 1] == 0 && |Text(DataAfter(ws, k))| <= MAX_TEXT
  {
    if k == 0 {
    } else {
      AlwaysTerminated(ws, k - 1);
      assert Possible(ws[k - 1]);
      StaysTerminated(DataAfter(ws, k - 1), ws[k - 1]);
    }
    TextFits(DataAfter(ws, k));
  }

  lemma {:induction false} StaysTerminated(data: seq<Byte>, w: WriteCall)
    requires |data| == DATA_SIZE && data[DATA_SIZE - 1] == 0 && Possible(w)
    ensures Written(data, w)[DATA_SIZE - 1] == 0
  {
  }

  lemma {:induction false} TextFits(data: seq<Byte>)
    requires |data| == DATA_SIZE && data[DATA_SIZE - 1] == 0
    ensures |Text(data)| <= MAX_TEXT
  {
    assert data == data[..DATA_SIZE - 1] + [0] + [];
    CStringTerminated(data[..DATA_SIZE - 1], 0, []);
  }

  /** After a write that does not fault the file holds the string of the first 63 bytes written, whatever
      was in it before. */
  lemma {:induction false} WriteReadsBack(data: seq<Byte>, bytes: seq<Byte>)
    requires |data| == DATA_SIZE
    ensures Text(Written(data, Whole(bytes))) == Text(if |bytes| <= 63 then bytes else bytes[..63])
  {
    var clipped := if |bytes| <= 63 then bytes else bytes[..63];
    assert bytes[..Clip(|bytes|)] == clipped;
    WrittenIs(data, bytes, clipped);
    CStringTerminated(clipped, 0, data[|clipped| + 1..]);
  }

  lemma {:induction false} WrittenIs(data: seq<Byte>, bytes: seq<Byte>, clipped: seq<Byte>)
    requires |data| == DATA_SIZE && bytes[..Clip(|bytes|)] == clipped
    ensures Written(data, Whole(bytes)) == clipped + [0] + data[|clipped| + 1..]
  {
  }

  /** In particular a write without NUL bytes reads back as its first 63 bytes. */
  lemma {:induction false} PlainWriteReadsBack(data: seq<Byte>, bytes: seq<Byte>)
    requires |data| == DATA_SIZE && forall k: nat :: k < |bytes| ==> bytes[k] != 0
    ensures Text(Written(data, Whole(bytes))) == if |bytes| <= 63 then bytes else bytes[..63]
  {
    WriteReadsBack(data, bytes);
    CStringUnique(bytes[..Clip(|bytes|)], 0, Clip(|bytes|));
  }

  // ---------------------------------------------------------------- reads

  /** One read call at the current position; a faulting copy delivers nothing and does not move. */
  datatype ReadCall = ReadCall(count: nat, faults: bool)

  /** How many bytes a call delivers from position `pos` of a text of `len` bytes. */
  function Taken(len: nat, pos: nat, r: ReadCall): (n: nat)
    ensures n <= r.count && (pos <= len ==> pos + n <= len)
  {
    if pos >= len || r.faults then 0 else if pos + r.count > len then len - pos else r.count
  }

  function PosAfter(len: nat, calls: seq<ReadCall>, k: nat): (pos: nat)
    requires k <= |calls|
    ensures pos <= len
  {
    if k == 0 then 0 else PosAfter(len, calls, k - 1) + Taken(len, PosAfter(len, calls, k - 1), calls[k - 1])
  }

  /** How much the calls that do not fault ask for. */
  function Asked(calls: seq<ReadCall>, k: nat): nat
    requires k <= |calls|
  {
    if k == 0 then 0 else Asked(calls, k - 1) + if calls[k - 1].faults then 0 else calls[k - 1].count
  }

  /** However the reads are cut, together they get as far as they ask for, and no further than the end. */
  lemma {:induction false} ReadsReach(len: nat, calls: seq<ReadCall>, k: nat)
    requires k <= |calls|
    ensures PosAfter(len, calls, k) == if Asked(calls, k) <= len then Asked(calls, k) else len
  {
    if k == 0 {
    } else {
      ReadsReach(len, calls, k - 1);
    }
  }

  method CopyFromUser(dst: array<Byte>, src: seq<Byte>)
    requires |src| <= dst.Length
    modifies dst
    ensures dst[..] == Splice(old(dst[..]), 0, src)
  {
    forall i | 0 <= i < |src| {
      dst[i] := src[i];
    }
  }

  class Inode {
    const data: array<Byte>
    var size: nat

    ghost predicate Valid()
      reads this, data
    {
      data.Length == DATA_SIZE && data[DATA_SIZE - 1] == 0
    }

    constructor ()
      ensures Valid() && fresh(data) && size == 0 && data[..] == Blank()
    {
      data := new Byte[DATA_SIZE](_ => 0);
      size := 0;
    }

    /** `faults` says whether the copy to the user faults. */
    method Read(pos: nat, count: nat, faults: bool) returns (result: int, bytes: seq<Byte>, newPos: nat)
      requires Valid()
      ensures var len := |Text(data[..])|;
        && (pos < len && faults ==> result == -EFAULT)
        && (pos >= len || !faults ==> result == |bytes|)
        && newPos == pos + |bytes| && |bytes| == Taken(len, pos, ReadCall(count, faults))
        && (pos < len && !faults ==> |bytes| == if count <= len - pos then count else len - pos)
        && (|bytes| > 0 ==> newPos <= len && bytes == Text(data[..])[pos..newPos])
    {
      var len := |Text(data[..])|;
      if pos >= len {
        return 0, [], pos;
      }
      var n := count;
      if pos + n > len {
        n := len - pos;
      }
      if faults {
        return -EFAULT, [], pos;
      }
      TextSlice(data[..], pos, pos + n);
      assert data[pos..pos + n] == data[..][pos..pos + n];
      return n, data[pos..pos + n], pos + n;
    }

    method Write(w: WriteCall) returns (result: int)
      requires Valid() && Possible(w)
      modifies this, data
      ensures Valid() && data[..] == Written(old(data[..]), w)
      ensures w.Faulting? ==> result == -EFAULT && size == old(size)
      ensures w.Whole? ==> result == size == if |w.bytes| <= 63 then |w.bytes| else 63
    {
      match w
      case Faulting(_, landed) =>
        CopyFromUser(data, landed);
        return -EFAULT;
      case Whole(bytes) =>
        var count := |bytes|;
        if count > data.Length - 1 {
          count := data.Length - 1;
        }
        ghost var clipped := bytes[..count];
        CopyFromUser(data, bytes[..count]);
        data[count] := 0;
        size := count;
        assert data[..] == Splice(old(data[..]), 0, clipped + [0]);
        return count;
    }

    /** Reading from position 0 in any pieces, with any of the calls faulting, delivers the text from its
        beginning, up to as many bytes as the other calls ask for. */
    method ReadInPieces(calls: seq<ReadCall>) returns (all: seq<Byte>, pos: nat)
      requires Valid()
      ensures pos == |all| <= |Text(data[..])| && all == Text(data[..])[..pos]
      ensures pos == if Asked(calls, |calls|) <= |Text(data[..])| then Asked(calls, |calls|) else |Text(data[..])|
    {
      all, pos := [], 0;
      ghost var text := Text(data[..]);
      var i := 0;
      while i < |calls|
        invariant 0 <= i <= |calls| && pos == PosAfter(|text|, calls, i) && all == text[..pos]
      {
        var _, bytes, newPos := Read(pos, calls[i].count, calls[i].faults);
        assert |bytes| > 0 ==> text[..pos] + text[pos..newPos] == text[..newPos];
        all, pos := all + bytes, newPos;
        i := i + 1;
      }
      ReadsReach(|text|, calls, |calls|);
    }
  }

  // ---------------------------------------------------------------- the directory

  const ENTRIES: seq<string> := [".", "..", "testfile"]

  /** The first entry from `pos` on that does not fit. */
  function EntriesUpTo(fits: seq<bool>, pos: nat): (r: nat)
    ensures pos <= r && (pos < |fits| ==> r <= |fits|)
    ensures r < |fits| ==> !fits[r]
    ensures forall k: nat :: pos <= k < r ==> k < |fits| && fits[k]
    decreases if pos < |fits| then |fits| - pos else 0
  {
    if pos < |fits| && fits[pos] then EntriesUpTo(fits, pos + 1) else pos
  }

  /** The state of a listing: its position and what the user has received so far. `emit` is where the kernel
      asks for space: an entry that does not fit is refused. */
  class DirContext {
    var pos: nat
    var emitted: seq<string>

    constructor ()
      ensures pos == 0 && emitted == []
    {
      pos, emitted := 0, [];
    }

    method Emit(name: string, fits: bool) returns (ok: bool)
      modifies this
      ensures ok == fits && pos == old(pos) && emitted == old(emitted) + if fits then [name] else []
    {
      ok := fits;
      if fits {
        emitted := emitted + [name];
      }
    }

    /** `fits(k)` says whether there is room for entry `k` in this call. */
    method ReadDir(fits: seq<bool>)
      requires |fits| == |ENTRIES|
      modifies this
      ensures pos == EntriesUpTo(fits, old(pos))
      ensures old(pos) <= pos && emitted == old(emitted) + if old(pos) < |ENTRIES| then ENTRIES[old(pos)..pos] else []
    {
      if pos == 0 {
        var ok := Emit(".", fits[0]);
        if !ok { return; }
        pos := 1;
        assert EntriesUpTo(fits, old(pos)) == EntriesUpTo(fits, pos);
      }
      if pos == 1 {
        var ok := Emit("..", fits[1]);
        if !ok { return; }
        pos := 2;
        assert EntriesUpTo(fits, old(pos)) == EntriesUpTo(fits, pos);
      }
      if pos == 2 {
        var ok := Emit("testfile", fits[2]);
        if !ok { return; }
        pos := 3;
        assert EntriesUpTo(fits, old(pos)) == EntriesUpTo(fits, pos);
      }
    }

    /** Over any number of calls and any pattern of refusals, what has been received is the listing from its
        beginning, in order, with no entry repeated or skipped. */
    method ListDirectory(calls: seq<seq<bool>>)
      requires pos == 0 && emitted == [] && forall k :: 0 <= k < |calls| ==> |calls[k]| == |ENTRIES|
      modifies this
      ensures pos <= 3 && emitted == [".", "..", "testfile"][..pos]
      ensures (exists k :: 0 <= k < |calls| && calls[k] == [true, true, true]) ==> pos == 3
    {
      var i := 0;
      while i < |calls|
        invariant 0 <= i <= |calls| && pos <= |ENTRIES| && emitted == ENTRIES[..pos]
        invariant (exists k :: 0 <= k < i && calls[k] == [true, true, true]) ==> pos == |ENTRIES|
      {
        ReadDir(calls[i]);
        i := i + 1;
      }
    }
  }
}
