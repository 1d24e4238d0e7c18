/** The bitmap of allocated page frames (Kernel/memory_manager.cpp). */
module FrameAllocator {

  import opened Bits

  const BYTES_PER_FRAME := 4096
  const FRAME_COUNT := 33554432  // 128 GiB of 4 KiB frames
  const MAP_LINES := FRAME_COUNT / WORD_BITS

  type MapLine = x: nat | Fits(x, WORD_BITS) witness 0

  datatype AllocResult = Frame(id: nat) | NoFrames

  /** The n frames from start on are free and lie below end. */
  ghost predicate FreeRun(taken: set<nat>, end: nat, start: nat, n: nat) {
    forall f | start <= f < start + n :: f < end && f !in taken
  }

  ghost function Run(start: nat, n: nat): (frames: set<nat>)
    ensures forall f :: f in frames <==> start <= f < start + n
  {
    if n == 0 then {} else Run(start, n - 1) + {start + n - 1}
  }

  /** What one call of Allocate may do, for a given set of allocated frames. */
  ghost predicate AllocateSpec(before: set<nat>, after: set<nat>, begin: nat, end: nat, n: nat, r: AllocResult) {
    match r
    case Frame(id) =>
      && begin <= id && FreeRun(before, end, id, n)
      && (forall s | begin <= s < id :: !FreeRun(before, end, s, n))
      && after == before + Run(id, n)
    case NoFrames =>
      && after == before
      && forall s | begin <= s :: !FreeRun(before, end, s, n)
  }

  /** The specification leaves no choice. */
  lemma AllocateUnique(before: set<nat>, begin: nat, end: nat, n: nat, after: set<nat>, r: AllocResult,
      after': set<nat>, r': AllocResult)
    requires AllocateSpec(before, after, begin, end, n, r) && AllocateSpec(before, after', begin, end, n, r')
    ensures r == r' && after == after'
  {
  }

  /** Freeing what was allocated restores the bitmap, and nothing that was allocated before is handed out. */
  lemma FreeUndoesAllocate(before: set<nat>, after: set<nat>, begin: nat, end: nat, n: nat, id: nat)
    requires AllocateSpec(before, after, begin, end, n, Frame(id))
    ensures Run(id, n) !! before && after - Run(id, n) == before
  {
  }

  /** Frame f is marked in the map. */
  ghost predicate Marked(lines: seq<MapLine>, f: nat)
    requires |lines| == MAP_LINES
  {
    f < FRAME_COUNT && TestBit(lines[f / WORD_BITS], f % WORD_BITS)
  }

  /** A word with one bit set or cleared through its mask. */
  function Masked(line: MapLine, bit: nat, mark: bool): MapLine
    requires bit < WORD_BITS
  {
    MaskUpdate(line, bit, bit);
    if mark then Or(line, Pow2(bit)) else And(line, Complement(Pow2(bit), WORD_BITS))
  }

  /** Masking one word of the map changes the mark of one frame. */
  lemma MarkOne(was: seq<MapLine>, frame: nat, mark: bool, f: nat)
    requires |was| == MAP_LINES && frame < FRAME_COUNT
    ensures var now := was[frame / WORD_BITS := Masked(was[frame / WORD_BITS], frame % WORD_BITS, mark)];
            Marked(now, f) <==> if f == frame then mark else Marked(was, f)
  {
    hide TestBit, Or, And, Complement, Pow2, Fits;
    if f < FRAME_COUNT && f / WORD_BITS == frame / WORD_BITS {
      assert f == frame <==> f % WORD_BITS == frame % WORD_BITS;
      MaskUpdate(was[f / WORD_BITS], frame % WORD_BITS, f % WORD_BITS);
    }
  }

  class BitmapMemoryManager {
    const allocMap: array<MapLine>
    var rangeBegin: nat
    var rangeEnd: nat
    ghost var frames: set<nat>  // the frame numbers the bitmap stands for

    ghost predicate Valid()
      reads this, allocMap
    {
      && allocMap.Length == MAP_LINES && rangeEnd <= FRAME_COUNT
      && forall f: nat :: f in frames <==> Marked(allocMap[..], f)
    }

    lemma InMap(f: nat)
      requires Valid() && f in frames
      ensures f < FRAME_COUNT
    {
    }

    constructor ()
      ensures Valid() && fresh(allocMap) && frames == {}
      ensures rangeBegin == 0 && rangeEnd == FRAME_COUNT
    {
      allocMap := new MapLine[MAP_LINES](_ => 0);
      rangeBegin, rangeEnd, frames := 0, FRAME_COUNT, {};
      new;
      forall f: nat ensures !Marked(allocMap[..], f) {
        TestZero(f % WORD_BITS);
      }
    }

    method SetMemoryRange(begin: nat, end: nat)
      requires Valid() && end <= FRAME_COUNT
      modifies `rangeBegin, `rangeEnd
      ensures Valid() && rangeBegin == begin && rangeEnd == end
    {
      rangeBegin, rangeEnd := begin, end;
    }

    predicate GetBit(frame: nat)
      requires Valid() && frame < FRAME_COUNT
      reads this, allocMap
      ensures GetBit(frame) <==> frame in frames
    {
      AndPow2(allocMap[frame / WORD_BITS], frame % WORD_BITS);
      And(allocMap[frame / WORD_BITS], Pow2(frame % WORD_BITS)) != 0
    }

    method SetBit(frame: nat, mark: bool)
      requires Valid() && frame < FRAME_COUNT
      modifies `frames, allocMap
      ensures Valid()
      ensures frames == if mark then old(frames) + {frame} else old(frames) - {frame}
    {
      var line, bit := frame / WORD_BITS, frame % WORD_BITS;
      ghost var was := allocMap[..];
      MaskUpdate(allocMap[line], bit, bit);
      if mark {
        allocMap[line] := Or(allocMap[line], Pow2(bit));
      } else {
        allocMap[line] := And(allocMap[line], Complement(Pow2(bit), WORD_BITS));
      }
      frames := if mark then frames + {frame} else frames - {frame};
      assert allocMap[..] == was[line := Masked(was[line], bit, mark)];
      forall f: nat ensures f in frames <==> Marked(allocMap[..], f) {
        MarkOne(was, frame, mark, f);
      }
    }

    method MarkAllocated(start: nat, n: nat)
      requires Valid() && (n == 0 || start + n <= FRAME_COUNT)
      modifies `frames, allocMap
      ensures Valid() && frames == old(frames) + Run(start, n)
    {
      hide Marked;
      for i := 0 to n
        invariant Valid() && frames == old(frames) + Run(start, i)
      {
        SetBit(start + i, true);
        assert Run(start, i + 1) == Run(start, i) + {start + i};
      }
    }

    method Free(start: nat, n: nat)
      requires Valid() && (n == 0 || start + n <= FRAME_COUNT)
      modifies `frames, allocMap
      ensures Valid() && frames == old(frames) - Run(start, n)
    {
      hide Marked;
      for i := 0 to n
        invariant Valid() && frames == old(frames) - Run(start, i)
      {
        SetBit(start + i, false);
        assert Run(start, i + 1) == Run(start, i) + {start + i};
      }
    }

    /** First fit: the lowest free run, found although a failed probe skips past the whole part it saw. */
    method Allocate(n: nat) returns (r: AllocResult)
      requires Valid()
      modifies `frames, allocMap
      ensures Valid()
      ensures AllocateSpec(old(frames), frames, rangeBegin, rangeEnd, n, r)
    {
      hide Marked;
      var start := rangeBegin;
      while true
        invariant rangeBegin <= start && frames == old(frames) && unchanged(allocMap)
        invariant forall s | rangeBegin <= s < start :: !FreeRun(frames, rangeEnd, s, n)
        decreases rangeEnd - start
      {
        var i := 0;
        while i < n
          invariant i <= n && frames == old(frames) && unchanged(allocMap)
          invariant FreeRun(frames, rangeEnd, start, i)
        {
          if start + i >= rangeEnd {
            ghost var taken := frames;
            forall s | start <= s ensures !FreeRun(taken, rangeEnd, s, n) {
              ghost var blocked := s + i in taken;
            }
            return NoFrames;
          }
          if GetBit(start + i) {
            break;
          }
          i := i + 1;
        }
        if i == n {
          assert n > 0 ==> start + n - 1 !in frames;
          MarkAllocated(start, n);
          return Frame(start);
        }
        assert start + i in frames;
        start := start + i + 1;
      }
    }
  }
}
