/**
 * The threaded 3D renderer of the desktop frontend (`emu/renderer_3d.rs`).
 *
 * The timing thread submits a frame with `SwapBuffers` and then consumes
 * rasterized rows with `ReadScanline`/`SkipScanline`; the rasterizer thread
 * claims a submitted frame and publishes rows one by one. The only means of
 * synchronisation is an 8-bit cursor (`processing_scanline`):
 *   - SUBMITTED (`u8::MAX`): a new frame was handed off and is not claimed yet;
 *   - v in [0, SCREEN_HEIGHT]: rows [0, v) of the current frame are readable.
 *
 * The atomics are plain fields here and every thread step is one method, so
 * any interleaving of the two threads is a sequence of these calls. The same
 * transitions are stated as a pure function `Next` over `Event`s, and the
 * lemmas about `Run` (a trace of events) give the properties of arbitrary
 * interleavings.
 */
module Renderer3D {

  /** Rows of one screen of the emulated console. */
  const SCREEN_HEIGHT: nat := 192
  /** Pixels per row. */
  const SCREEN_WIDTH: nat := 256
  /** `u8::MAX`, the cursor value meaning "frame submitted, not yet claimed". */
  const SUBMITTED: nat := 255

  /** Texture memory: 4 chunks of `1 << 17` bytes. */
  const TEXTURE_SIZE: nat := 0x8_0000
  const TEXTURE_CHUNK: nat := 0x2_0000
  const TEXTURE_CHUNKS: nat := 4
  /** Texture palette memory: 6 chunks of `1 << 14` bytes. */
  const TEX_PAL_SIZE: nat := 0x1_8000
  const TEX_PAL_CHUNK: nat := 0x4000
  const TEX_PAL_CHUNKS: nat := 6
  /** Capacities of the vertex and polygon RAM snapshots. */
  const VERT_RAM_CAPACITY: nat := 6144
  const POLY_RAM_CAPACITY: nat := 2048

  type Byte = bv8
  type Pixel = bv32
  /** One rasterized row of `SCREEN_WIDTH` 32-bit colours. */
  type Scanline = seq<Pixel>

  /**
   * Vertices and polygons are defined by the emulator core; the renderer only
   * copies them, so they are kept as opaque payloads.
   */
  datatype Vertex = Vertex(payload: seq<int>)
  datatype Polygon = Polygon(payload: seq<int>)

  const DEFAULT_VERTEX: Vertex := Vertex([])
  const DEFAULT_POLYGON: Polygon := Polygon([])

  /** The dirty masks of the core's rendering state, one bit per chunk. */
  datatype DirtyFlags = DirtyFlags(textureDirty: bv8, texPalDirty: bv8)

  // ---------------------------------------------------------------------
  // Dirty-chunk copy
  // ---------------------------------------------------------------------

  /** Bit `i` of an 8-bit dirty mask (`mask & 1 << i != 0`). */
  predicate ChunkDirty(mask: bv8, i: nat)
  {
    i < 8 && mask & (1 << i) != 0
  }

  /** Bytes `[i * size, (i + 1) * size)` of `s`. */
  function Chunk(s: seq<Byte>, i: nat, size: nat): seq<Byte>
    requires (i + 1) * size <= |s|
  {
    MulMono(i, i + 1, size);
    s[i * size .. (i + 1) * size]
  }

  /**
   * The snapshot buffer after a dirty-chunk copy from `input` over `prev`:
   * each byte comes from `input` when the chunk holding it is dirty and keeps
   * its previous value otherwise.
   */
  function MergeDirtyChunks(prev: seq<Byte>, input: seq<Byte>, mask: bv8, size: nat): (r: seq<Byte>)
    requires 0 < size && |prev| == |input|
    ensures |r| == |prev|
  {
    seq(|prev|, k requires 0 <= k < |prev| => if ChunkDirty(mask, k / size) then input[k] else prev[k])
  }

  lemma MulMono(a: nat, b: nat, c: nat)
    requires a <= b
    ensures a * c <= b * c
  {
  }

  /** Every byte of chunk `i` lies in chunk `i`: its offset divided by the chunk size is `i`. */
  lemma DivInChunk(k: nat, i: nat, size: nat)
    requires 0 < size && i * size <= k < (i + 1) * size
    ensures k / size == i
  {
    var q := k / size;
    assert k == q * size + k % size;
    if q < i {
      assert (q + 1) * size == q * size + size;
      MulMono(q + 1, i, size);
    } else if q > i {
      MulMono(i + 1, q, size);
    }
  }

  /**
   * The chunk copy property: chunk `i` of the result is chunk `i` of the input
   * when bit `i` of the mask is set, and chunk `i` of the previous contents
   * otherwise.
   */
  lemma MergedChunk(prev: seq<Byte>, input: seq<Byte>, mask: bv8, size: nat, count: nat, i: nat)
    requires 0 < size && |prev| == |input| == size * count && i < count
    ensures (i + 1) * size <= |prev|
    ensures Chunk(MergeDirtyChunks(prev, input, mask, size), i, size)
         == if ChunkDirty(mask, i) then Chunk(input, i, size) else Chunk(prev, i, size)
  {
    MulMono(i + 1, count, size);
    MulMono(i, i + 1, size);
    var r := MergeDirtyChunks(prev, input, mask, size);
    var lo, hi := i * size, (i + 1) * size;
    forall k | lo <= k < hi
      ensures r[k] == if ChunkDirty(mask, i) then input[k] else prev[k]
    {
      DivInChunk(k, i, size);
    }
    assert Chunk(r, i, size) == r[lo..hi];
  }

  /**
   * Dirty-chunk isolation for the texture: a submission whose mask selects
   * only chunk 0 takes bytes `[0, 0x20000)` from the input and leaves every
   * byte of `[0x20000, 0x80000)` as it was.
   */
  lemma OnlyChunkZeroCopied(prev: seq<Byte>, input: seq<Byte>)
    requires |prev| == |input| == TEXTURE_SIZE
    ensures var r := MergeDirtyChunks(prev, input, 1, TEXTURE_CHUNK);
      && r[..TEXTURE_CHUNK] == input[..TEXTURE_CHUNK]
      && r[TEXTURE_CHUNK..] == prev[TEXTURE_CHUNK..]
  {
    var r := MergeDirtyChunks(prev, input, 1, TEXTURE_CHUNK);
    forall k | 0 <= k < TEXTURE_CHUNK ensures r[k] == input[k] {
      DivInChunk(k, 0, TEXTURE_CHUNK);
    }
    forall k | TEXTURE_CHUNK <= k < TEXTURE_SIZE ensures r[k] == prev[k] {
      assert k / TEXTURE_CHUNK != 0;
    }
    assert r[..TEXTURE_CHUNK] == input[..TEXTURE_CHUNK];
    assert r[TEXTURE_CHUNK..] == prev[TEXTURE_CHUNK..];
  }

  /** A mask with no bit set copies nothing: the snapshot keeps its contents. */
  lemma CleanMaskKeepsSnapshot(prev: seq<Byte>, input: seq<Byte>, size: nat)
    requires 0 < size && |prev| == |input|
    ensures MergeDirtyChunks(prev, input, 0, size) == prev
  {
    var r := MergeDirtyChunks(prev, input, 0, size);
    forall k | 0 <= k < |prev| ensures r[k] == prev[k] {
      assert !ChunkDirty(0, k / size);
    }
  }

  /** `dst[lo .. lo + |src|].copy_from_slice(src)`: one range is overwritten, nothing else changes. */
  method CopyIntoSlice<T>(dst: array<T>, lo: nat, src: seq<T>)
    requires lo + |src| <= dst.Length
    modifies dst
    ensures forall k :: 0 <= k < dst.Length ==>
      dst[k] == if lo <= k < lo + |src| then src[k - lo] else old(dst[k])
  {
    var j := 0;
    while j < |src|
      invariant 0 <= j <= |src|
      invariant forall k :: 0 <= k < dst.Length ==>
        dst[k] == if lo <= k < lo + j then src[k - lo] else old(dst[k])
    {
      dst[lo + j] := src[j];
      j := j + 1;
    }
  }

  /** `cur` is `prev` with every dirty chunk below offset `n` taken from `src`. */
  ghost predicate CopiedUpTo(cur: seq<Byte>, prev: seq<Byte>, src: seq<Byte>, mask: bv8, size: nat, n: nat)
    requires 0 < size
  {
    && |cur| == |prev| == |src|
    && forall k :: 0 <= k < |cur| ==> cur[k] == if k < n && ChunkDirty(mask, k / size) then src[k] else prev[k]
  }

  /** One iteration of the chunk loop extends the copied prefix by chunk `i`. */
  lemma CopyStep(prev: seq<Byte>, src: seq<Byte>, before: seq<Byte>, after: seq<Byte>, mask: bv8, size: nat, i: nat)
    requires 0 < size && |after| == |before| && (i + 1) * size <= |before|
    requires CopiedUpTo(before, prev, src, mask, size, i * size)
    requires forall k :: 0 <= k < |after| ==>
      after[k] == if i * size <= k < (i + 1) * size && ChunkDirty(mask, i) then src[k] else before[k]
    ensures CopiedUpTo(after, prev, src, mask, size, (i + 1) * size)
  {
    forall k | 0 <= k < |after|
      ensures after[k] == if k < (i + 1) * size && ChunkDirty(mask, k / size) then src[k] else prev[k]
    {
      if i * size <= k < (i + 1) * size {
        DivInChunk(k, i, size);
      }
    }
  }

  /** Once every chunk has been visited, the buffer is the merge. */
  lemma CopiedAllIsMerge(cur: seq<Byte>, prev: seq<Byte>, src: seq<Byte>, mask: bv8, size: nat)
    requires 0 < size && CopiedUpTo(cur, prev, src, mask, size, |cur|)
    ensures cur == MergeDirtyChunks(prev, src, mask, size)
  {
  }

  /** One iteration of the chunk loop: copy chunk `i` when its bit is set. */
  method CopyChunkIfDirty(dst: array<Byte>, src: seq<Byte>, mask: bv8, size: nat, i: nat, ghost prev: seq<Byte>)
    requires 0 < size && dst.Length == |src| && (i + 1) * size <= |src|
    requires CopiedUpTo(dst[..], prev, src, mask, size, i * size)
    modifies dst
    ensures CopiedUpTo(dst[..], prev, src, mask, size, (i + 1) * size)
  {
    MulMono(i, i + 1, size);
    ghost var before := dst[..];
    if ChunkDirty(mask, i) {
      CopyIntoSlice(dst, i * size, src[i * size .. (i + 1) * size]);
    }
    CopyStep(prev, src, before, dst[..], mask, size, i);
  }

  /**
   * The `for i in 0..count` loop of `swap_buffers`: chunk `i` of `src` is
   * copied into `dst` when bit `i` of the mask is set and skipped otherwise.
   */
  method CopyDirtyChunks(dst: array<Byte>, src: seq<Byte>, mask: bv8, size: nat, count: nat)
    requires 0 < size && dst.Length == |src| == size * count
    modifies dst
    ensures dst[..] == MergeDirtyChunks(old(dst[..]), src, mask, size)
  {
    ghost var prev := dst[..];
    for i := 0 to count
      invariant CopiedUpTo(dst[..], prev, src, mask, size, i * size)
    {
      MulMono(i + 1, count, size);
      CopyChunkIfDirty(dst, src, mask, size, i, prev);
    }
    CopiedAllIsMerge(dst[..], prev, src, mask, size);
  }

  // ---------------------------------------------------------------------
  // The scanline cursor as a state machine
  // ---------------------------------------------------------------------

  /** The steps that change the cursor. */
  datatype Event =
    | Submit           // timing thread, `swap_buffers`: store `u8::MAX`
    | Claim            // rasterizer: compare_exchange(u8::MAX, 0)
    | Publish(row: nat) // rasterizer, `run_frame`: compare_exchange(row, row + 1)

  /** `run_frame` only publishes rows `0..SCREEN_HEIGHT`. */
  predicate WellFormed(e: Event)
  {
    e.Publish? ==> e.row < SCREEN_HEIGHT
  }

  predicate AllWellFormed(trace: seq<Event>)
  {
    forall j :: 0 <= j < |trace| ==> WellFormed(trace[j])
  }

  /** The values the cursor can hold: `[0, SCREEN_HEIGHT]` or the sentinel. */
  predicate CursorInRange(cursor: nat)
  {
    cursor <= SCREEN_HEIGHT || cursor == SUBMITTED
  }

  /** The exit condition of the spin loop in `read_scanline`: row `next` is published. */
  predicate ScanlineReady(cursor: nat, next: nat)
  {
    cursor != SUBMITTED && cursor > next
  }

  /** An atomic compare-and-swap: the new value and whether the swap happened. */
  function CompareExchange(cursor: nat, expected: nat, desired: nat): (nat, bool)
  {
    if cursor == expected then (desired, true) else (cursor, false)
  }

  /** The cursor after one step. */
  function Next(cursor: nat, e: Event): (r: nat)
    requires WellFormed(e)
    ensures CursorInRange(cursor) ==> CursorInRange(r)
    ensures e.Submit? ==> r == SUBMITTED
    ensures e.Claim? ==> (r == 0 && cursor == SUBMITTED) || r == cursor
    ensures e.Claim? && cursor == SUBMITTED ==> r == 0
    ensures e.Publish? && cursor == e.row ==> r == e.row + 1
    ensures e.Publish? && cursor != e.row ==> r == cursor
    ensures !e.Submit? && cursor != SUBMITTED ==> cursor <= r <= cursor + 1
    ensures r == SUBMITTED ==> e.Submit? || cursor == SUBMITTED
  {
    match e
    case Submit => SUBMITTED
    case Claim => CompareExchange(cursor, SUBMITTED, 0).0
    case Publish(i) => CompareExchange(cursor, i, i + 1).0
  }

  /** The cursor after a whole trace of steps, in order. */
  function Run(cursor: nat, trace: seq<Event>): nat
    requires AllWellFormed(trace)
    decreases |trace|
  {
    if trace == [] then cursor else Run(Next(cursor, trace[0]), trace[1..])
  }

  /** Running two traces one after the other is running their concatenation. */
  lemma {:induction false} RunAppend(cursor: nat, a: seq<Event>, b: seq<Event>)
    requires AllWellFormed(a) && AllWellFormed(b)
    ensures AllWellFormed(a + b)
    ensures Run(cursor, a + b) == Run(Run(cursor, a), b)
    decreases |a|
  {
    assert AllWellFormed(a + b) by {
      forall j | 0 <= j < |a + b| ensures WellFormed((a + b)[j]) {
        if j < |a| { assert (a + b)[j] == a[j]; } else { assert (a + b)[j] == b[j - |a|]; }
      }
    }
    if a != [] {
      assert (a + b)[1..] == a[1..] + b;
      RunAppend(Next(cursor, a[0]), a[1..], b);
    } else {
      assert a + b == b;
    }
  }

  /**
   * Whatever the interleaving of submissions, claims and publications, a
   * cursor that starts in range (for instance at `SCREEN_HEIGHT`, its
   * initial value) stays in `[0, SCREEN_HEIGHT]` or at the sentinel.
   */
  lemma {:induction false} RunStaysInRange(cursor: nat, trace: seq<Event>)
    requires CursorInRange(cursor) && AllWellFormed(trace)
    ensures CursorInRange(Run(cursor, trace))
    decreases |trace|
  {
    if trace != [] {
      RunStaysInRange(Next(cursor, trace[0]), trace[1..]);
    }
  }

  /** Between two submissions the cursor never moves backwards. */
  lemma {:induction false} RunMonotoneWithinFrame(cursor: nat, trace: seq<Event>)
    requires cursor != SUBMITTED && AllWellFormed(trace)
    requires forall j :: 0 <= j < |trace| ==> !trace[j].Submit?
    ensures Run(cursor, trace) != SUBMITTED && cursor <= Run(cursor, trace)
    decreases |trace|
  {
    if trace != [] {
      RunMonotoneWithinFrame(Next(cursor, trace[0]), trace[1..]);
    }
  }

  /**
   * Step `j` of the trace is a publication of `row` whose compare-and-swap
   * succeeded: the cursor stood at `row` just before it.
   */
  ghost predicate PublishedAt(cursor: nat, trace: seq<Event>, j: nat, row: nat)
  {
    && j < |trace|
    && trace[j] == Publish(row)
    && AllWellFormed(trace[..j])
    && Run(cursor, trace[..j]) == row
  }

  /** Some step of the trace published `row` with a successful swap. */
  ghost predicate RowPublished(cursor: nat, trace: seq<Event>, row: nat)
  {
    exists j: nat :: PublishedAt(cursor, trace, j, row)
  }

  /**
   * After a submission, every row below the cursor was published, with a
   * successful swap, after that submission: starting from the sentinel, a
   * trace with no further submission either leaves the cursor at the
   * sentinel or brings it to `c` with a successful `Publish(row)` in the
   * trace for every `row < c`.
   */
  lemma {:induction false} RowsPublishedSinceSubmit(trace: seq<Event>)
    requires AllWellFormed(trace)
    requires forall j :: 0 <= j < |trace| ==> !trace[j].Submit?
    ensures var c := Run(SUBMITTED, trace);
      c == SUBMITTED
      || (c <= SCREEN_HEIGHT && forall row: nat :: row < c ==> RowPublished(SUBMITTED, trace, row))
    decreases |trace|
  {
    if trace != [] {
      var front, last := trace[..|trace| - 1], trace[|trace| - 1];
      assert trace == front + [last];
      RowsPublishedSinceSubmit(front);
      RunAppend(SUBMITTED, front, [last]);
      var c := Run(SUBMITTED, front);
      var c' := Next(c, last);
      assert Run(SUBMITTED, trace) == c';
      if c' != SUBMITTED {
        forall row: nat | row < c' ensures RowPublished(SUBMITTED, trace, row) {
          if row < c && c != SUBMITTED {
            assert RowPublished(SUBMITTED, front, row);
            var j: nat :| PublishedAt(SUBMITTED, front, j, row);
            assert trace[..j] == front[..j];
            assert PublishedAt(SUBMITTED, trace, j, row);
          } else {
            assert trace[..|front|] == front;
            assert PublishedAt(SUBMITTED, trace, |front|, row);
          }
        }
      }
    }
  }

  /**
   * Overwrite-on-submit: once a frame is submitted, no row of an abandoned
   * frame is delivered. If the timing thread may read row `n` after the
   * trace `before + [Submit] + after` (no submission in `after`), then row
   * `n` was published by a successful swap in `after`, that is, for the
   * newest frame.
   */
  lemma NoRowFromAbandonedFrame(cursor: nat, before: seq<Event>, after: seq<Event>, n: nat)
    requires AllWellFormed(before) && AllWellFormed(after)
    requires forall j :: 0 <= j < |after| ==> !after[j].Submit?
    requires AllWellFormed(before + [Submit] + after)
    requires ScanlineReady(Run(cursor, before + [Submit] + after), n)
    ensures RowPublished(SUBMITTED, after, n)
  {
    RunAppend(cursor, before, [Submit]);
    RunAppend(cursor, before + [Submit], after);
    assert Run(cursor, before + [Submit]) == SUBMITTED;
    RowsPublishedSinceSubmit(after);
  }

  // ---------------------------------------------------------------------
  // The shared state and the two threads
  // ---------------------------------------------------------------------

  /** `RenderingData`: the persistent snapshot of the last submitted frame. */
  class RenderingData {
    const texture: array<Byte>
    const texPal: array<Byte>
    const vertRam: array<Vertex>
    const polyRam: array<Polygon>
    var vertRamLevel: nat
    var polyRamLevel: nat

    ghost predicate Valid()
      reads this
    {
      && texture.Length == TEXTURE_SIZE
      && texPal.Length == TEX_PAL_SIZE
      && texture != texPal
      && vertRam.Length == VERT_RAM_CAPACITY
      && polyRam.Length == POLY_RAM_CAPACITY
      && vertRamLevel <= VERT_RAM_CAPACITY
      && polyRamLevel <= POLY_RAM_CAPACITY
    }

    /** Zeroed texture and palette memory, default vertices and polygons, no live entries. */
    constructor ()
      ensures Valid()
      ensures fresh(texture) && fresh(texPal) && fresh(vertRam) && fresh(polyRam)
      ensures forall k :: 0 <= k < TEXTURE_SIZE ==> texture[k] == 0
      ensures forall k :: 0 <= k < TEX_PAL_SIZE ==> texPal[k] == 0
      ensures forall k :: 0 <= k < VERT_RAM_CAPACITY ==> vertRam[k] == DEFAULT_VERTEX
      ensures forall k :: 0 <= k < POLY_RAM_CAPACITY ==> polyRam[k] == DEFAULT_POLYGON
      ensures vertRamLevel == 0 && polyRamLevel == 0
    {
      texture := new Byte[TEXTURE_SIZE](_ => 0);
      texPal := new Byte[TEX_PAL_SIZE](_ => 0);
      vertRam := new Vertex[VERT_RAM_CAPACITY](_ => DEFAULT_VERTEX);
      polyRam := new Polygon[POLY_RAM_CAPACITY](_ => DEFAULT_POLYGON);
      vertRamLevel, polyRamLevel := 0, 0;
    }
  }

  /** `SharedData`: what both threads see. */
  class SharedData {
    const renderingData: RenderingData
    const scanlineBuffer: array<Scanline>
    /** `processing_scanline`, an `AtomicU8`. */
    var processingScanline: nat
    /** `stopped`, an `AtomicBool`. */
    var stopped: bool

    ghost predicate Valid()
      reads this, renderingData
    {
      && renderingData.Valid()
      && scanlineBuffer.Length == SCREEN_HEIGHT
      && CursorInRange(processingScanline)
    }

    constructor ()
      ensures Valid() && fresh(renderingData) && fresh(scanlineBuffer)
      ensures fresh(renderingData.texture) && fresh(renderingData.texPal)
      ensures fresh(renderingData.vertRam) && fresh(renderingData.polyRam)
      ensures processingScanline == SCREEN_HEIGHT && !stopped
      ensures renderingData.vertRamLevel == 0 && renderingData.polyRamLevel == 0
      ensures forall k :: 0 <= k < TEXTURE_SIZE ==> renderingData.texture[k] == 0
      ensures forall k :: 0 <= k < TEX_PAL_SIZE ==> renderingData.texPal[k] == 0
      ensures forall k :: 0 <= k < VERT_RAM_CAPACITY ==> renderingData.vertRam[k] == DEFAULT_VERTEX
      ensures forall k :: 0 <= k < POLY_RAM_CAPACITY ==> renderingData.polyRam[k] == DEFAULT_POLYGON
      ensures forall k :: 0 <= k < SCREEN_HEIGHT ==> scanlineBuffer[k] == seq(SCREEN_WIDTH, _ => 0)
    {
      renderingData := new RenderingData();
      scanlineBuffer := new Scanline[SCREEN_HEIGHT](_ => seq(SCREEN_WIDTH, _ => 0));
      processingScanline := SCREEN_HEIGHT;
      stopped := false;
    }
  }

  /** `Renderer`: the timing thread's handle. */
  class Renderer {
    /** `next_scanline`, a `u8`. */
    var nextScanline: nat
    const shared: SharedData
    /** Whether `thread` still holds the rasterizer's join handle. */
    var threadAttached: bool

    ghost predicate Valid()
      reads this, shared, shared.renderingData
    {
      shared.Valid() && nextScanline < 256 && threadAttached
    }

    /** `Renderer::new`: fresh shared state, cursor at `SCREEN_HEIGHT` (nothing to read), rasterizer running. */
    constructor ()
      ensures Valid() && fresh(shared) && fresh(shared.renderingData) && fresh(shared.scanlineBuffer)
      ensures fresh(shared.renderingData.texture) && fresh(shared.renderingData.texPal)
      ensures fresh(shared.renderingData.vertRam) && fresh(shared.renderingData.polyRam)
      ensures nextScanline == 0
      ensures shared.processingScanline == SCREEN_HEIGHT && !shared.stopped
      ensures var data := shared.renderingData;
        && data.vertRamLevel == 0 && data.polyRamLevel == 0
        && (forall k :: 0 <= k < TEXTURE_SIZE ==> data.texture[k] == 0)
        && (forall k :: 0 <= k < TEX_PAL_SIZE ==> data.texPal[k] == 0)
        && (forall k :: 0 <= k < VERT_RAM_CAPACITY ==> data.vertRam[k] == DEFAULT_VERTEX)
        && (forall k :: 0 <= k < POLY_RAM_CAPACITY ==> data.polyRam[k] == DEFAULT_POLYGON)
      ensures forall k :: 0 <= k < SCREEN_HEIGHT ==> shared.scanlineBuffer[k] == seq(SCREEN_WIDTH, _ => 0)
    {
      shared := new SharedData();
      nextScanline := 0;
      threadAttached := true;
    }

    /**
     * `swap_buffers`: copy the dirty texture and palette chunks, replace the
     * vertex and polygon prefixes and their live counts, then mark the frame
     * submitted, discarding whatever the rasterizer had reached.
     */
    method SwapBuffers(texture: seq<Byte>, texPal: seq<Byte>, vertRam: seq<Vertex>, polyRam: seq<Polygon>,
                       state: DirtyFlags)
      requires Valid()
      requires |texture| == TEXTURE_SIZE && |texPal| == TEX_PAL_SIZE
      requires |vertRam| <= VERT_RAM_CAPACITY && |polyRam| <= POLY_RAM_CAPACITY
      modifies shared`processingScanline, shared.renderingData
      modifies shared.renderingData.texture, shared.renderingData.texPal
      modifies shared.renderingData.vertRam, shared.renderingData.polyRam
      ensures Valid()
      ensures var data := shared.renderingData;
        && data.texture[..] == MergeDirtyChunks(old(data.texture[..]), texture, state.textureDirty, TEXTURE_CHUNK)
        && data.texPal[..] == MergeDirtyChunks(old(data.texPal[..]), texPal, state.texPalDirty, TEX_PAL_CHUNK)
        && data.vertRam[..] == vertRam + old(data.vertRam[..])[|vertRam|..]
        && data.polyRam[..] == polyRam + old(data.polyRam[..])[|polyRam|..]
        && data.vertRamLevel == |vertRam| && data.polyRamLevel == |polyRam|
      ensures shared.processingScanline == Next(old(shared.processingScanline), Submit)
      ensures shared.stopped == old(shared.stopped) && nextScanline == old(nextScanline)
      ensures unchanged(shared.scanlineBuffer)
    {
      var data := shared.renderingData;
      CopyDirtyChunks(data.texture, texture, state.textureDirty, TEXTURE_CHUNK, TEXTURE_CHUNKS);
      CopyDirtyChunks(data.texPal, texPal, state.texPalDirty, TEX_PAL_CHUNK, TEX_PAL_CHUNKS);
      CopyIntoSlice(data.vertRam, 0, vertRam);
      assert data.vertRam[..] == vertRam + old(data.vertRam[..])[|vertRam|..];
      CopyIntoSlice(data.polyRam, 0, polyRam);
      assert data.polyRam[..] == polyRam + old(data.polyRam[..])[|polyRam|..];
      data.vertRamLevel := |vertRam|;
      data.polyRamLevel := |polyRam|;
      shared.processingScanline := SUBMITTED;
    }

    /** `start_frame`: the next row to read is row 0; the cursor is not touched. */
    method StartFrame()
      requires Valid()
      modifies this`nextScanline
      ensures Valid() && nextScanline == 0
    {
      nextScanline := 0;
    }

    /**
     * `read_scanline`, entered once its spin loop has exited: the cursor is not
     * the sentinel and has passed the row to read. Returns that row and moves
     * on to the next one.
     */
    method ReadScanline() returns (row: Scanline)
      requires Valid()
      requires ScanlineReady(shared.processingScanline, nextScanline)
      modifies this`nextScanline
      ensures Valid()
      ensures old(nextScanline) < SCREEN_HEIGHT
      ensures row == shared.scanlineBuffer[old(nextScanline)]
      ensures nextScanline == old(nextScanline) + 1
    {
      row := shared.scanlineBuffer[nextScanline];
      nextScanline := nextScanline + 1;
    }

    /** `skip_scanline`: move to the next row without reading (a `u8` increment). */
    method SkipScanline()
      requires Valid()
      modifies this`nextScanline
      ensures Valid()
      ensures nextScanline == (old(nextScanline) + 1) % 256
      ensures old(nextScanline) < 255 ==> nextScanline == old(nextScanline) + 1
    {
      nextScanline := (nextScanline + 1) % 256;
    }

    /** `drop`: raise the stop flag, wake and join the rasterizer. */
    method Drop()
      requires Valid()
      modifies this`threadAttached, shared`stopped
      ensures shared.stopped && !threadAttached
      ensures shared.processingScanline == old(shared.processingScanline)
    {
      if threadAttached {
        threadAttached := false;
        shared.stopped := true;
      }
    }
  }

  /** What one pass of the rasterizer's claim loop decides. */
  datatype ClaimOutcome =
    | Exit     // the stop flag is set: the thread returns
    | Claimed  // the cursor went from the sentinel to 0: render the frame
    | Park     // no frame is waiting: park until woken

  /** `RenderingState`: the rasterizer thread. */
  class RenderingState {
    const shared: SharedData

    constructor (shared: SharedData)
      ensures this.shared == shared
    {
      this.shared := shared;
    }

    /** One pass of the claim loop: exit when stopped, else try to claim a submitted frame. */
    method ClaimStep() returns (outcome: ClaimOutcome)
      requires shared.Valid()
      modifies shared`processingScanline
      ensures shared.Valid()
      ensures old(shared.stopped) ==> outcome == Exit && shared.processingScanline == old(shared.processingScanline)
      ensures !old(shared.stopped) ==>
        && shared.processingScanline == Next(old(shared.processingScanline), Claim)
        && (outcome == Claimed <==> old(shared.processingScanline) == SUBMITTED)
        && outcome != Exit
    {
      if shared.stopped {
        return Exit;
      }
      var r := CompareExchange(shared.processingScanline, SUBMITTED, 0);
      shared.processingScanline := r.0;
      outcome := if r.1 then Claimed else Park;
    }

    /** Publish row `i`: compare-and-swap the cursor from `i` to `i + 1`. */
    method TryPublish(i: nat) returns (ok: bool)
      requires shared.Valid() && i < SCREEN_HEIGHT
      modifies shared`processingScanline
      ensures shared.Valid()
      ensures ok <==> old(shared.processingScanline) == i
      ensures shared.processingScanline == Next(old(shared.processingScanline), Publish(i))
    {
      var r := CompareExchange(shared.processingScanline, i, i + 1);
      shared.processingScanline, ok := r.0, r.1;
    }

    /**
     * `run_frame`: publish rows 0, 1, ... in order and give up at the first
     * failed swap. Run on its own, it completes the frame exactly when it
     * starts from a freshly claimed cursor, and otherwise changes nothing.
     */
    method RunFrame()
      requires shared.Valid()
      modifies shared`processingScanline
      ensures shared.Valid()
      ensures shared.processingScanline ==
        if old(shared.processingScanline) == 0 then SCREEN_HEIGHT else old(shared.processingScanline)
    {
      for i := 0 to SCREEN_HEIGHT
        invariant shared.Valid()
        invariant old(shared.processingScanline) == 0 ==> shared.processingScanline == i
        invariant old(shared.processingScanline) != 0 ==> i == 0 && shared.processingScanline == old(shared.processingScanline)
      {
        var ok := TryPublish(i);
        if !ok {
          return;
        }
      }
    }
  }
}
