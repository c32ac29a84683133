/**
 * The CPU memory viewer of the desktop frontend (`debug_views/cpu_memory.rs`).
 *
 * Two halves talk through messages and frame snapshots:
 *   - `EmuState`, on the emulator side, knows which address range is visible
 *     and snapshots it once per frame as one 32-bit word per 4 bytes;
 *   - `CpuMemory`, on the UI side, shows the snapshot byte by byte, turns
 *     edits into write messages and, when the editor's visible range moves,
 *     sends the new range aligned to whole words.
 *
 * Bus reads are a function parameter from CPU and 32-bit address to word;
 * bus writes are returned as requests.
 */
module CpuMemoryView {
  import opened Common

  /** Editor addresses (`imgui_memory_editor::Addr`), taken to be 64 bits wide. */
  const ADDR_LIMIT: nat := 0x1_0000_0000_0000_0000
  /** Bus addresses and words are 32 bits wide. */
  const U32_LIMIT: nat := 0x1_0000_0000

  type Addr = a: nat | a < ADDR_LIMIT
  type BusAddr = a: nat | a < U32_LIMIT
  type Word = w: nat | w < U32_LIMIT
  type Byte = b: nat | b < 0x100

  /** `RangeInclusive<Addr>`: the addresses `start..=end` (none when `start > end`). */
  datatype AddrRange = AddrRange(start: Addr, end: Addr)

  predicate Contains(r: AddrRange, a: nat)
  {
    r.start <= a <= r.end
  }

  /** Which CPU's bus the view is attached to (the `ARM9` const parameter). */
  datatype Cpu = Arm7 | Arm9

  /** Messages from the view to the emulator side. */
  datatype Message =
    | Write(addr: BusAddr, value: Byte)
    | UpdateVisibleAddrs(addrs: AddrRange)

  /** An 8-bit debug write on one CPU's bus. */
  datatype BusWrite = BusWrite(cpu: Cpu, addr: BusAddr, value: Byte)

  // ---------------------------------------------------------------------
  // Word alignment of the visible range
  // ---------------------------------------------------------------------

  /** `a & !3`: clearing the two low bits, i.e. subtracting `a % 4`. */
  function AlignDown(a: Addr): (r: Addr)
    ensures r <= a && r % 4 == 0 && a - r < 4
  {
    a - a % 4
  }

  /** `(a + 3) & !3`; the addition must not overflow. */
  function AlignUp(a: Addr): (r: Addr)
    requires a + 3 < ADDR_LIMIT
    ensures a <= r && r % 4 == 0 && r < a + 4
  {
    AlignDown(a + 3)
  }

  /**
   * The range `draw` sends: the smallest range of whole words that covers the
   * editor's visible range.
   */
  function AlignRange(r: AddrRange): (aligned: AddrRange)
    requires r.end + 3 < ADDR_LIMIT
    ensures aligned.start % 4 == 0 && aligned.end % 4 == 0
    ensures aligned.start <= r.start < aligned.start + 4
    ensures r.end <= aligned.end < r.end + 4
    ensures forall a :: Contains(r, a) ==> Contains(aligned, a)
    ensures aligned.end + 3 < ADDR_LIMIT
  {
    AddrRange(AlignDown(r.start), AlignUp(r.end))
  }

  /** The aligned range is a fixed point of alignment: it is already made of whole words. */
  lemma AlignRangeIdempotent(r: AddrRange)
    requires r.end + 3 < ADDR_LIMIT
    ensures AlignRange(AlignRange(r)) == AlignRange(r)
  {
    var aligned := AlignRange(r);
    assert AlignDown(aligned.start) == aligned.start;
    assert AlignDown(aligned.end + 3) == aligned.end;
  }

  /**
   * Two editor ranges produce the same aligned range exactly when their
   * starts lie in the same word and their ends round up to the same word, so
   * scrolling within a word sends no update.
   */
  lemma SameAlignedRange(r1: AddrRange, r2: AddrRange)
    requires r1.end + 3 < ADDR_LIMIT && r2.end + 3 < ADDR_LIMIT
    ensures AlignRange(r1) == AlignRange(r2) <==>
      r1.start / 4 == r2.start / 4 && (r1.end + 3) / 4 == (r2.end + 3) / 4
  {
    DownIsWordTimesFour(r1.start);
    DownIsWordTimesFour(r2.start);
    DownIsWordTimesFour(r1.end + 3);
    DownIsWordTimesFour(r2.end + 3);
  }

  lemma DownIsWordTimesFour(a: Addr)
    ensures AlignDown(a) == 4 * (a / 4)
  {
  }

  // ---------------------------------------------------------------------
  // The frame snapshot
  // ---------------------------------------------------------------------

  /** How many words `(start..=end).step_by(4)` visits. */
  function WordCount(r: AddrRange): nat
  {
    if r.start > r.end then 0 else (r.end - r.start) / 4 + 1
  }

  /**
   * The addresses visited are exactly `start, start + 4, ...` up to `end`:
   * every one of them is in the range and the next one is past its end.
   */
  lemma WordAddrsCoverRange(r: AddrRange)
    ensures forall j :: 0 <= j < WordCount(r) ==> Contains(r, r.start + 4 * j)
    ensures r.start <= r.end ==> r.end < r.start + 4 * WordCount(r)
  {
    if r.start <= r.end {
      var n := WordCount(r);
      assert (r.end - r.start) / 4 * 4 <= r.end - r.start;
      forall j | 0 <= j < n ensures Contains(r, r.start + 4 * j) {
        assert 4 * j <= 4 * ((r.end - r.start) / 4);
      }
    }
  }

  /** The snapshot of a range: one bus word per visited address, in increasing address order. */
  function FrameWords(read: (Cpu, BusAddr) -> Word, cpu: Cpu, r: AddrRange): (words: seq<Word>)
    ensures |words| == WordCount(r)
  {
    seq(WordCount(r), j => read(cpu, (r.start + 4 * j) % U32_LIMIT))
  }

  /** The stepped loop stops with exactly the words of `FrameWords`: it has passed `end` without overshooting. */
  lemma SnapshotComplete(r: AddrRange, data: seq<Word>, read: (Cpu, BusAddr) -> Word, cpu: Cpu)
    requires |data| <= WordCount(r) && r.end < r.start + 4 * |data|
    requires forall j :: 0 <= j < |data| ==> data[j] == read(cpu, (r.start + 4 * j) % U32_LIMIT)
    ensures data == FrameWords(read, cpu, r)
  {
    if r.start <= r.end {
      var d := r.end - r.start;
      assert d / 4 * 4 <= d;
    }
  }

  // ---------------------------------------------------------------------
  // Reading bytes back
  // ---------------------------------------------------------------------

  /**
   * `(w >> (k << 3)) as u8`: byte `k` of a word, least significant first.
   * Shifting right by `8 * k` bits is shifting right by 8 bits `k` times.
   */
  function WordByte(w: Word, k: nat): Byte
    requires k < 4
  {
    if k == 0 then w % 0x100 else WordByte(w / 0x100, k - 1)
  }

  /** A word built from its four bytes, least significant first. */
  function WordOfBytes(b0: Byte, b1: Byte, b2: Byte, b3: Byte): Word
  {
    b0 + 0x100 * b1 + 0x1_0000 * b2 + 0x100_0000 * b3
  }

  /** The four bytes of a word reassemble it. */
  lemma WordBytesReassemble(w: Word)
    ensures WordOfBytes(WordByte(w, 0), WordByte(w, 1), WordByte(w, 2), WordByte(w, 3)) == w
  {
    var w1 := w / 0x100;
    var w2 := w1 / 0x100;
    var w3 := w2 / 0x100;
    var b0, b1, b2, b3 := w % 0x100, w1 % 0x100, w2 % 0x100, w3 % 0x100;
    assert WordByte(w, 3) == WordByte(w1, 2) == WordByte(w2, 1) == WordByte(w3, 0) == b3;
    assert WordByte(w, 2) == WordByte(w1, 1) == WordByte(w2, 0) == b2;
    assert WordByte(w, 1) == WordByte(w1, 0) == b1;
    SplitLowByte(w);
    SplitLowByte(w1);
    SplitLowByte(w2);
    assert w3 == b3;
    calc {
      w;
      b0 + 0x100 * w1;
      b0 + 0x100 * (b1 + 0x100 * w2);
      b0 + 0x100 * b1 + 0x1_0000 * (b2 + 0x100 * b3);
      WordOfBytes(b0, b1, b2, b3);
    }
  }

  /** Division and remainder by 256 split off the low byte. */
  lemma SplitLowByte(x: nat)
    ensures x == x % 0x100 + 0x100 * (x / 0x100)
  {
  }

  /** Extracting the bytes of an assembled word gives back each byte. */
  lemma WordBytesOfAssembled(b0: Byte, b1: Byte, b2: Byte, b3: Byte)
    ensures var w := WordOfBytes(b0, b1, b2, b3);
      WordByte(w, 0) == b0 && WordByte(w, 1) == b1 && WordByte(w, 2) == b2 && WordByte(w, 3) == b3
  {
    var w := WordOfBytes(b0, b1, b2, b3);
    var h1 := b1 + 0x100 * b2 + 0x1_0000 * b3;
    var h2 := b2 + 0x100 * b3;
    assert w / 0x100 == h1 && w % 0x100 == b0;
    assert h1 / 0x100 == h2 && h1 % 0x100 == b1;
    assert h2 / 0x100 == b3 && h2 % 0x100 == b2;
    assert WordByte(w, 3) == WordByte(h1, 2) == WordByte(h2, 1) == WordByte(b3, 0);
    assert WordByte(w, 2) == WordByte(h1, 1) == WordByte(h2, 0);
    assert WordByte(w, 1) == WordByte(h1, 0);
  }

  /**
   * The read callback of the editor: the byte at `addr` when it lies in the
   * snapshot's range and its word was captured; nothing otherwise.
   */
  function ByteAt(visible: AddrRange, data: seq<Word>, addr: Addr): (r: Option<Byte>)
    ensures r.Some? <==> Contains(visible, addr) && addr - visible.start < 4 * |data|
    ensures r.Some? ==> r.value == WordByte(data[(addr - visible.start) / 4], (addr - visible.start) % 4)
  {
    if Contains(visible, addr) then
      var offset := addr - visible.start;
      if offset < 4 * |data| then Some(WordByte(data[offset / 4], offset % 4)) else None
    else
      None
  }

  /**
   * What the viewer shows is what the bus holds: with a snapshot of the range,
   * every address of the range reads as byte `offset % 4` of the bus word at
   * the word address holding it.
   */
  lemma SnapshotShowsBusBytes(read: (Cpu, BusAddr) -> Word, cpu: Cpu, r: AddrRange, addr: Addr)
    requires Contains(r, addr)
    ensures var offset := addr - r.start;
      ByteAt(r, FrameWords(read, cpu, r), addr)
        == Some(WordByte(read(cpu, (r.start + 4 * (offset / 4)) % U32_LIMIT), offset % 4))
  {
    WordAddrsCoverRange(r);
    var offset := addr - r.start;
    assert offset / 4 < WordCount(r);
  }

  /** The write callback: the edited address, truncated to 32 bits (`addr as u32`), with the new byte. */
  function WriteMessage(addr: Addr, value: Byte): (m: Message)
    ensures m.Write? && m.value == value
    ensures addr < U32_LIMIT ==> m.addr == addr
  {
    Write(addr % U32_LIMIT, value)
  }

  // ---------------------------------------------------------------------
  // The two halves
  // ---------------------------------------------------------------------

  /** `MemContents`: a snapshot and the range it covers. */
  class MemContents {
    var visibleAddrs: AddrRange
    var data: seq<Word>

    constructor (visibleAddrs: AddrRange, data: seq<Word>)
      ensures this.visibleAddrs == visibleAddrs && this.data == data
    {
      this.visibleAddrs := visibleAddrs;
      this.data := data;
    }
  }

  /** `EmuState`: the emulator side of the view. */
  class EmuState {
    const cpu: Cpu
    var visibleAddrs: AddrRange

    constructor (cpu: Cpu, visibleAddrs: AddrRange)
      ensures this.cpu == cpu && this.visibleAddrs == visibleAddrs
    {
      this.cpu := cpu;
      this.visibleAddrs := visibleAddrs;
    }

    /** `handle_message`: forward a write to this CPU's bus, or take the new visible range. */
    method HandleMessage(message: Message) returns (write: Option<BusWrite>)
      modifies this
      ensures message.Write? ==>
        write == Some(BusWrite(cpu, message.addr, message.value)) && visibleAddrs == old(visibleAddrs)
      ensures message.UpdateVisibleAddrs? ==> write == None && visibleAddrs == message.addrs
    {
      match message {
        case Write(addr, value) =>
          write := Some(BusWrite(cpu, addr, value));
        case UpdateVisibleAddrs(addrs) =>
          write := None;
          visibleAddrs := addrs;
      }
    }

    /**
     * `prepare_frame_data`: take the slot's snapshot (or a new one when the
     * slot is empty), clear it and fill it with one bus word per 4 bytes of
     * the visible range, then record the range.
     */
    method PrepareFrameData(read: (Cpu, BusAddr) -> Word, slot: MemContents?) returns (frame: MemContents)
      modifies slot
      ensures slot != null ==> frame == slot
      ensures slot == null ==> fresh(frame)
      ensures frame.data == FrameWords(read, cpu, visibleAddrs)
      ensures frame.visibleAddrs == visibleAddrs
    {
      if slot == null {
        frame := new MemContents(AddrRange(0, 0), []);
      } else {
        frame := slot;
      }
      frame.data := [];
      var addr: nat := visibleAddrs.start;
      while addr <= visibleAddrs.end
        invariant addr == visibleAddrs.start + 4 * |frame.data|
        invariant |frame.data| <= WordCount(visibleAddrs)
        invariant forall j :: 0 <= j < |frame.data| ==>
          frame.data[j] == read(cpu, (visibleAddrs.start + 4 * j) % U32_LIMIT)
        decreases visibleAddrs.end + 4 - addr
      {
        frame.data := frame.data + [read(cpu, addr % U32_LIMIT)];
        addr := addr + 4;
      }
      SnapshotComplete(visibleAddrs, frame.data, read, cpu);
      frame.visibleAddrs := visibleAddrs;
    }
  }

  /** `CpuMemory`: the UI side of the view. */
  class CpuMemory {
    var lastVisibleAddrs: AddrRange
    const memContents: MemContents

    /** `CpuMemory::new`: empty range `0..=0`, empty snapshot. */
    constructor ()
      ensures lastVisibleAddrs == AddrRange(0, 0)
      ensures fresh(memContents) && memContents.visibleAddrs == AddrRange(0, 0) && memContents.data == []
    {
      lastVisibleAddrs := AddrRange(0, 0);
      memContents := new MemContents(AddrRange(0, 0), []);
    }

    /** `emu_state`: the range a newly created emulator side starts from. */
    function EmuStateInit(): AddrRange
      reads this
    {
      lastVisibleAddrs
    }

    /** `update_from_frame_data`: replace the shown snapshot with the frame's. */
    method UpdateFromFrameData(frame: MemContents)
      requires frame != memContents
      modifies memContents
      ensures memContents.data == frame.data && memContents.visibleAddrs == frame.visibleAddrs
    {
      memContents.data := [];
      memContents.data := memContents.data + frame.data;
      memContents.visibleAddrs := frame.visibleAddrs;
    }

    /**
     * `draw`: one write message per byte edited in the editor, in order, then
     * an update of the visible range when its word-aligned form differs from
     * the last one sent.
     */
    method Draw(editorVisible: AddrRange, edits: seq<(Addr, Byte)>) returns (messages: seq<Message>)
      requires editorVisible.end + 3 < ADDR_LIMIT
      modifies this`lastVisibleAddrs
      ensures lastVisibleAddrs == AlignRange(editorVisible)
      ensures |messages| == |edits| + (if AlignRange(editorVisible) != old(lastVisibleAddrs) then 1 else 0)
      ensures forall i :: 0 <= i < |edits| ==> messages[i] == WriteMessage(edits[i].0, edits[i].1)
      ensures AlignRange(editorVisible) != old(lastVisibleAddrs) ==>
        messages[|edits|] == UpdateVisibleAddrs(AlignRange(editorVisible))
    {
      messages := seq(|edits|, i requires 0 <= i < |edits| => WriteMessage(edits[i].0, edits[i].1));
      var visibleAddrs := AlignRange(editorVisible);
      if visibleAddrs != lastVisibleAddrs {
        lastVisibleAddrs := visibleAddrs;
        messages := messages + [UpdateVisibleAddrs(visibleAddrs)];
      }
    }
  }
}
