# dust frontend: renderer hand-off, input changes and memory viewer

A Dafny model of three stateful pieces of the desktop frontend of the dust
Nintendo DS emulator.

- **The threaded 3D renderer's hand-off** (`renderer_3d.dfy`, module
  `Renderer3D`). The timing thread submits a frame with `swap_buffers`. It
  copies only the dirty 128 KiB texture chunks and 16 KiB palette chunks into
  a persistent snapshot, replaces the live prefix of the vertex and polygon
  RAM, and sets the shared cursor to the sentinel 255. The rasterizer thread
  claims a submitted frame by swapping the cursor from 255 to 0. It then
  publishes rows by swapping it from `i` to `i + 1`, giving up at the first
  failed swap. The timing thread reads row `n` only once the cursor is past
  `n`. The atomics are plain fields. Each thread step is a method. The
  interleavings are a pure state machine `Next`/`Run` over traces of
  `Submit`, `Claim` and `Publish(i)` events.
- **Input change detection** (`input_state.dfy`, module `InputState`).
  `drain_changes` detects hotkey rising edges. It rebuilds the emulated
  keypad mask from the key bindings and diffs it into pressed and released
  keys. It reports the touch position only when it moved. It commits the new
  state only when something changed.
- **The CPU memory viewer** (`cpu_memory.dfy`, module `CpuMemoryView`). The
  emulator side snapshots the visible address range as one 32-bit bus word per
  4 bytes. The UI side reads bytes back in little-endian order, turns edits
  into write messages, and sends the visible range, aligned to whole words,
  only when it changes. A newly created emulator side starts from the last
  range sent, which `CpuMemory.EmuStateInit` returns as `emu_state` does.

`common.dfy` holds the `Option` datatype shared by the modules.

Parameters stand for the code the model cannot see:
- `activated: (Trigger, set<PressedKey>) -> bool` is `Trigger::activated`;
- `read: (Cpu, BusAddr) -> Word` is the ARM7/ARM9 debug bus read;
- bus writes are returned by `EmuState.HandleMessage` as `BusWrite` requests;
- `edits` is the sequence of bytes the imgui memory editor reports as edited
  during one `draw`, and `editorVisible` is its visible range.

## Model

| member | source | states |
|---|---|---|
| Renderer3D.MergeDirtyChunks | frontend/desktop/src/emu/renderer_3d.rs:53-66 | The snapshot after a dirty-chunk copy has the same length as before. Each byte comes from the input when its chunk's bit is set in the mask, and from the previous snapshot otherwise. |
| Renderer3D.MergedChunk | frontend/desktop/src/emu/renderer_3d.rs:53-66 | Chunk `i`, bytes `[i*size, (i+1)*size)`, becomes the input's chunk `i` exactly when bit `i` of the dirty mask is set. Otherwise it keeps its previous contents. |
| Renderer3D.OnlyChunkZeroCopied | frontend/desktop/src/emu/renderer_3d.rs:53-59 | With only bit 0 of `texture_dirty` set, bytes `[0, 0x20000)` come from the input and bytes `[0x20000, 0x80000)` are unchanged. |
| Renderer3D.CleanMaskKeepsSnapshot | frontend/desktop/src/emu/renderer_3d.rs:54-56 | A mask with no bit set leaves the snapshot as it was. |
| Renderer3D.CopyIntoSlice | frontend/desktop/src/emu/renderer_3d.rs:58 | `copy_from_slice`: the destination slice of `src`'s length starting at `lo` equals `src`, and every other element is unchanged. |
| Renderer3D.CopyStep | frontend/desktop/src/emu/renderer_3d.rs:53-59 | One pass of the chunk loop extends the merged prefix by chunk `i`: the dirty bytes below `(i+1)*size` come from the input, all others from the previous snapshot. |
| Renderer3D.CopyChunkIfDirty | frontend/desktop/src/emu/renderer_3d.rs:54-58 | Skipping a clean chunk or copying a dirty one keeps the loop invariant, extended by one chunk. |
| Renderer3D.CopyDirtyChunks | frontend/desktop/src/emu/renderer_3d.rs:53-66 | The in-place loop over dirty bits leaves the array equal to `MergeDirtyChunks` of its old contents. |
| Renderer3D.Next | frontend/desktop/src/emu/renderer_3d.rs:72-74 | One step keeps the cursor in `[0, SCREEN_HEIGHT] ∪ {255}`. A submission sets 255. A claim moves 255 to 0 and changes nothing else. Publishing row `i` moves the cursor to `i + 1` exactly when it stands at `i`, and leaves it unchanged otherwise. Outside the sentinel, a step advances the cursor by at most one. Only a submission reaches the sentinel from elsewhere. |
| Renderer3D.RunAppend | frontend/desktop/src/emu/renderer_3d.rs:133-155 | Running two traces in turn is running their concatenation. |
| Renderer3D.RunStaysInRange | frontend/desktop/src/emu/renderer_3d.rs:122 | From any in-range cursor, such as the initial `SCREEN_HEIGHT`, every interleaving of steps keeps the cursor in `[0, SCREEN_HEIGHT] ∪ {255}`. |
| Renderer3D.RunMonotoneWithinFrame | frontend/desktop/src/emu/renderer_3d.rs:173-181 | Between submissions the cursor never moves backwards and never becomes the sentinel. |
| Renderer3D.RowsPublishedSinceSubmit | frontend/desktop/src/emu/renderer_3d.rs:173-181 | After a submission, the cursor is the sentinel, or it is `c <= SCREEN_HEIGHT` and every row below `c` was published after the submission by a swap that succeeded (the cursor stood at that row just before the step). |
| Renderer3D.NoRowFromAbandonedFrame | frontend/desktop/src/emu/renderer_3d.rs:72-74 | Overwrite-on-submit: a row the timing thread may read after a submission was published, by a successful swap, after that submission; no row of an abandoned frame is delivered. |
| Renderer3D.RenderingData.constructor | frontend/desktop/src/emu/renderer_3d.rs:113-120 | Zeroed texture and palette memory, default vertices and polygons, live counts 0. |
| Renderer3D.SharedData.constructor | frontend/desktop/src/emu/renderer_3d.rs:112-124 | Zeroed texture and palette memory, default vertices and polygons, live counts 0, zeroed scanline buffer, cursor at `SCREEN_HEIGHT`, not stopped. |
| Renderer3D.Renderer.constructor | frontend/desktop/src/emu/renderer_3d.rs:111-160 | `next_scanline` is 0, the cursor is `SCREEN_HEIGHT`, the stop flag is clear and the rasterizer thread is attached. The snapshot is zeroed texture and palette memory with default vertices and polygons and live counts 0, and every scanline row is zero, so a row read before the first submission is all zeros. |
| Renderer3D.Renderer.SwapBuffers | frontend/desktop/src/emu/renderer_3d.rs:43-76 | Texture and palette become the dirty-chunk merges of their old contents. `vert_ram[0..len)` and `poly_ram[0..len)` equal the inputs, entries past `len` are untouched, and the levels equal the lengths (`len <= 6144`, `len <= 2048` required). The cursor becomes 255 whatever it was. The stop flag, `next_scanline` and the scanline buffer are unchanged. |
| Renderer3D.Renderer.StartFrame | frontend/desktop/src/emu/renderer_3d.rs:78-80 | `next_scanline` becomes 0; nothing else changes. |
| Renderer3D.Renderer.ReadScanline | frontend/desktop/src/emu/renderer_3d.rs:82-93 | Callable only once the cursor is not 255 and is greater than `next_scanline`. Returns `scanline_buffer[old next_scanline]`, a row below `SCREEN_HEIGHT`, and increments `next_scanline` by 1. |
| Renderer3D.Renderer.SkipScanline | frontend/desktop/src/emu/renderer_3d.rs:95-97 | `next_scanline` increments by 1 as a `u8`; the cursor and the buffers are unchanged. |
| Renderer3D.Renderer.Drop | frontend/desktop/src/emu/renderer_3d.rs:100-108 | The stop flag is set and the thread handle is taken; the cursor is unchanged. |
| Renderer3D.RenderingState.constructor | frontend/desktop/src/emu/renderer_3d.rs:168-170 | The rasterizer holds the shared state it was given. |
| Renderer3D.RenderingState.ClaimStep | frontend/desktop/src/emu/renderer_3d.rs:134-153 | When stopped, it exits without touching the cursor. Otherwise the claim succeeds exactly when the cursor was 255, and then sets it to 0. |
| Renderer3D.RenderingState.TryPublish | frontend/desktop/src/emu/renderer_3d.rs:174-181 | Publishing row `i` succeeds exactly when the cursor is `i`, and then moves it to `i + 1`. |
| Renderer3D.RenderingState.RunFrame | frontend/desktop/src/emu/renderer_3d.rs:172-184 | Alone, `run_frame` brings a freshly claimed cursor from 0 to `SCREEN_HEIGHT`. From any other cursor its first swap fails and nothing changes. |
| InputState.FiredHotkeys | frontend/desktop-sdl2/src/input/state.rs:186-191 | The actions reported are the hotkeys with an activated trigger that were not already held. None of them was held before. |
| InputState.HeldHotkeysAfter | frontend/desktop-sdl2/src/input/state.rs:186-196 | A hotkey with a trigger is held afterwards exactly when its trigger is activated. A hotkey with no trigger keeps its held state. |
| InputState.HotkeyStep | frontend/desktop-sdl2/src/input/state.rs:186-196 | Visiting one hotkey entry changes the held and fired sets for that action only. It is held exactly when its trigger is active, and it fires when it was not held before. |
| InputState.HeldHotkeyFiresOnce | frontend/desktop-sdl2/src/input/state.rs:186-196 | A second drain with the same pressed keys fires no action and keeps the same held hotkeys: a held hotkey fires once. |
| InputState.SetKey | frontend/desktop-sdl2/src/input/state.rs:205 | `Keys::set` puts the key in the mask when the value is true and removes it otherwise, leaving other keys as they were. |
| InputState.KeypadMaskUnique | frontend/desktop-sdl2/src/input/state.rs:202-207 | The keypad mask is determined by the bindings and the pressed keys: two masks satisfying the definition are equal. |
| InputState.NewKeypadMask | frontend/desktop-sdl2/src/input/state.rs:202-207 | The loop yields the mask where a key is set exactly when it has a trigger and that trigger is activated. Keys with no trigger are clear. |
| InputState.Pressed | frontend/desktop-sdl2/src/input/state.rs:209 | `new & !old`: the keys in the new mask that were not in the old one. |
| InputState.Released | frontend/desktop-sdl2/src/input/state.rs:210 | `old & !new`: the keys in the old mask that are not in the new one. |
| InputState.KeypadDiffReconstructs | frontend/desktop-sdl2/src/input/state.rs:209-210 | Pressed and released are disjoint, and setting the pressed keys in the old mask then clearing the released ones gives the new mask. |
| InputState.TouchReport | frontend/desktop-sdl2/src/input/state.rs:211-215 | The reported touch position is `None` exactly when it equals the last reported one. Otherwise it is `Some(current)`, which a receiver applies to recover the current position. |
| InputState.ChangeReport | frontend/desktop-sdl2/src/input/state.rs:209-230 | `Some` exactly when the touch position or the keypad mask changed. Applying the changes to the old mask and last touch gives the new ones. Pressed and released are disjoint. |
| InputState.SecondDrainReportsNothing | frontend/desktop-sdl2/src/input/state.rs:217-230 | After a commit, a second drain with no new input reports `None`. |
| InputState.State.DrainHotkeys | frontend/desktop-sdl2/src/input/state.rs:185-196 | The loop over the hotkey map reports exactly the fired hotkeys, each once, and leaves `pressed_hotkeys` as `HeldHotkeysAfter` its old value. |
| InputState.State.constructor | frontend/desktop-sdl2/src/input/state.rs:33-47 | No keys or hotkeys pressed, `touch_pos == prev_touch_pos == None`, empty emulated key mask. |
| InputState.State.DrainChanges | frontend/desktop-sdl2/src/input/state.rs:180-231 | The actions are the fired hotkeys, each once, and the held hotkeys are updated as above. When the emulator is not playing, the changes are `None` and the keypad mask and last touch are unchanged. Otherwise the keypad mask is rebuilt from the bindings and the changes are `ChangeReport`. The last touch becomes the current one, and on `None` nothing is committed. |
| CpuMemoryView.AlignDown | frontend/desktop/src/debug_views/cpu_memory.rs:157 | `start & !3` is at most `start`, a multiple of 4, and less than 4 below it. |
| CpuMemoryView.AlignUp | frontend/desktop/src/debug_views/cpu_memory.rs:158 | `(end + 3) & !3`, with no overflow, is at least `end`, a multiple of 4, and less than `end + 4`. |
| CpuMemoryView.AlignRange | frontend/desktop/src/debug_views/cpu_memory.rs:156-158 | The aligned range has word-aligned bounds, covers the editor's range, and is the tightest such range. |
| CpuMemoryView.AlignRangeIdempotent | frontend/desktop/src/debug_views/cpu_memory.rs:156-159 | Aligning an aligned range changes nothing: the range sent is already made of whole words. |
| CpuMemoryView.SameAlignedRange | frontend/desktop/src/debug_views/cpu_memory.rs:156-159 | Two editor ranges align to the same range exactly when their starts share a word and their ends round up to the same word. |
| CpuMemoryView.WordAddrsCoverRange | frontend/desktop/src/debug_views/cpu_memory.rs:62 | `(start..=end).step_by(4)` visits addresses inside the range only, and the first address past the last one visited is beyond `end`. |
| CpuMemoryView.FrameWords | frontend/desktop/src/debug_views/cpu_memory.rs:58-68 | The snapshot holds one word per 4 bytes of the range, `WordCount` of them. |
| CpuMemoryView.SnapshotComplete | frontend/desktop/src/debug_views/cpu_memory.rs:62-68 | Once the stepped loop has passed `end` without overshooting, the words pushed are exactly `FrameWords` of the range. |
| CpuMemoryView.WordBytesReassemble | frontend/desktop/src/debug_views/cpu_memory.rs:140 | The four little-endian bytes of a word reassemble it. |
| CpuMemoryView.WordBytesOfAssembled | frontend/desktop/src/debug_views/cpu_memory.rs:140 | Extracting byte `k` of a word assembled from four bytes gives byte `k` back. |
| CpuMemoryView.ByteAt | frontend/desktop/src/debug_views/cpu_memory.rs:136-147 | The read callback returns `Some` exactly when the address is in the inclusive range and its offset is below `4 * data.len()`. The byte is byte `offset % 4`, least significant first, of word `offset / 4`. |
| CpuMemoryView.SnapshotShowsBusBytes | frontend/desktop/src/debug_views/cpu_memory.rs:62-68 | Reading the snapshot of a range at any address of the range gives byte `offset % 4` of the bus word at that address's word. |
| CpuMemoryView.WriteMessage | frontend/desktop/src/debug_views/cpu_memory.rs:148-153 | Every edited byte becomes a `Write` with that value at the edited address, for every address the editor can report: its range is `0..=0xFFFF_FFFF` (line 103). |
| CpuMemoryView.MemContents.constructor | frontend/desktop/src/debug_views/cpu_memory.rs:54-57 | A snapshot with the given range and data. |
| CpuMemoryView.EmuState.constructor | frontend/desktop/src/debug_views/cpu_memory.rs:28-34 | The emulator side starts from the given range. |
| CpuMemoryView.EmuState.HandleMessage | frontend/desktop/src/debug_views/cpu_memory.rs:36-47 | A `Write` becomes an 8-bit bus write on this CPU and leaves the range unchanged. `UpdateVisibleAddrs(r)` sets the range to `r` and writes nothing. |
| CpuMemoryView.EmuState.PrepareFrameData | frontend/desktop/src/debug_views/cpu_memory.rs:49-70 | It reuses the slot's snapshot or allocates a new one. The data becomes exactly one bus word per address `start, start+4, …, ≤ end`, in increasing order, and the range is copied in. |
| CpuMemoryView.CpuMemory.constructor | frontend/desktop/src/debug_views/cpu_memory.rs:100-112 | The last visible range and the snapshot range are `0..=0`, and the snapshot is empty. |
| CpuMemoryView.CpuMemory.UpdateFromFrameData | frontend/desktop/src/debug_views/cpu_memory.rs:118-126 | The shown snapshot's data and range become the frame's, discarding the previous data. |
| CpuMemoryView.CpuMemory.Draw | frontend/desktop/src/debug_views/cpu_memory.rs:128-163 | One write message per edited byte, in order. Then one `UpdateVisibleAddrs(aligned)` exactly when the aligned range differs from the last one sent, which becomes the aligned range. Repeating `draw` with the same range therefore sends no update. |

## Left out

- Threads: spawning, `thread::park`/`unpark`, `hint::spin_loop`, `join` and the `UnsafeCell` aliasing in `renderer_3d.rs` are not modelled. The atomics are sequential fields. The spin loop of `read_scanline` is its precondition. A park is the `Park` outcome of `ClaimStep`. The `Next`/`Run` lemmas stand in for the interleavings.
- Renderer3D.RenderingState.RunFrame: the rows are not rendered. The loop body at line 182 is a `TODO`, so the scanline buffer is never written after creation.
- Renderer3D.Renderer.SkipScanline: `next_scanline` is a `u8`. The model takes the release-build wrap-around to 0 after 255; a debug build panics there instead.
- Renderer3D.Renderer.SwapBuffers: `Vertex`, `Polygon` and the `RenderingState` dirty-mask types are defined in `dust_core`, which is not part of this model. Vertices and polygons are opaque values and the masks are 8-bit. The `as u16` of the live counts is exact for the required lengths.
- InputState.State.DrainChanges: `HashMap` iteration order is unspecified. The model picks map entries in an arbitrary order, so the actions are specified as a set with no duplicates, not as a sequence in a fixed order.
- InputState: `EmuKeys` bitflags are modelled as the set of the flags they hold. `Trigger::activated` and the `Map` type are not shown and are parameters. The keys of the keypad map are `EmuKeys` values in the source (state.rs:203-206); the model assumes each holds a single flag (`EmuKey` is a flag index). A key holding several flags would make the order of the `set` calls matter, which the model does not capture.
- Touchscreen geometry in `input/state.rs` (lines 49-117) is floating-point trigonometry and is not modelled. `touch_pos` is only read by `drain_changes`. `process_event` (lines 119-178) is commented out in the source.
- CpuMemoryView: the ARM7/ARM9 bus reads and writes and the imgui `MemoryEditor` are foreign code. Reads are a function parameter, writes are returned requests, and the editor's visible range and edits are parameters of `Draw`. Window sizing and fonts (lines 82-95, 129-131) are UI only.
- CpuMemoryView.AlignUp: `imgui_memory_editor::Addr` is not part of this model; it is assumed to be 64 bits wide (`ADDR_LIMIT`), which sets the no-overflow precondition of `(end + 3) & !3`.
- CpuMemoryView.EmuState.PrepareFrameData: does not model the panic of the source when `start > end`. At line 61, `end - start` underflows: a debug build panics there, and a release build wraps and `reserve` then panics on capacity overflow for every range below 2^32, which is every range the editor reports (line 103). The model returns an empty snapshot instead. For `start <= end` the `reserve` only sets capacity and is left out.
- `frontend/desktop-sdl2/src/ui.rs`, the triple buffer, `frontend/sdl2/src/{main,video,options}.rs` and `core/src/cpu/interpreter/alu_utils.rs` are UI, I/O and library plumbing and are not part of this model.
