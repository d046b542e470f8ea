# Crop synchronisation and crop overlay, modelled in Dafny

The model covers two parts of a camera-streaming device layer.

**Crop/frame synchronisation.** This part is `device/crop_sync.c` and `device/crop_sync.h`. A client asks a device for a crop rectangle with `submit` and gets back a command id. Each captured frame reports the crop the hardware actually used (`on_frame`). The engine matches the two:

- it keeps the last 64 commands in a ring;
- a new command supersedes the one unresolved command before it;
- a frame whose crop fingerprint changed brackets the newest unresolved command that asked for that crop, between the previous frame's time and its own.

The model also covers the take-and-clear id handshake, snapshots, per-id lookups and the per-device registry (creation on first use, detach). All of these are pure functions over an immutable per-device record:

- the ring is a 64-element sequence with `head` and `count`;
- `Hist` views the live entries newest first;
- the registry is a sequence of (device, state) nodes.

**Crop overlay.** This part is the glyph painter of `device/overlay.c`. It stamps the frame's crop rectangle ("x,y,w,h" at scale 2) and its capture time (scale 1) into the luma bytes of a packed YUYV frame.

- A frame is a `seq<byte>` of `width * height * 2` bytes. `yuyv_set_y` is a function on it. The cell, comma, glyph and line painters are methods whose loops carry invariants. `overlay_draw_crop_yuyv` is a method that calls the line painter at most twice.
- Its contract is given by `Painted`. The result differs from the input exactly on the luma bytes of the pixels a reference predicate selects, and those bytes hold the drawing value. Chroma bytes never change.
- The reference predicates do not share the loop structure:
  - `CharCovers` derives the font cell by division;
  - `CommaCovers` is a rectangle;
  - `Layout` is a recursive reference for the pen.

Modules:

| file | module | contents |
|---|---|---|
| types.dfy | CropTypes | integer widths, `Rect`, `Command`, `ApplyEvent`, `Snapshot`, casts |
| hash.dfy | CropHash | the 64-bit FNV-style fingerprint |
| ring.dfy | CropRing | the ring and its newest-first view |
| sync.dfy | CropSync | device state, invariant, `Submit`, `OnFrame`, `TakeLastCmdId`, `TakeSnapshot`, `GetCmd` |
| sync_lemmas.dfy | CropSyncLemmas | invariant preservation, supersession, eviction, attribution |
| trace.dfy | CropSyncTrace | arbitrary call sequences: id numbering and the handshake |
| scenarios.dfy | CropSyncScenarios | concrete call sequences worked through the model |
| registry.dfy | CropRegistry | the device registry and the public entry points |
| yuyv.dfy | YuyvFrame | luma offsets, `yuyv_set_y`, the font, coverage predicates |
| overlay.dfy | CropOverlay | `draw_char_3x5`, `draw_comma`, `draw_text_line` and their layout |
| overlay_frame.dfy | CropOverlayFrame | `overlay_draw_crop_yuyv`, decimal text |

Two consequences of the code are worth stating:

- A nonzero `first_after_us` does not imply that a command is Applied, nor the reverse.
  - The bracketing scan of `on_frame` ignores the state (device/crop_sync.c:207-212). A Superseded command can therefore be bracketed and stay Superseded (`CropSyncScenarios.SupersededStillBracketed`).
  - A frame stamped 0 applies a command and leaves its `first_after_us` at 0 (`CropSyncScenarios.FrameAtTimeZero`). The next frame showing the same crop has the same fingerprint and brackets nothing (device/crop_sync.c:187). Once the crop has changed away and back, a later frame showing it brackets the command again (`CropSyncScenarios.RebracketAfterChange`).
- The change test of `on_frame` compares 64-bit fingerprints, not rectangles (device/crop_sync.c:185-187). Two different crops with equal fingerprints exist (`CropHash.HashCollision`). A switch between them goes unnoticed, and a command asking for the second stays Pending (`CropSyncScenarios.CollisionHidesChange`). This is how the code is designed, so it is recorded as a proved fact and not as a defect.

## Model

| member | source | states |
|---|---|---|
| CropTypes.ToInt32 | device/crop_sync.c:183-184 | `(int32_t)x` is the two's-complement reading of the unsigned value: it agrees with it modulo 2^32, a non-negative result equals it, and a negative one is the value minus 2^32 |
| CropTypes.ToInt64 | device/crop_sync.c:182 | `(int64_t)captured_time_us` agrees with the unsigned time modulo 2^64, a non-negative result equals it, and a negative one is the time minus 2^64 |
| CropTypes.RectMatches | device/crop_sync.c:39-41 | two rectangles match exactly when all five fields are equal |
| CropTypes.StateCode | device/crop_sync.h:11-15 | the number a caller reads in a copied command's `state`: 0 exactly for Pending, 1 exactly for Applied, 2 exactly for Superseded. `CropSync.TakeSnapshot` states the zeroed slots in these terms |
| CropHash.HashSeesRawFields | device/crop_sync.c:29-37 | `on_frame` hashes signed copies of x and y, but the casts back through `uint32_t` recover the frame's raw values, so the fingerprint is the FNV fold over the five fields as the frame reported them |
| CropHash.HashOfNoCrop | device/crop_sync.c:29-37 | the fingerprint of "no crop" is 8387169000292456873, not the 0 a new device stores, so a device's first frame takes the change path even without a crop |
| CropHash.HashCollision | device/crop_sync.c:29-37 | the fingerprint is not injective: two different valid rectangles hash to the same 64-bit value |
| CropRing.RingNewest | device/crop_sync.c:115-119 | `ring_newest(off)` yields an entry exactly when `off < count`, and that entry is the off-th newest |
| CropRing.NewestSlotInjective | device/crop_sync.c:115-119 | different offsets resolve to different ring slots, so the newest-first view never shows one slot twice |
| CropRing.InsertPushesFront | device/crop_sync.c:135-151 | writing at `head` and advancing it puts the new command in front of the history and drops the oldest entry once 64 are live |
| CropRing.UpdateOneEntry | device/crop_sync.c:127-133 | changing the entry that `ring_newest(j)` returns changes the j-th newest history entry and no other |
| CropSync.Init | device/crop_sync.c:59-68 | a new device has an empty history and zero fingerprint, frame time, counter and handshake slot, and it satisfies the device invariant |
| CropSync.FindFirst | device/crop_sync.c:126-134 | the newest-first scan finds the first index satisfying the test, and finds nothing exactly when no entry satisfies it |
| CropSyncLemmas.BracketSettles | device/crop_sync.c:209-212 | bracketing a command with the crop it asked for settles it: it is no longer Pending, a Superseded command stays Superseded, both frame times are recorded, and its lifecycle relations still hold |
| CropSync.SupersedeFirst | device/crop_sync.c:126-134 | only the first Pending, unbracketed entry is superseded by the new id; every other entry is unchanged |
| CropSync.Submit | device/crop_sync.c:121-167 | the new id is one past the counter; it sits in front of the history and in the handshake slot, and `count` grows up to 64. It resolves at once, with both times equal to the last frame time, exactly when a frame has been seen and the applied crop equals the request; otherwise it is Pending with zero times. The older entries are the superseded history, truncated to the ring |
| CropSyncLemmas.TakeReturnsLatest | device/crop_sync.c:169-177 | in a reachable state a take returns 0 or the latest id handed out, changes no command, and a second take returns 0 |
| CropSyncLemmas.TakeAfterSubmit | device/crop_sync.c:152 | a take right after `submit` returns the (nonzero) id that `submit` returned |
| CropSync.Observed | device/crop_sync.c:183-184 | the frame's unsigned x and y become signed fields that agree with them modulo 2^32; validity and size are kept |
| CropSync.BracketFirst | device/crop_sync.c:204-215 | exactly the first unbracketed entry that asked for the observed crop is bracketed and its id reported; if there is none the history is unchanged and the id is 0 |
| CropSync.OnFrame | device/crop_sync.c:179-219 | the frame time is always stored. With an unchanged fingerprint nothing else changes. Otherwise the applied crop and fingerprint are replaced and the event spans (previous frame time, this frame time). The event names the bracketed command, or 0 |
| CropSync.TakeSnapshot | device/crop_sync.c:221-238 | `history_count == count`; slot i holds what `ring_newest(i)` returns; slots past `count` are zero, so a caller reads id 0 and state code 0 (Pending) there; current crop, frame time and event are copied |
| CropSync.GetCmd | device/crop_sync.c:240-256 | the lookup finds a command exactly when a live entry has that id, and it returns the newest such entry |
| CropSyncLemmas.SubmitPreservesInv | device/crop_sync.c:121-167 | `submit` keeps the device invariant: ids descend from the counter, `count == min(next, 64)`, only the newest entry may be Pending, and the fingerprint is that of the applied crop |
| CropSyncLemmas.OnFramePreservesInv | device/crop_sync.c:179-219 | `on_frame` keeps the device invariant |
| CropSyncLemmas.TakePreservesInv | device/crop_sync.c:169-177 | `take_last_cmd_id` keeps the device invariant |
| CropSyncLemmas.SupersedesOnlyPrevious | device/crop_sync.c:126-134 | in a reachable state, `submit` supersedes at most the previous command and only if it was Pending; it then points it at the new id, and every other entry just moves back one place |
| CropSyncLemmas.GetCmdFindsLive | device/crop_sync.c:240-256 | in a reachable state the lookup succeeds exactly for the last `count` ids handed out, and id `k` sits at offset `next - k` |
| CropSyncLemmas.SubmitEvictsOldest | device/crop_sync.c:150-151 | with a full ring, `submit` makes the oldest id unfindable and keeps every newer one findable |
| CropSyncLemmas.FrameAttribution | device/crop_sync.c:188-217 | a fingerprint change names a command exactly when some unbracketed command asked for the observed crop; the named command is the newest such one and gets the bracket |
| CropSyncLemmas.FrameBracketsAt | device/crop_sync.c:204-215 | when entry k is the newest match, the frame brackets entry k, names it in the event and leaves every other entry as it was |
| CropSyncLemmas.SnapshotNewestFirst | device/crop_sync.c:221-238 | in a reachable state the snapshot lists the live commands newest first, with ids next, next-1, ... |
| CropSyncTrace.RunPreservesInv | device/crop_sync.c:121-219 | every state reached by any sequence of submits, frames and takes satisfies the device invariant |
| CropSyncTrace.RunSubmitIds | device/crop_sync.c:125 | the k-th submit of any call sequence returns the counter plus k+1, whatever frames and takes come between |
| CropSyncTrace.RunTakenRange | device/crop_sync.c:152 | a take returns 0, the id left over from before, or an id the sequence itself handed out |
| CropSyncTrace.RunTakenIncreasing | device/crop_sync.c:169-177 | the nonzero values the handshake returns are strictly increasing, so no id is reported twice |
| CropSyncTrace.FreshDeviceIds | device/crop_sync.c:125 | on a new device the ids are exactly 1, 2, 3, ..., and every nonzero value a take returns was handed out earlier in the sequence |
| CropSyncScenarios.HappyPath | device/crop_sync.c:121-219 | submit, frame, submit, submit, frame on a new device: id 1 bracketed (0, 1000) by the first frame, id 2 Applied at once with (1000, 1000), id 3 Pending until the frame at 2000 brackets it (1000, 2000) |
| CropSyncScenarios.SecondSubmitSupersedes | device/crop_sync.c:126-134 | two submits before any frame: command 1 becomes Superseded by 2, and command 2 is Pending |
| CropSyncScenarios.SupersededStillBracketed | device/crop_sync.c:207-212 | a frame showing the superseded crop brackets command 1, which stays Superseded; the event names it and command 2 stays Pending |
| CropSyncScenarios.FrameAtTimeZero | device/crop_sync.c:202-212 | a frame stamped 0 makes a command Applied while its `first_after_us` stays 0, so the scan of a later fingerprint change can still select it |
| CropSyncScenarios.ChangeAwayAndBack | device/crop_sync.c:182-212 | from one Applied but unbracketed command with its crop on screen: a frame showing the same crop brackets nothing and records no event; a frame with no crop at 10 matches no command; a frame showing the crop again at 20 brackets the command with (10, 20) and names it in the event |
| CropSyncScenarios.RebracketAfterChange | device/crop_sync.c:182-212 | on a new device, after submit and a frame stamped 0, changing away at 10 and back at 20 brackets command 1 with (10, 20); it stays Applied |
| CropSyncScenarios.CollisionHidesChange | device/crop_sync.c:185-187 | after a frame shows one of the colliding crops, a frame showing the other is ignored: the applied crop stays the first and the request stays Pending |
| CropRegistry.Lookup | device/crop_sync.c:46-54 | the registry walk finds the first node of the device, and finds none exactly when the device has no node |
| CropRegistry.SyncGet | device/crop_sync.c:43-82 | a NULL device gets nothing. A known device gets its state unchanged. An unknown device gets a new node in front only when creation is asked for and allocation succeeds; otherwise the registry is unchanged |
| CropRegistry.DeviceSubmit | device/crop_sync.c:121-123 | `submit` returns 0 exactly for a NULL device, or an unknown one whose state cannot be allocated, and then changes nothing. Otherwise the device's state becomes `Submit` of its current state (fresh if new) and the result is the new id. Other devices are untouched |
| CropRegistry.DeviceOnFrame | device/crop_sync.c:179-181 | `on_frame` creates the device state if needed and applies `OnFrame`; a NULL device or a failed allocation changes nothing; other devices are untouched |
| CropRegistry.DeviceTakeLastCmdId | device/crop_sync.c:169-177 | on a NULL or unknown device the call returns 0 and creates nothing. Otherwise it returns and clears that device's slot. Other devices are untouched |
| CropRegistry.DeviceSnapshot | device/crop_sync.c:221-238 | a snapshot exists exactly when `out` is given and the device is non-NULL and known, and it never creates state |
| CropRegistry.DeviceGetCmd | device/crop_sync.c:240-256 | a command is returned exactly when `out` is given, the device is known and the id is live; it never creates state |
| CropRegistry.Detach | device/crop_sync.c:90-109 | after `detach` a non-NULL device has no state, every other device keeps the state it had, and every linked state stays well formed |
| CropRegistry.DetachKeepsInv | device/crop_sync.c:90-109 | `detach` keeps the registry invariant: distinct devices, each with a non-NULL key and a valid state |
| CropRegistry.DeviceSubmitKeepsInv | device/crop_sync.c:121-167 | `submit` through the registry keeps the registry invariant |
| CropRegistry.DeviceOnFrameKeepsInv | device/crop_sync.c:179-219 | `on_frame` through the registry keeps the registry invariant |
| CropRegistry.DeviceTakeKeepsInv | device/crop_sync.c:169-177 | `take_last_cmd_id` through the registry keeps the registry invariant |
| CropRegistry.DetachForgets | device/crop_sync.c:90-109 | after `detach`: take returns 0, snapshot and get_cmd fail, and the next `submit` starts again at id 1 |
| YuyvFrame.LumaOffset | device/overlay.c:23-27 | the byte `yuyv_set_y` writes for an in-frame pixel is even (a luma byte) and lies, with its chroma partner, inside a `width*height*2` buffer |
| YuyvFrame.LumaOffsetInjective | device/overlay.c:23-27 | distinct pixels write distinct bytes |
| YuyvFrame.EvenOffsetIsLuma | device/overlay.c:23-27 | every even byte of a frame-sized buffer is the luma byte of some in-frame pixel |
| YuyvFrame.SetLuma | device/overlay.c:23-27 | `yuyv_set_y` sets the luma of its pixel, leaves every other pixel's luma as it was, and never touches a chroma byte |
| CropOverlay.PaintedUnique | device/overlay.c:23-27 | the pixel-level contract fixes every byte of the result |
| CropOverlay.PaintedNothing | device/overlay.c:23-27 | a drawing that selects no pixel leaves the buffer unchanged |
| CropOverlay.FillCell | device/overlay.c:40-51 | the scaled-cell loops set exactly the in-frame pixels of the scale×scale square, skipping rows at or below `height` and columns at or right of `width` |
| CropOverlay.DrawComma | device/overlay.c:56-68 | `draw_comma` sets exactly the in-frame pixels of the scale×scale square at `(x0+scale, y0+4*scale)` |
| CropOverlay.LitBeforeExactly | device/overlay.c:36-52 | the cells the row-major loops have painted are exactly the glyph's lit cells that come earlier in that order |
| CropOverlay.DrawChar3x5 | device/overlay.c:29-54 | a non-digit draws nothing. A digit sets exactly the in-frame pixels of its `3*scale × 5*scale` box whose font cell `((xx-x0)/scale, (yy-y0)/scale)` has bit `2-rx` set in row `ry`. Every write is in bounds |
| CropOverlay.DrawTextLine | device/overlay.c:70-92 | the line paints exactly the union of the glyphs `Layout` places, returns the pen `Layout` predicts, and never returns less than the start; it returns less than `width` once something is drawn. A text without a digit or a comma leaves the frame unchanged and returns `x` |
| CropOverlay.LayoutEnd | device/overlay.c:70-92 | the pen ends at the start when nothing is drawn; otherwise it ends one advance after the last glyph, the first glyph sits at the start, and the end is left of `width` |
| CropOverlay.LayoutSpacing | device/overlay.c:70-92 | each glyph starts one advance (4·scale after a digit, 2·scale after a comma) after the one before, and each ends left of `width` |
| CropOverlay.LayoutGreedy | device/overlay.c:70-92 | the drawn glyphs are the digits and commas of the text in order, skipping other characters. If some are left out, the first left out is one whose advance from the returned pen reaches `width` |
| CropOverlayFrame.DecimalRoundTrip | device/overlay.c:107-115 | the decimal text reads back as the number and has no leading zero except for 0 |
| CropOverlayFrame.TextsFit | device/overlay.c:106-115 | the crop text of four 32-bit fields and the 64-bit time both fit their 128-byte buffers, so neither is truncated |
| CropOverlayFrame.OverlayDrawCropYuyv | device/overlay.c:94-138 | nothing changes unless the buffer, its data and its list exist and the format is YUYV. Otherwise only the frame's luma bytes change, and bytes past the frame do not: the crop line at (8, 8), scale 2, is painted in luma 235, and the time line at (8, 22), scale 1, is painted only when `22 + 5 < height` |
| CropOverlayFrame.OverlayRows | device/overlay.c:117-137 | overlay pixels lie in rows 8..17 (crop) or 22..26 (time), so the two lines never overlap, and the time line is entirely inside the frame |

## Left out

- Locking and atomics: the global and per-device mutexes, `atomic_exchange`/`atomic_load`/`atomic_store`, and the lock-free fast path of `on_frame` with its re-check under the lock (device/crop_sync.c:182-190). Each public call is one atomic step, so the race that fast path tolerates is not modelled.
- Memory: `calloc` failure in `sync_get` is the `allocOk` parameter. Freeing, object lifetimes and the linked-list links are not modelled; the registry is a sequence of nodes, newest first.
- Device handles: a device is a number, with 0 standing for NULL. A NULL `out` argument of `snapshot`/`get_cmd` is the `outPresent` flag.
- CropSync.Submit: command ids are unbounded naturals; the wrap of the 64-bit `next_cmd_id` after 2^64 submissions is not modelled.
- `submit_time_us` is always written as 0 and is left out of `Command`.
- `history_count` is an `int` in the snapshot; the model uses a natural, since it is at most 64.
- Timestamps are kept as the `int64` values the code stores. A frame time of 2^63 or more is modelled by `ToInt64`, as the cast does.
- `snprintf` is modelled only through `Decimal`/`CropText`, i.e. the `%u` and `PRIu64` spellings. Locale and format-string parsing are not modelled.
- The `buffer_t`, `buffer_list` and V4L2 format structures are not part of this model. `Buffer` carries only the fields the overlay reads. `V4L2_PIX_FMT_YUYV` is the four-character code 'YUYV'.
- CropOverlay.DrawTextLine: pixel coordinates are unbounded naturals, so the unsigned wrap of `x + 4*scale` or `y0 + ry*scale` in the C code is not modelled.
- Buffer size: the code never checks that the mapped data holds a whole frame. It writes only luma bytes of in-frame pixels, so it needs at least `width*height*2` bytes. The model states that need as a requirement on the caller.
- A C string ends at its first NUL, and the text line is the characters before it.
