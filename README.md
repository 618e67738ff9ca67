# Thumbnail strip of the clutter timeline, in Dafny

This project models the thumbnail machinery of the timeline's `VideoPreviewer`
(`timeline.py`) and the few small algorithms beside it:

- **Content address** (`content_address.dfy`, module `ContentAddress`): `hash_file`
  reads at most 1024 chunks of 256 bytes from the start of the source file, feeding
  each to SHA-256, and stops at the first empty read. The file is its byte sequence.
  SHA-256 is a symbolic accumulator whose digest is a term over the concatenated
  chunks.
- **Thumbnail cache** (`thumbnail_cache.dfy`, module `ThumbCache`): the sqlite table
  `Thumbs(Time PRIMARY KEY, Data, Width, Height, Stride)` is a sequence of rows.
  `SELECT … fetchone()`, `DELETE … WHERE time=?` and `INSERT` are functions on that
  sequence; `INSERT` fails on a taken key. The primary key is the invariant
  `UniqueTimes`. The class `ThumbnailCache` holds the hash and the rows and offers
  `Contains`, `Get` (a `KeyError` result on a miss) and `Set` (delete, then insert).
- **Strip geometry** (`geometry.dfy`, module `Geometry`): the per-thumbnail duration
  is rounded up to a multiple of `thumb_period` (one second), with one period as a
  floor. Thumbnails go at `0, d, 2d, …`, one per whole bucket, because
  `duration / d` is integer division.
- **Request queue** (`request_queue.dfy`, module `RequestQueue`): `queue` and
  `waiting_timestamp` as a value `Driver`. It has pure transitions for
  `_nextThumbnail` (`Advance`), `_requestThumbnail` (`Request`) and the queue part of
  `_finishThumbnail` (`Complete`), and the invariant `DriverInvariant`: no
  duplicates, and a non-empty queue's head is the waiting timestamp, so at most one
  seek is outstanding. `pipeline.seek` is an oracle `seek: int -> bool`.
- **Previewer** (`previewer.dfy`, module `Previewer`): class `VideoPreviewer` with the
  fields the source updates (`thumbs`, `queue`, `waitingTimestamp`, `duration`,
  `inPoint`), its cache, and a ghost log of the seeks sent to the pipeline. Each
  method is proved against the pure transitions above.
- **Layers** (`layers.dfy`, module `Layers`): `moveLayer` over an array of layer
  priorities, with the `_dragEndCb` guard, `highlightSeparator` and
  `selectLayerControl` over per-control flag arrays.
- **Brother lookup** (`elements.dfy`, module `Elements`): `findBrother` as a linear
  scan.

Notes on what the code does:

- `duration / thumb_duration` at `timeline.py:1003` is integer division, so a
  trailing partial bucket gets no thumbnail: a 30 s clip with 4 s spacing gets its
  last thumbnail at 24 s (`Geometry.ThirtySecondClipEveryFourSeconds`).
- `timeline.py:1055-1056` replace the time reported with the frame by
  `waiting_timestamp`, so the frame is filed under the last head tried since the
  previous completion, whether its seek was accepted or rejected
  (`VideoPreviewer.FinishThumbnail`). That value is `None` before the first seek
  and after a completion that tried no new head. The key `None` makes the
  `DELETE` match no row, and SQLite gives the `INTEGER PRIMARY KEY` the next rowid,
  so the frame is appended under a fresh `Time` (`VideoPreviewer.StoreUnkeyedFrame`).
- The `ThumbnailCache` docstring (`timeline.py:1152-1155`) mentions LRU eviction
  with `heapq` and an in-memory tier; no code implements either, and the model has
  neither.
- `element_changed` (`timeline.py:1109`) calls `get_in_point()`, while the
  constructor (`timeline.py:905`) calls `get_inpoint()`. GES names this accessor
  `ges_timeline_element_get_inpoint`, so `get_inpoint()` is the one the element
  offers and `get_in_point()` is missing: `element_changed` raises
  `AttributeError` after updating `duration`, leaves `in_point` stale and never
  schedules the re-layout. `VideoPreviewer.ElementChangedAsWritten` models that
  effect; `VideoPreviewer.ElementChanged` models the intended update of both fields.

## Model

| member | source | states |
|---|---|---|
| ContentAddress.Read | timeline.py:1135 | `file.read(256)` at an offset returns the next `min(256, remaining)` bytes of the file and nothing past EOF |
| ContentAddress.UpdateExtendsInput | timeline.py:1131-1138 | `sha256.update(chunk)` extends the digested input by exactly the chunk, so the digest depends only on the bytes fed, not on how they were split |
| ContentAddress.ChunksFromCover | timeline.py:1133-1138 | the chunks the loop feeds, concatenated, are exactly the file's bytes from the start offset up to the iteration budget or EOF |
| ContentAddress.ChunksFromShape | timeline.py:1133-1138 | at most 1024 chunks are fed, none empty, none over 256 bytes, and all but the last exactly 256 bytes |
| ContentAddress.PrefixDigestIsBoundedPrefix | timeline.py:1130-1139 | the digest covers exactly the first `min(len(file), 1024*256)` bytes |
| ContentAddress.SharedPrefixSameDigest | timeline.py:1130-1139 | two files that agree on their first 256 KiB get the same content address |
| ContentAddress.ShortFileDigest | timeline.py:1130-1139 | a file of at most 256 KiB is hashed whole |
| ContentAddress.HashFile | timeline.py:1130-1139 | the bounded read loop with early `break` returns the digest of the chunks above, so of the file's first `min(len, 256 KiB)` bytes |
| ThumbCache.SelectTime | timeline.py:1169-1178 | `SELECT … WHERE Time = ?` then `fetchone()` returns a row with that time from the table, or nothing exactly when no row has it |
| ThumbCache.DeleteTime | timeline.py:1194-1195 | `DELETE … WHERE time=?` removes every row with that time and keeps all the others |
| ThumbCache.InsertRow | timeline.py:1196 | the INSERT succeeds exactly when no row has the key, then appends the row and keeps the primary key unique; otherwise it fails with an integrity error for that key |
| ThumbCache.UpsertRows | timeline.py:1192-1197 | after `__setitem__` the new row ends the table, no other row has its key, and every other row comes from the old table; `SelectAfterUpsert` and `UpsertKeepsUnique` give the lookups and the invariant |
| ThumbCache.Lookup | timeline.py:1176-1190 | a key some row has yields the pixbuf rebuilt from such a row; any other key yields `KeyError(key)` |
| ThumbCache.DeleteThenInsertSucceeds | timeline.py:1194-1196 | after the delete, the insert of the same key never violates the primary key |
| ThumbCache.SelectAfterDelete | timeline.py:1195 | after the delete, the key is absent and every other key selects what it selected before |
| ThumbCache.SelectAfterAppend | timeline.py:1196 | an inserted row is found for its key exactly when no earlier row had that key; other lookups are unchanged |
| ThumbCache.SelectAfterUpsert | timeline.py:1192-1197 | after delete-then-insert the key finds the new row and every other key is unchanged |
| ThumbCache.DeleteKeepsUnique | timeline.py:1195 | deleting rows keeps at most one row per `Time` |
| ThumbCache.UpsertKeepsUnique | timeline.py:1166-1167 | the upsert keeps the primary-key invariant: never two rows for one `Time`, and the key written has its row |
| ThumbCache.AutoTime | timeline.py:1166 | the `Time` SQLite assigns to a row inserted with a NULL key is 1 on an empty table and otherwise above every stored `Time`, so no row has it |
| ThumbCache.DeleteAbsent | timeline.py:1195 | deleting a key no row has leaves the table as it was |
| ThumbCache.UpsertAbsentAppends | timeline.py:1194-1196 | storing under a key no row has appends exactly its row and changes nothing else |
| ThumbCache.ThumbnailCache.constructor | timeline.py:1157-1167 | opening hashes the source and reuses the table stored under that hash, or starts an empty one |
| ThumbCache.ThumbnailCache.Contains | timeline.py:1169-1174 | `key in cache` holds exactly when some row has that `Time` |
| ThumbCache.ThumbnailCache.Get | timeline.py:1176-1190 | a hit rebuilds the pixbuf from a row for that key (data, width, height, stride); a miss is `KeyError(key)` |
| ThumbCache.ThumbnailCache.Set | timeline.py:1192-1197 | after `cache[k] = v`, `k in cache` holds and `cache[k]` gives back v's bytes, width, height and stride; every other key is unchanged; the unique-time invariant holds |
| Geometry.QuantizeThumbDuration | timeline.py:994-1001 | the quantized spacing is never below one period; `QuantizeCovers` and `QuantizeIsLeast` prove it is the least multiple of the period that covers the unquantized duration |
| Geometry.QuantizeCovers | timeline.py:994-1001 | the quantized thumbnail duration is a multiple of the period, at least one period and at least the unquantized duration |
| Geometry.QuantizeIsLeast | timeline.py:994-1001 | no multiple of the period that is at least one period and at least the unquantized duration is smaller than the quantized duration |
| Geometry.ThumbTimes | timeline.py:1003-1012 | the loop places `duration / d` thumbnails, the i-th at time `i*d` |
| Geometry.ThumbTimesExactly | timeline.py:1003-1012 | a time gets a thumbnail iff it is a non-negative multiple of `d` whose whole bucket `[t, t+d)` fits in the clip, so no trailing partial bucket |
| Geometry.ThumbTimesIncreasing | timeline.py:1005-1012 | thumbnail times strictly increase, so the rebuilt `thumbs` keys are distinct |
| Geometry.ThirtySecondClipEveryFourSeconds | timeline.py:1003-1012 | a 30 s clip with 4 s spacing gets thumbnails at 0, 4, …, 24 s and none at 28 s |
| RequestQueue.Advance | timeline.py:1030-1045 | `_nextThumbnail` never grows the queue, and on a non-empty queue leaves a waiting timestamp taken from it; `AdvanceDropsRejectedHeads`, `AdvanceWaiting` and `AdvanceEstablishesInvariant` say which |
| RequestQueue.Attempts | timeline.py:1030-1045 | the seeks `_nextThumbnail` issues are a prefix of the queue, non-empty when the queue is; `AttemptsAreDroppedThenAccepted` says which prefix |
| RequestQueue.AdvanceDropsRejectedHeads | timeline.py:1030-1038 | `_nextThumbnail` drops exactly a prefix of rejected heads; the remaining head, if any, was accepted |
| RequestQueue.AdvanceWaiting | timeline.py:1030-1045 | the waiting timestamp becomes the accepted head, or the last rejected head when all are rejected; an empty queue changes nothing |
| RequestQueue.AttemptsAreDroppedThenAccepted | timeline.py:1030-1045 | the seeks issued are the dropped heads in order, followed by the accepted head if there is one |
| RequestQueue.AdvanceEstablishesInvariant | timeline.py:1030-1045 | advancing a duplicate-free queue leaves its head equal to the waiting timestamp |
| RequestQueue.Request | timeline.py:1021-1028 | `_requestThumbnail` grows the queue by at most one entry and adds nothing but the requested time; `RequestKeepsInvariant` and `RequestIdempotent` give the rest |
| RequestQueue.RequestAttempts | timeline.py:1021-1028 | a request seeks exactly the requested time when the queue was empty and the time new, and nothing otherwise |
| RequestQueue.RequestKeepsInvariant | timeline.py:1021-1028 | `_requestThumbnail` keeps the queue duplicate-free with its head waiting; a queued time changes nothing; a new time goes to the tail; a seek is issued only from an empty queue; afterwards the time is queued unless its own seek was rejected |
| RequestQueue.RequestIdempotent | timeline.py:1021-1045 | with independent pipeline answers to two requests of one time: while the time is still queued the second request changes nothing and seeks nothing; if the first request's own seek was rejected, the second acts as a fresh request on the original empty queue and seeks the time again |
| RequestQueue.RejectedRequestIsRetried | timeline.py:1021-1045 | a time whose first seek was rejected and whose second is accepted ends queued and waiting, unlike after a single request |
| RequestQueue.IndexOf | timeline.py:1064-1065 | the position of the first occurrence of a queued time |
| RequestQueue.RemoveFirst | timeline.py:1064-1065 | `queue.remove` guarded by `in` leaves a queue without the time untouched |
| RequestQueue.RemoveFirstCutsFirstOccurrence | timeline.py:1064-1065 | `queue.remove(time)` cuts out the first occurrence and keeps the others in order |
| RequestQueue.Retire | timeline.py:1064-1065 | the guarded `queue.remove(time)` removes one entry when the waiting timestamp is queued and none otherwise |
| RequestQueue.Complete | timeline.py:1052-1066 | completion never grows the queue, and shrinks it when the waiting timestamp was queued; `CompleteRetiresHead` says it retires the head |
| RequestQueue.CompleteRetiresHead | timeline.py:1047-1067 | under the invariant, completion removes exactly the head, advances the rest in order and restores the invariant; an empty queue stays empty with nothing waiting |
| RequestQueue.RejectedHeadIsSkipped | timeline.py:1030-1067 | with `[5, 10, 15]` queued and 5 rejected, 10 is sought and waits; on its completion, with the pipeline's later answers, only 15 is sought, so 5 is not sought again |
| Previewer.SetFromPixbuf | timeline.py:1123-1127 | the thumbnail keeps its own size and shows the pixbuf's pixels with the pixbuf's row stride |
| Previewer.LayOutStripStep | timeline.py:1005-1012 | laying out one more strip time adds exactly that key, filled from the cache or left empty, and keeps the others |
| Previewer.Populate | timeline.py:1006-1011 | laying out a strip adds at most one queue entry per strip time; `PopulateStep` and `PopulateRequestsMisses` give the rest |
| Previewer.PopulateSeeks | timeline.py:1006-1011 | laying out a strip issues at most one seek per strip time; `PopulateSeeksOnlyMisses`, `PopulateSeeksOnce` and `CachedStripSeeksNothing` say which |
| Previewer.PopulateSeeksOnlyMisses | timeline.py:1006-1028 | every seek issued while laying out a strip is for an uncached time of the strip |
| Previewer.PopulateSeeksOnce | timeline.py:1006-1028 | with the strip's times distinct, no time is sought twice while laying it out |
| Previewer.CachedStripSeeksNothing | timeline.py:1006-1019 | a strip whose every time is cached starts no decode |
| Previewer.PopulateStep | timeline.py:1006-1012 | each loop iteration of `_addThumbnails` adds one `_thumbForTime` step |
| Previewer.PopulateRequestsMisses | timeline.py:1006-1028 | laying out a strip keeps the driver invariant; every uncached time is queued unless its own seek was rejected; nothing queued is lost; only uncached strip times are added |
| Previewer.VideoPreviewer.constructor | timeline.py:885-927 | a new previewer has no thumbnails, an empty queue, no waiting timestamp and an open cache; the width falls back to 16:9 of the height when the preroll fails |
| Previewer.VideoPreviewer.StartThumbnail | timeline.py:1040-1045 | the time becomes the waiting timestamp before the seek, whatever the seek answers |
| Previewer.VideoPreviewer.NextThumbnail | timeline.py:1030-1038 | the new queue and waiting timestamp are those of `Advance`, and the pipeline receives exactly the seeks of `Attempts` |
| Previewer.VideoPreviewer.RequestThumbnail | timeline.py:1021-1028 | the new queue and waiting timestamp are those of `Request`; seeks are issued only from an empty queue |
| Previewer.VideoPreviewer.ThumbForTime | timeline.py:1014-1019 | a cache hit fills the thumbnail from the cached frame and leaves the queue alone; a miss leaves `thumbs` alone and requests the time |
| Previewer.VideoPreviewer.PlaceThumbnail | timeline.py:1007-1011 | one loop iteration: the new thumbnail for the time is filled from the cache on a hit, with no seek; the time is requested on a miss, with that request's seeks; no other thumbnail changes |
| Previewer.VideoPreviewer.PlaceStripTime | timeline.py:1005-1012 | the `i`-th iteration takes `thumbs`, the driver and the seek log from the layout of the first `i` strip times to that of the first `i + 1` |
| Previewer.VideoPreviewer.AddThumbnails | timeline.py:979-1012 | the old `thumbs` is discarded; `thumbs` becomes the layout of exactly the strip times of the quantized spacing, each filled from the cache or left empty; the queue is that of requesting the misses in order; the seeks sent are those of `PopulateSeeks`, so only uncached strip times, each at most once; the driver invariant holds |
| Previewer.VideoPreviewer.StoreFrame | timeline.py:1058-1062 | the frame goes into the cache under the time (upsert, other keys unchanged) and into that time's thumbnail if one is laid out |
| Previewer.VideoPreviewer.StoreUnkeyedFrame | timeline.py:1058 | `thumb_cache[None] = pixbuf` appends the frame under the rowid SQLite assigns and changes no other row |
| Previewer.VideoPreviewer.FinishThumbnail | timeline.py:1047-1067 | the frame is stored under the waiting timestamp, not the reported one, or appended under a fresh rowid when nothing was waiting; `thumbs` changes only if that key is laid out; the waiting entry leaves the queue and the next head starts; the seeks issued are those of advancing the rest of the queue; the invariant holds |
| Previewer.VideoPreviewer.ElementChanged | timeline.py:1107-1109 | the intended effect: the element's new duration and in-point are both taken over |
| Previewer.VideoPreviewer.ElementChangedAsWritten | timeline.py:1107-1110 | the effect as written: the new duration is stored and the in-point keeps its old value, since the call at :1109 raises before `in_point` is assigned |
| Layers.MovedPriorities | timeline.py:587-603 | one priority per layer after the move; `MoveShiftsBand`, `MovePreservesPermutation` and `MoveKeepsRelativeOrder` give the new priorities |
| Layers.MoveShiftsBand | timeline.py:587-603 | the moved layer lands on `target`; layers in `[target, p)` go up one when `p > target`, layers in `(p, target]` go down one when `p < target`; all others keep their priority |
| Layers.MovePreservesPermutation | timeline.py:514-517 | a move that passes the drag-end guard keeps priorities a permutation of `0..n-1` |
| Layers.MoveKeepsRelativeOrder | timeline.py:587-603 | layers other than the moved one keep their relative order |
| Layers.LayerPanel.HighlightSeparator | timeline.py:624-629 | exactly the controls whose layer has the given priority are highlighted |
| Layers.LayerPanel.SelectLayerControl | timeline.py:631-634 | exactly the given control is selected afterwards |
| Layers.LayerPanel.MoveLayer | timeline.py:587-607 | the loops over the layers, with the moved layer parked at 999, produce the priorities of `MovedPriorities`; the separator highlight is then reset with priority 1000 |
| Layers.LayerPanel.DragBegin | timeline.py:501-503 | the number of layers is recorded when a drag begins |
| Layers.LayerPanel.DragEnd | timeline.py:514-517 | a layer moves only to a different priority within `[0, nbrLayers)`, and then the priorities are those of `MovedPriorities` and the separator highlight is reset with priority 1000; otherwise nothing changes; with `nbrLayers` at most the number of layers, priorities that were a permutation of `0..n-1` stay one |
| Elements.FindBrother | timeline.py:282-287 | returns the first element with the same parent and a different track element, or none exactly when there is no such element |

## Left out

- The GTK/Clutter widgets are not modelled: actor construction, positions (`set_position`, `Zoomable.nsToPixel`), `remove_all_children`, colours, easing and `_reorderLayerActors`. Thumbnail actors are values in the `thumbs` map, so aliasing between actors is not captured.
- `Zoomable` lives in `utils`, which is not part of this model. `AddThumbnails` takes `pixelToNs(thumb_width + thumb_margin)` as a parameter. `_getLayerForY` is UI coordinate math, so `DragEnd` takes the priority under the mouse cursor.
- The GStreamer pipeline is not modelled. Its construction and preroll become the `negotiatedWidth` parameter, and the framerate is dropped. `pipeline.seek` is the oracle `seek: int -> bool`, one per method call. One call never seeks the same time twice, so within a call this covers any sequence of answers; lemmas that span several calls take one oracle per call.
- Previewer.VideoPreviewer.NextThumbnail: `_nextThumbnail` recurses once per rejected head (`timeline.py:1035-1037`). CPython 2 stops at about 1000 nested calls, so a run of about 1000 rejected seeks raises `RuntimeError`, most likely inside the seek call. The rest of the queue stays in place, and `waiting_timestamp` names a time whose seek was never sent, so no completion arrives and the strip stalls. The model has no recursion limit and always drains the rejected heads.
- Previewer.VideoPreviewer.ElementChanged: takes the intended update of both fields, while the code stops at `timeline.py:1109` after setting `duration` only; `ElementChangedAsWritten` models that effect.
- The bus handler, `GLib.idle_add` marshalling, the `zoomChanged` debounce timer and the idle re-layout that `element_changed` schedules are event-loop scheduling. A completed frame is a direct call to `FinishThumbnail`.
- The sqlite engine is a row sequence. Commit and durability, transactions, storage errors, directory creation (`get_dir`, `os.makedirs`) and xdg paths are not modelled. The thumbnail directory is a map from content address to table that the constructor reads once: each `ThumbnailCache` keeps its own copy of the rows and `Set` does not write them back, so a frame stored by one previewer is not seen by another previewer of the same file, whereas in the source both connect to the same database file (`timeline.py:1160-1164`).
- The pixbuf's colourspace, alpha flag and bit depth are constants of the source. They are not part of `Pixbuf`.
- SHA-256 internals and the hex encoding are not modelled. Only the accumulated input is. An `IOError` from `open` is I/O.
- ThumbCache.AutoTime: when the largest `Time` is already the largest 64-bit integer, SQLite picks an unused rowid at random; the model, with unbounded integers, always takes one past the largest.
- Scroll, zoom-ratio and adjustment computations are floating point, and `viewer.py` is drawing code. Neither is modelled.
- LRU eviction and an in-memory tier are named in the `ThumbnailCache` docstring, but no code implements them.
