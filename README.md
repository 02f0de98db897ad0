# relmy-vibes: station list, controller and prefetch sizing in Dafny

This project models the two pieces of the relmy-vibes internet-radio player that
hold logic of their own, and proves properties of them.

- **The station list and the controller** (`src/main.rs`). A `StationList` is an
  ordered list of items. Each item holds a station (`name`, `url`), the numeric
  id it was given when appended (the list length at that moment), and an
  `active` flag with the label markup that goes with it. Every append and
  removal writes the whole list to the station file. The controller (`Radio`)
  keeps the list, the playing id, the hovered id, the context-menu id, the
  window title and the pending new station, and it handles the messages `Play`,
  `Stop`, `AddStation`, `ShowMenu`, `DeleteStation`, `SetHoverId`,
  `StationNameChanged` and `StationUrlChanged`. These are modelled imperatively:
  `Catalog.StationListItem` and `Catalog.StationList` are classes, and
  `RadioApp.Radio` is a class with one method per message plus `Update`, the
  dispatcher. The removal loop of `remove_by_id` is kept as written. Its bound
  is fixed before the loop starts, and a removal shifts the later items down
  while the index still advances.
  So the item right after the first removed one is never examined and always
  survives, even when it has the same id (`FirstMatchSuccessorSurvives`). Because a new id is the
  current length, ids can repeat after a removal (`AppendAfterRemoveReusesId`).
- **Prefetch sizing** (`src/streamer.rs`, lines 24-37). The `Icy-Br` header is
  parsed the way Rust's `str::parse::<u64>` does it. The parser accepts one
  optional leading `+` and reports `Empty`, `InvalidDigit` or `PosOverflow`.
  The bitrate, in kbit/s, becomes `bitrate / 8 * 1024 * 2` bytes of prefetch,
  with the division truncating first. The bounded buffer has the fixed
  capacity 512 KiB. These are pure functions in module `Streamer`.

The bitrate is read in kbit/s, as the comment at `src/streamer.rs:27` says.
A missing or unparsable `Icy-Br` header aborts `play` through `unwrap`
(`src/streamer.rs:24`) before any storage is built. `Configure` models that
abort as an `Err`.

Files: `wrappers.dfy` (Option, Result), `streamer.dfy` (module `Streamer`),
`stations.dfy` (module `Catalog`: items, the list, and the specification
functions `Find` and `Removed` with their lemmas), `radio.dfy` (module
`RadioApp`: the controller).

## Model

| member | source | states |
|---|---|---|
| `Catalog.StationListItem.constructor` | src/main.rs:109-117 | a new item keeps the station and id it was given, starts inactive and shows the plain name |
| `Catalog.StationListItem.Active` | src/main.rs:118-122 | sets the flag and makes the label the name wrapped in `<b>`…`</b>`; keeps the label invariant |
| `Catalog.StationListItem.Inactive` | src/main.rs:123-126 | clears the flag and makes the label the plain name; keeps the label invariant |
| `Catalog.FirstFrom` | src/main.rs:215-221 | the result is the lowest index at or after `from` whose item has the id; None exactly when no such index exists |
| `Catalog.Find` | src/main.rs:213-224 | None when asked for None; for `Some(i)` the lowest index with id `i`, or None when no item has `i` |
| `Catalog.StationList.GetById` | src/main.rs:213-224 | the linear scan returns the item at `Find`'s index (None for a None id) and changes nothing |
| `Catalog.StationList.Append` | src/main.rs:203-211 | the new item goes at the end with id equal to the old length, inactive; older items are kept; the file then holds the list's stations in order |
| `Catalog.StationList.RemoveById` | src/main.rs:226-235 | the shifting index loop leaves exactly `Removed(old items, id)`; item objects stay distinct; the file then holds the list's stations in order |
| `Catalog.StationList.Save` | src/main.rs:237-245 | the sequence written is the stations of the items in index order |
| `Catalog.StationList.Load` | src/main.rs:247-253 | the stored stations are appended in file order with consecutive ids after the old ones, each new and inactive; the file is rewritten iff something was loaded |
| `Catalog.Label` | src/main.rs:118-126 | the label is the plain name when inactive, and `<b>`, then the name, then `</b>` when active |
| `Catalog.StationList.constructor` | src/main.rs:196-201 | a new list is empty and has written nothing to the file |
| `Catalog.RemoveScan` | src/main.rs:227-233 | the loop from index `x` to the fixed bound `n`, never lengthening the list; characterised by `ScanSkipsNonMatching`, `ScanKeepsPrefix` and `ScanKeepsOthers` |
| `Catalog.Removed` | src/main.rs:226-233 | what `remove_by_id` leaves, never longer than the list; characterised by `RemoveAbsent`, `RemoveUnique`, `RemoveShrinks` and `FirstMatchSuccessorSurvives` |
| `Catalog.ScanSkipsNonMatching` | src/main.rs:227-233 | scanning indices that hold no item with the id changes nothing |
| `Catalog.RemoveAbsent` | src/main.rs:226-233 | when no item has the id, the list is unchanged |
| `Catalog.RemoveUnique` | src/main.rs:226-233 | with unique ids, exactly the item with the id is removed and the others keep their order |
| `Catalog.RemoveSkipsAdjacentDuplicate` | src/main.rs:227-233 | when two adjacent items are the only two with the id, the first is removed and the second survives in its place |
| `Catalog.ScanKeepsPrefix` | src/main.rs:227-233 | the loop never changes the indices it has already passed |
| `Catalog.FirstMatchSuccessorSurvives` | src/main.rs:227-233 | whatever the other ids, the item right after the first one with the id survives and takes that item's place |
| `Catalog.RemoveAtShifts` | src/main.rs:231 | `remove(x)` keeps the items before `x`, shifts the later ones down by one, and drops only the item at `x` |
| `Catalog.ScanKeepsOthers` | src/main.rs:227-233 | for any ids, every survivor was in the list and every item with another id survives |
| `Catalog.RemoveShrinks` | src/main.rs:226-233 | the list never grows, and it shrinks iff some item has the id |
| `Catalog.AppendedIdsAreIndices` | src/main.rs:247-253 | a list whose ids are `0..n-1` (built only by appends) has unique ids and finds each id at its own index |
| `Catalog.AppendAfterRemoveReusesId` | src/main.rs:203-209 | after removing any station but the last from such a list, the next append's id equals the last station's id |
| `RadioApp.Radio.constructor` | src/main.rs:441-458 | startup loads the stored stations in order with ids `0..n-1`, all inactive; nothing plays or is hovered, menu id 0, title `RelmyVibes`, empty pending station |
| `RadioApp.Radio.InactivateFound` | src/main.rs:477-479 | only the first item with the given id (none for a None id) goes inactive; every other flag is kept |
| `RadioApp.Radio.ActivateFound` | src/main.rs:480-482 | only the first item with the given id (none for a None id) goes active; every other flag is kept |
| `RadioApp.Radio.Play` | src/main.rs:476-487 | the item found by the old playing id goes inactive, then the item found by the hovered id goes active (so it ends active when both ids agree); playing id becomes `id`, title the station's name; the player gets the URL, then play |
| `RadioApp.Radio.Stop` | src/main.rs:488-495 | the item found by the playing id goes inactive, others keep their flags; nothing plays; title reset; the player is stopped |
| `RadioApp.Radio.StationNameChanged` | src/main.rs:497 | only the pending name changes |
| `RadioApp.Radio.StationUrlChanged` | src/main.rs:498 | only the pending URL changes |
| `RadioApp.Radio.AddStation` | src/main.rs:499-507 | appends the pending station iff name and URL are both non-empty, with id the old length; otherwise the list is untouched; the pending fields are not cleared |
| `RadioApp.Radio.ShowMenu` | src/main.rs:508-515 | the menu id becomes the hovered id when there is one and is kept otherwise |
| `RadioApp.Radio.DeleteStation` | src/main.rs:516-520 | removes by the current menu id, as `Removed` describes |
| `RadioApp.Radio.SetHoverId` | src/main.rs:521-523 | only the hovered id changes |
| `RadioApp.Radio.Update` | src/main.rs:475-533 | each message has its handler's effect: the `Play`/`Stop` flag changes, what `AddStation` appends (only when name and URL are non-empty), `DeleteStation`'s `Removed` by the menu id, the playing id, title, player calls, pending fields, hovered id and menu id; the list and file are untouched by every other message, and only `Play`/`Stop` change flags |
| `Streamer.Accumulate` | src/streamer.rs:24 | the checked digit loop: a success lies between the starting value and 2^64 and it never reports `Empty`; characterised by `AccumulateIsCheckedValue` |
| `Streamer.ParseU64` | src/streamer.rs:24 | `str::parse::<u64>`: `Empty` iff the input is empty, and every success is below 2^64; characterised by `ParseU64Accepts` and `ParseToDecimal` |
| `Streamer.AccumulateIsCheckedValue` | src/streamer.rs:24 | the checked digit loop succeeds iff every character is a digit and the value stays below 2^64, and then yields the decimal value |
| `Streamer.ParseU64Accepts` | src/streamer.rs:24 | the `u64` parse accepts exactly an optional `+` and one or more digits whose value is below 2^64, and returns that value |
| `Streamer.ParseToDecimal` | src/streamer.rs:24 | round trip: the decimal spelling of any `u64` parses back to it |
| `Streamer.PrefetchBytes` | src/streamer.rs:26-28 | the prefetch fits in `u64`, is a multiple of 2048, is 0 iff the bitrate is below 8, and is within 2048 bytes below two seconds at `bitrate` kbit/s |
| `Streamer.PrefetchMonotone` | src/streamer.rs:27-28 | a larger bitrate never gives a smaller prefetch |
| `Streamer.PrefetchSamples` | src/streamer.rs:27-28 | 64 → 16384, 128 → 32768, 320 → 81920 bytes |
| `Streamer.BufferCapacityNonZero` | src/streamer.rs:33-37 | the capacity is 524288 bytes and non-zero |
| `Streamer.Configure` | src/streamer.rs:24-39 | a missing header is `MissingBitrate`, an unparsable one `BadBitrate` with the parse error; success iff the header parses, with the fixed capacity and the prefetch of the parsed bitrate |
| `Streamer.ConfigureFromHeader` | src/streamer.rs:24-39 | a header carrying the decimal spelling of `n` configures a prefetch of `PrefetchBytes(n)` and the fixed capacity |

## Left out

- GTK/relm4 widget code: the `view!` trees, `setup`/`bind`, the motion and click controllers and popover positioning (src/main.rs:44-92, 129-186, 297-433). It is UI wiring. Only the messages it sends are modelled.
- `ShowMenu(x, y)`: the coordinates only place the popover, so the modelled message has none. Pop-up and pop-down of the context menu are not modelled.
- The media player: `set_uri`, `play` and `stop` are recorded in order in the ghost log `Radio.player` and have no effect beyond that. `streamer::load()`, which creates the player at startup, is not part of this model.
- `VolumeChanged(f64)` and the shared volume: floating-point values set on the player.
- `SearchQuery` and `src/search.rs`: an asynchronous HTTP search. `SearchItem` is left out too.
- The station file: `StationList.saved` stands for the file's contents (`None` until written in this session). `Load` takes the stored stations as a parameter. JSON encoding, the data directory and I/O failures (the `unwrap` after `save_stations`) are left out.
- Ids are `nat`. The `u32` length and the `usize` id widths are not modelled, since a list never nears 2^32 items.
- Header lookup: the `Icy-Br` value arrives as an `Option<string>`. Case-insensitive header names and values that are not visible ASCII are not modelled.
- `Streamer.PrefetchBytes`: requires `bitrate / 8 < 2^53`, so that `bitrate / 8 * 1024 * 2` stays inside `u64`. Rust's overflow behaviour for larger bitrates is not modelled. `Streamer.Configure` carries the same bound on a header that parses.
- The rest of `src/streamer.rs`: the HTTP connection, the bounded stream download, the rodio sink and decoder, the spawned task and its 100 ms cancellation and volume polling (lines 20-22 and 30-62). These are network I/O, audio and concurrency.
