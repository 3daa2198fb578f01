# rsmixer: page projection and the MoveEntry handler, in Dafny

This project models two pieces of the control core of rsmixer, a terminal audio
mixer, and proves properties of them:

- **The page projection** `PageType::generate_page` and the conversions of
  `PageType` to and from `i8` and to its name (module `Page`,
  `page_type.dfy`). A page is the ordered list of (identifier, entry) pairs one
  screen shows. The Cards page lists the Card entries. The Output and Input
  pages list each device (parent) followed by its visible streams (children).
  While an entry is being moved, the page is a preview: the entries of the
  target's type, with the dragged entry spliced in right after the target.
- **The MoveEntry-mode action handler** `action_handler` (module
  `MoveEntryHandler`, `move_entry.dfy`; destination arithmetic in module
  `MoveTarget`, `move_target.dfy`). The session state `RSState` is a class whose
  fields the handler updates in place. The handler covers four cases. It
  debounces peak-meter updates. It moves the preview target with MoveUp and
  MoveDown. It commits the move on OpenContextMenu. It ignores every other
  letter.

Shared vocabulary is in `entry_model.dfy` (module `EntryModel`: identifiers,
entries, the ordered entry collection and its filter by type) and
`models.dfy` (module `Models`: UI mode, redraw directive, letters).

Modelling choices:

- `Entries` is an ordered `seq<(EntryIdentifier, Entry)>` with pairwise
  distinct identifiers (`WellFormed`). `iter_type(t)` is `IterType`, an
  order-preserving filter by identifier type. `get` is `Get`, which looks up
  the first position of the identifier.
- `parent_child_types` is a function parameter `pct` of `GeneratePage`. Its
  definition, in the UI utilities, is not part of this model. Lemmas about
  Output/Input pages assume only that the parent type and the child type
  differ.
- `PageEntries` is a `seq<EntryIdentifier>`. `get(i)` is a zero-based
  positional lookup that fails past the end.
- Letters sent with `DISPATCH.event(..).await` are appended to the field
  `events`.
- A Rust panic is the outcome `Panicked(site)`. The state is unchanged when
  that happens. `site` names the operation that fails:
  - `CursorUnderflow`: `selected - 1` on an unsigned zero (the debug-build
    overflow check);
  - `CursorOutOfPage`: the unwrap of `get(selected)`;
  - `TargetOutOfPage`: the unwrap of `get(j)`.
- The unwrap of `play_entry` (line 10) is a precondition: an entry that gets a
  peak update has a play record.
- Peaks are `real`. `EPSILON` is `f32::EPSILON`, written out exactly as 2^-23.

Two behaviours of the code that are easy to misread:

- In MoveEntry mode the preview lists the entries of the *target's* type.
  This is because the target identifier shadows the page's parent type at
  line 81, and lines 85-94 use `parent.entry_type`.
- MoveUp and MoveDown skip slot `selected - 1`, the current target's slot.
  They do not skip slot `selected`, where the dragged entry sits (it is read
  from there at lines 41 and 67). See Findings.

## Model

| member | source | states |
|---|---|---|
| `Page.FromI8` | src/models/page_type.rs:32-41 | total on `i8`: -1 gives Cards, and every value outside -1..2 gives Output |
| `Page.I8RoundTrip` | src/models/page_type.rs:23-42 | converting a page to `i8` and back gives the same page |
| `Page.I8CodesRoundTrip` | src/models/page_type.rs:23-42 | the codes 0, 1, 2 convert to a page and back to themselves |
| `Page.ToI8` | src/models/page_type.rs:23-31 | every page converts to one of the codes 0, 1, 2 (Output, Input, Cards; `I8RoundTrip` shows that distinct pages get distinct codes) |
| `Page.AsStr` | src/models/page_type.rs:44-50 | every page's name is one of "Output", "Input", "Cards"; `AsStrNamesVariant` fixes which |
| `Page.AsStrNamesVariant` | src/models/page_type.rs:44-50 | `as_str` (and `Display`, lines 18-22) gives "Output", "Input", "Cards"; two pages have the same name exactly when they are the same page |
| `Page.GeneratePage` | src/models/page_type.rs:69-112 | every item on any page is an item of the entry collection; the MoveEntry lookups of lines 83 and 85 are required to succeed |
| `Page.CardsPageIgnoresMode` | src/models/page_type.rs:75-77 | the Cards page is exactly the Card entries in collection order, in every UI mode |
| `Page.GroupedPageParents` | src/models/page_type.rs:100-111 | outside MoveEntry, filtering an Output/Input page by the parent type gives back all parent entries, each once, in collection order |
| `Page.GroupedPageLayout` | src/models/page_type.rs:100-111 | outside MoveEntry, the page is tiled by one group per parent: the parent, then exactly the child-type entries with `parent == Some(index)` that are not hidden, in collection order |
| `Page.GroupedPageMembers` | src/models/page_type.rs:100-111 | an item is on the page exactly when it is a parent-type entry, or a child-type entry that is not hidden and whose parent index is some parent's index; hidden or orphaned children never appear |
| `Page.GroupedPageLength` | src/models/page_type.rs:100-111 | page length = number of parents + number of their visible children |
| `Page.GroupedPageWellFormed` | src/models/page_type.rs:100-111 | no identifier appears twice on an Output/Input page |
| `Page.MovePreviewSplice` | src/models/page_type.rs:81-97 | in MoveEntry(d, p) the page has one more item than p's type; p sits at its position `pos`, the dragged entry `(d, entry)` sits at `pos + 1`, and removing it gives back the entries of p's type in order |
| `Page.MovePreviewMembers` | src/models/page_type.rs:81-97 | in MoveEntry(d, p) the page holds the entries of p's type and the dragged entry, and nothing else |
| `MoveTarget.MoveDownTarget` | src/event_loop/action_handlers/move_entry.rs:58-65 | MoveDown never picks slot `selected - 1` and always picks a slot on the page |
| `MoveTarget.MoveDownPeriodic` | src/event_loop/action_handlers/move_entry.rs:58-65 | MoveDown by `n` and by `n + l` pick the same slot |
| `MoveTarget.MoveDownReachesEveryOther` | src/event_loop/action_handlers/move_entry.rs:58-65 | every slot of the page other than `selected - 1` is picked by some step count below `l` |
| `MoveTarget.MoveDownInjective` | src/event_loop/action_handlers/move_entry.rs:58-65 | distinct step counts below `l` pick distinct slots, so MoveDown walks each other slot once per cycle |
| `MoveTarget.MoveDownWrapsAtEnd` | src/event_loop/action_handlers/move_entry.rs:58-65 | on pages of three or more entries with `selected` on the last slot `l`, MoveDown by 1 wraps round to slot 0 |
| `MoveTarget.MoveDownPicksDraggedIff` | src/event_loop/action_handlers/move_entry.rs:58-65 | MoveDown as written picks slot `selected`, the dragged entry's own slot, exactly when the step count is a multiple of `l` (zero included) |
| `MoveTarget.MoveUpTarget` | src/event_loop/action_handlers/move_entry.rs:27-39 | MoveUp as written never picks slot `selected - 1` and never picks a negative slot |
| `MoveTarget.MoveUpInRangeIff` | src/event_loop/action_handlers/move_entry.rs:27-42 | MoveUp as written stays on the page exactly when it does not wrap by an exact multiple of `l`; when it does, it picks slot `len` |
| `MoveTarget.MoveUpOverrunsOnTwoEntries` | src/event_loop/action_handlers/move_entry.rs:30-39 | on a two-entry page with `selected = 1`, MoveUp by 1 picks slot 2 |
| `MoveTarget.MoveUpWrapsAtStart` | src/event_loop/action_handlers/move_entry.rs:30-39 | on pages of three or more entries with `selected = 1`, MoveUp by 1 wraps round to the last slot `l`; with `l = 1` the same wrap is the overrun above |
| `MoveTarget.MoveUpIntended` | src/event_loop/action_handlers/move_entry.rs:27-39 | the circularly wrapped MoveUp never picks slot `selected - 1` and always stays on the page |
| `MoveTarget.MoveUpAgreesWithIntended` | src/event_loop/action_handlers/move_entry.rs:27-39 | wherever MoveUp as written stays on the page, it picks what the corrected MoveUp picks |
| `MoveTarget.MoveUpIntendedIsMoveDown` | src/event_loop/action_handlers/move_entry.rs:27-65 | the corrected MoveUp by `n` picks the same slot as MoveDown by `l - n % l` |
| `MoveTarget.MoveUpIntendedReachesEveryOther` | src/event_loop/action_handlers/move_entry.rs:27-39 | the corrected MoveUp reaches every other slot with some step count below `l` |
| `MoveTarget.MoveUpIntendedInjective` | src/event_loop/action_handlers/move_entry.rs:27-39 | distinct step counts below `l` make the corrected MoveUp pick distinct slots |
| `MoveTarget.MoveUpIntendedPicksDraggedIff` | src/event_loop/action_handlers/move_entry.rs:27-39 | the circularly wrapped MoveUp still picks the dragged entry's slot exactly when the step count is a multiple of `l` |
| `MoveTarget.MoveDownSkippingDragged` | src/event_loop/action_handlers/move_entry.rs:58-65 | the corrected MoveDown (skip over the dragged entry's slot) never picks slot `selected` and always stays on the page |
| `MoveTarget.MoveDownSkippingAgrees` | src/event_loop/action_handlers/move_entry.rs:58-65 | the corrected MoveDown equals the written one except on multiples of `l`, where it keeps the current target's slot `selected - 1` |
| `MoveTarget.MoveDownSkippingReachesEveryOther` | src/event_loop/action_handlers/move_entry.rs:58-65 | the corrected MoveDown reaches every slot except the dragged entry's with some step count below `l` |
| `MoveTarget.MoveDownSkippingInjective` | src/event_loop/action_handlers/move_entry.rs:58-65 | distinct step counts below `l` make the corrected MoveDown pick distinct slots, so one cycle visits every other entry once |
| `MoveTarget.MoveUpSkippingDragged` | src/event_loop/action_handlers/move_entry.rs:27-39 | MoveUp with both corrections (circular wrap, skip over the dragged entry's slot) never picks slot `selected` and always stays on the page |
| `MoveTarget.MoveUpSkippingAgrees` | src/event_loop/action_handlers/move_entry.rs:27-39 | MoveUp with both corrections equals the circularly wrapped one except on multiples of `l`, where it keeps slot `selected - 1` |
| `MoveTarget.MoveUpSkippingReachesEveryOther` | src/event_loop/action_handlers/move_entry.rs:27-39 | MoveUp with both corrections reaches every slot except the dragged entry's with some step count below `l` |
| `MoveEntryHandler.Destination` | src/event_loop/action_handlers/move_entry.rs:21-77 | the slot a move picks, or the panic it meets: `selected == 0` underflows; `selected >= len` fails the first unwrap; a picked slot is on the page and is not `selected - 1`; MoveDown never fails the second unwrap; MoveUp fails it exactly on an exact-multiple wrap, and otherwise picks the circularly wrapped MoveUp's slot; a picked slot is `selected`, the dragged entry's own, exactly when `n` is a multiple of `len - 1` |
| `MoveEntryHandler.WholeCycleMoveTargetsDragged` | src/event_loop/action_handlers/move_entry.rs:21-77 | on any page of two or more entries, a MoveUp or MoveDown by a multiple of `len - 1` (zero included) that does not panic sets the mode to `MoveEntry(page[selected], page[selected])`: the dragged entry becomes its own target |
| `MoveEntryHandler.SetPeak` | src/event_loop/action_handlers/move_entry.rs:14 | storing a peak changes only the play record of that one item: same length, same identifiers, everything else equal |
| `MoveEntryHandler.SetPeakKeepsLive` | src/event_loop/action_handlers/move_entry.rs:14 | storing a peak keeps the collection well formed, and keeps the page's and the mode's identifiers live |
| `MoveEntryHandler.PeakDebounce` | src/event_loop/action_handlers/move_entry.rs:9-15 | once a peak `p` is stored, a second update closer than `EPSILON` to `p` returns `None` and changes nothing |
| `MoveEntryHandler.LiveModeProjects` | src/models/page_type.rs:81-85 | if the dragged entry and the target of the mode exist, the unwraps of `generate_page` succeed |
| `MoveEntryHandler.RSState.ActionHandler` | src/event_loop/action_handlers/move_entry.rs:3-90 | dispatches on the letter; the page and the cursor never change; `entries` changes only on a peak update; a panic changes nothing; letters other than the four handled ones return `None` and change nothing; the session invariant is kept |
| `MoveEntryHandler.RSState.HandlePeak` | src/event_loop/action_handlers/move_entry.rs:5-20 | a Card identifier returns `None` and changes nothing; a stored entry whose peak is within `EPSILON` returns `None` and changes nothing; otherwise the peak is stored, if the entry exists, and the result is `PeakVolume(ident)` exactly when `ident` is on the page, else `None` |
| `MoveEntryHandler.RSState.HandleMoveUp` | src/event_loop/action_handlers/move_entry.rs:21-51 | outside MoveEntry, or on a page of fewer than 2 entries, it returns `None` and changes nothing; otherwise the mode becomes `MoveEntry(page[selected], page[j])` for the slot `j` of `Destination`, exactly one Redraw is sent and `None` is returned, or it panics with nothing changed |
| `MoveEntryHandler.RSState.HandleMoveDown` | src/event_loop/action_handlers/move_entry.rs:52-77 | as for MoveUp, with MoveDown's slot; it cannot panic on the target lookup |
| `MoveEntryHandler.RSState.HandleOpenContextMenu` | src/event_loop/action_handlers/move_entry.rs:78-87 | in MoveEntry(d, p) the mode becomes Normal, `MoveEntryToParent(d, p)` is sent once and `Full` is returned; in any other mode it returns `None` and changes nothing |

## Left out

- `as_styled_string` (src/models/page_type.rs:51-68): terminal styling through a UI helper that is not part of this model.
- The dispatch loop in src/event_loop/mod.rs: it is asynchronous terminal and channel plumbing. The other handlers it calls, and the merge operations `RedrawType::apply` and `take_bigger`, are not part of this model.
- src/pa/mod.rs: global channel and sample-spec singletons and the `PAInternal` enum. This is wiring to the audio library with no logic.
- The broadcast channel: the `DISPATCH.event` call is modelled by appending to `events`. Asynchrony and delivery are not modelled.
- Floating point: peaks are reals, so IEEE rounding and NaN behaviour of `abs` are not modelled.
- Integer widths: the `usize`/`i32` casts and the overflow of `selected + how_much` are not modelled. Step counts are non-negative numbers.
- The release-build wrap-around of `selected - 1` when `selected` is 0 is not modelled. The model follows the debug-build panic.
- `Entries::iter_type`, `Entries::get`, `PageEntries::get`/`len`/`iter_entries` and `parent_child_types` are not part of this model: their source is not among the files modelled here. They are modelled as described under Modelling choices.
- Entry fields other than parent, hidden status and peak are not modelled. `HiddenStatus` has only `Visible` and `Hidden`. Any other status would behave like `Visible` under the `!= Hidden` filter.
- Repeated MoveDown(1) visiting every other entry: the handler computes the slot from `selected`, not from the current target. Which slots a sequence of moves visits therefore depends on the scroll handler that moves `selected`, and that handler is not part of this model. The model proves the per-call version: over `l` consecutive step counts, each other slot is picked once.

## Findings

| source | as written | input that shows it | evidently intended | confidence | as-written member | corrected member |
|---|---|---|---|---|---|---|
| src/event_loop/action_handlers/move_entry.rs:32-42 | a negative MoveUp candidate is folded to `l - (\|j\| % l)`. That is `l` when `\|j\|` is a multiple of `l`, so the skip gives `j = len` and `page_entries.get(j).unwrap()` panics | page of 2 entries, `selected = 1`, MoveUp(1): `s = 0`, `l = 1`, `j = 2` | wrap circularly into `0..l-1` (`j = (s - n) mod l`, Euclidean), then skip | not executed; high | `MoveTarget.MoveUpTarget`, `MoveTarget.MoveUpInRangeIff`, `MoveTarget.MoveUpOverrunsOnTwoEntries` | `MoveTarget.MoveUpIntended`, `MoveTarget.MoveUpAgreesWithIntended`, `MoveTarget.MoveUpIntendedReachesEveryOther` |
| src/event_loop/action_handlers/move_entry.rs:37-42 | the skip shifts `j` when `j >= selected - 1`, the current target's slot. So the candidate `selected - 1` lands on slot `selected`, the dragged entry read at line 41, and the mode becomes `MoveEntry(d, d)`; slot `selected - 1` is never reached | page of 2 entries, `selected = 1`, MoveDown(1): `s = 0`, `l = 1`, `j = 1 % 1 = 0 >= 0`, so `j = 1 = selected`; likewise MoveDown(0) or MoveUp(0) on any page | shift when `j >= selected`, the dragged entry's own slot, so the destination is never the dragged entry | not executed; high | `MoveTarget.MoveDownPicksDraggedIff`, `MoveTarget.MoveUpIntendedPicksDraggedIff`, `MoveEntryHandler.WholeCycleMoveTargetsDragged` | `MoveTarget.MoveDownSkippingDragged`, `MoveTarget.MoveDownSkippingReachesEveryOther`, `MoveTarget.MoveUpSkippingDragged`, `MoveTarget.MoveUpSkippingReachesEveryOther` |

The handler keeps the code as written in both places.
`MoveEntryHandler.Destination` states what that means for each finding. The
first overrun shows up as the outcome `Panicked(TargetOutOfPage)`, exactly on
an exact-multiple wrap, and every MoveUp slot the handler does accept is the
circularly wrapped MoveUp's slot. For the second, a picked slot is the dragged
entry's own slot exactly when the step count is a multiple of `len - 1`.
