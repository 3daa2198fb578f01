/**
  The action handler that runs while the UI is in MoveEntry mode
  (src/event_loop/action_handlers/move_entry.rs).

  The session state is a class whose fields the handler updates in place.
  Letters the handler dispatches are appended to `events` instead of being
  sent on the broadcast stream. A Rust panic ends the handler without any
  change of state; it is modelled as the outcome `Panicked`, which names the
  failing operation.
 */
module MoveEntryHandler {
  import opened EntryModel
  import opened Models
  import opened MoveTarget
  import Page

  /** `f32::EPSILON`, 2^-23, written out exactly. */
  const EPSILON: real := 0.00000011920928955078125

  function Abs(x: real): real {
    if x < 0.0 then -x else x
  }

  /** A new peak closer than `EPSILON` to the recorded one is rejected (line 11). */
  predicate PeakRejected(current: real, peak: real) {
    Abs(current - peak) < EPSILON
  }

  /** Store `peak` as the peak of the item at position `i` (line 14). */
  function SetPeak(entries: Entries, i: nat, peak: real): (r: Entries)
    requires i < |entries| && entries[i].1.playEntry.Some?
    ensures |r| == |entries|
    ensures forall k :: 0 <= k < |r| ==> r[k].0 == entries[k].0
    ensures forall k :: 0 <= k < |r| && k != i ==> r[k] == entries[k]
    ensures r[i].1.playEntry == Some(entries[i].1.playEntry.value.(peak := peak))
    ensures r[i].1.parent == entries[i].1.parent && r[i].1.hidden == entries[i].1.hidden
  {
    var (id, e) := entries[i];
    entries[i := (id, e.(playEntry := Some(e.playEntry.value.(peak := peak))))]
  }

  /** Why a move letter makes the handler panic. */
  datatype PanicSite =
    | CursorUnderflow     // `state.selected - 1` on an unsigned zero (lines 28, 59)
    | CursorOutOfPage     // `page_entries.get(state.selected).unwrap()` (lines 41, 67)
    | TargetOutOfPage     // `page_entries.get(j).unwrap()` (lines 42, 68)

  /** What the handler does: return a redraw directive, or panic. */
  datatype Outcome = Returned(redraw: RedrawType) | Panicked(site: PanicSite)

  /** The slot a move letter picks on a page of `len >= 2` entries, or where it panics. */
  datatype Pick = Target(j: nat) | Fault(site: PanicSite)

  /**
    The destination of MoveUp (`up`) or MoveDown by `n` with cursor `selected`
    on a page of `len` entries, with the panics in the order the source meets them.
   */
  function Destination(up: bool, selected: nat, n: nat, len: nat): (r: Pick)
    requires len >= 2
    ensures r.Target? ==> 1 <= selected < len && r.j < len && r.j != selected - 1
    ensures r == Fault(CursorUnderflow) <==> selected == 0
    ensures r == Fault(CursorOutOfPage) <==> selected >= len
    ensures !up ==> r != Fault(TargetOutOfPage)
    ensures up ==> (r == Fault(TargetOutOfPage) <==>
                    1 <= selected < len && n > selected - 1 && (n - (selected - 1)) % (len - 1) == 0)
    ensures up && r.Target? ==> r.j == MoveUpIntended(selected - 1, n, len - 1)
    ensures r.Target? ==> (r.j == selected <==> n % (len - 1) == 0)
  {
    if selected == 0 then Fault(CursorUnderflow)
    else
      var s, l := selected - 1, len - 1;
      var j := if up then MoveUpTarget(s, n, l) else MoveDownTarget(s, n, l);
      if selected >= len then Fault(CursorOutOfPage)
      else
        MoveUpInRangeIff(s, n, l);
        if j >= len then Fault(TargetOutOfPage)
        else if up then
          MoveUpAgreesWithIntended(s, n, l);
          MoveUpIntendedPicksDraggedIff(s, n, l);
          Target(j)
        else
          MoveDownPicksDraggedIff(s, n, l);
          Target(j)
  }

  /**
    The slot skipped is `selected - 1`, not the slot `selected` of the dragged
    entry: a move by a whole number of cycles (zero steps included) that does
    not panic makes the dragged entry its own target.
   */
  lemma WholeCycleMoveTargetsDragged(up: bool, q: nat, mode: UIMode, events: seq<Letter>, page: seq<EntryIdentifier>,
                                     selected: nat, mode': UIMode, events': seq<Letter>, out: Outcome)
    requires mode.MoveEntry? && |page| >= 2 && 1 <= selected < |page|
    requires MoveOutcome(up, q * (|page| - 1), mode, events, page, selected, mode', events', out)
    requires out.Returned?
    ensures mode' == MoveEntry(page[selected], page[selected])
  {
    ModShift(0, q, |page| - 1);
  }

  /** Every identifier on the page is an entry of the collection. */
  predicate PageLive(entries: Entries, page: seq<EntryIdentifier>) {
    forall i :: 0 <= i < |page| ==> Get(entries, page[i]).Some?
  }

  /** The dragged entry and the target of a MoveEntry mode are entries of the collection. */
  predicate ModeLive(entries: Entries, mode: UIMode) {
    mode.MoveEntry? ==> Get(entries, mode.dragged).Some? && Get(entries, mode.target).Some?
  }

  /** A mode whose entries are live can be projected: the unwraps of `generate_page` succeed. */
  lemma LiveModeProjects(entries: Entries, mode: UIMode, page: Page.PageType)
    requires ModeLive(entries, mode)
    ensures page != Page.Cards && mode.MoveEntry? ==>
      Get(entries, mode.dragged).Some? &&
      Position(IterType(entries, mode.target.entryType), mode.target).Some?
  {
    if mode.MoveEntry? {
      PositionInOwnType(entries, mode.target);
    }
  }

  /** A peak update keeps every identifier live. */
  lemma SetPeakKeepsLive(entries: Entries, i: nat, peak: real, page: seq<EntryIdentifier>, mode: UIMode)
    requires i < |entries| && entries[i].1.playEntry.Some?
    ensures WellFormed(entries) ==> WellFormed(SetPeak(entries, i, peak))
    ensures PageLive(entries, page) ==> PageLive(SetPeak(entries, i, peak), page)
    ensures ModeLive(entries, mode) ==> ModeLive(SetPeak(entries, i, peak), mode)
  {
    var r := SetPeak(entries, i, peak);
    forall id | Get(entries, id).Some? ensures Get(r, id).Some? {
      var k :| 0 <= k < |entries| && entries[k].0 == id;
      assert r[k].0 == id;
    }
  }

  /** Entries that receive peak updates carry a play record (the unwrap of line 10). */
  predicate PeakTargetPlayable(entries: Entries, ident: EntryIdentifier) {
    ident.entryType != Card && Position(entries, ident).Some? ==>
      entries[Position(entries, ident).value].1.playEntry.Some?
  }

  /**
    The PeakVolumeUpdate arm, from the collection before (`entries`) to the one
    after (`entries'`): nothing for a Card; nothing when the new peak is within
    `EPSILON` of the stored one; otherwise the peak is stored (if the entry
    exists) and the answer is a targeted redraw exactly when the entry is on the page.
   */
  ghost predicate PeakOutcome(entries: Entries, page: seq<EntryIdentifier>, ident: EntryIdentifier, peak: real,
                              entries': Entries, out: Outcome)
    requires PeakTargetPlayable(entries, ident)
  {
    if ident.entryType == Card then
      out == Returned(RedrawType.None) && entries' == entries
    else
      var found := Position(entries, ident);
      if found.Some? && PeakRejected(entries[found.value].1.playEntry.value.peak, peak) then
        out == Returned(RedrawType.None) && entries' == entries
      else
        entries' == (if found.Some? then SetPeak(entries, found.value, peak) else entries) &&
        out == Returned(if ident in page then PeakVolume(ident) else RedrawType.None)
  }

  /**
    The MoveUp/MoveDown arms: outside MoveEntry or on a page of fewer than two
    entries nothing happens; otherwise the mode's target becomes the entry at
    the picked slot and one Redraw letter is sent, or the handler panics with
    nothing changed. The answer is never a redraw directive.
   */
  ghost predicate MoveOutcome(up: bool, n: nat, mode: UIMode, events: seq<Letter>, page: seq<EntryIdentifier>,
                              selected: nat, mode': UIMode, events': seq<Letter>, out: Outcome)
  {
    if !mode.MoveEntry? || |page| < 2 then
      out == Returned(RedrawType.None) && mode' == mode && events' == events
    else
      match Destination(up, selected, n, |page|)
      case Target(j) =>
        mode' == MoveEntry(page[selected], page[j]) && events' == events + [Redraw] &&
        out == Returned(RedrawType.None)
      case Fault(site) =>
        out == Panicked(site) && mode' == mode && events' == events
  }

  /**
    The OpenContextMenu arm: in MoveEntry(d, p) the move is committed by sending
    MoveEntryToParent(d, p) once, the mode returns to Normal and the whole
    screen is redrawn; in any other mode nothing happens here.
   */
  ghost predicate CommitOutcome(mode: UIMode, events: seq<Letter>, mode': UIMode, events': seq<Letter>, out: Outcome) {
    if mode.MoveEntry? then
      mode' == Normal && out == Returned(Full) &&
      events' == events + [MoveEntryToParent(mode.dragged, mode.target)]
    else
      out == Returned(RedrawType.None) && mode' == mode && events' == events
  }

  /**
    Debounce across two updates: once a peak `p` has been stored for an entry, a
    second update with a peak `q` closer than `EPSILON` to `p` is rejected and
    changes nothing.
   */
  lemma PeakDebounce(entries: Entries, page: seq<EntryIdentifier>, ident: EntryIdentifier, p: real, q: real,
                     entries': Entries, out: Outcome, entries'': Entries, out': Outcome)
    requires PeakTargetPlayable(entries, ident) && ident.entryType != Card && Position(entries, ident).Some?
    requires PeakOutcome(entries, page, ident, p, entries', out)
    requires !PeakRejected(entries[Position(entries, ident).value].1.playEntry.value.peak, p)
    requires PeakRejected(p, q)
    ensures PeakTargetPlayable(entries', ident)
    ensures PeakOutcome(entries', page, ident, q, entries'', out') ==>
      out' == Returned(RedrawType.None) && entries'' == entries'
  {
    var i := Position(entries, ident).value;
    PositionSameKeys(entries, entries', ident);
  }

  class RSState {
    var entries: Entries
    var pageEntries: seq<EntryIdentifier>
    var selected: nat
    var uiMode: UIMode
    var events: seq<Letter>

    /** The session invariants this handler relies on others to keep, and keeps itself. */
    ghost predicate Valid()
      reads this
    {
      WellFormed(entries) && PageLive(entries, pageEntries) && ModeLive(entries, uiMode)
    }

    constructor (entries: Entries, pageEntries: seq<EntryIdentifier>, selected: nat, uiMode: UIMode)
      requires WellFormed(entries) && PageLive(entries, pageEntries) && ModeLive(entries, uiMode)
      ensures Valid()
      ensures this.entries == entries && this.pageEntries == pageEntries
      ensures this.selected == selected && this.uiMode == uiMode && this.events == []
    {
      this.entries := entries;
      this.pageEntries := pageEntries;
      this.selected := selected;
      this.uiMode := uiMode;
      this.events := [];
    }

    /** `action_handler` of the MoveEntry mode: the four arms of its `match`. */
    method ActionHandler(msg: Letter) returns (out: Outcome)
      // `play_entry.as_mut().unwrap()` (line 10): entries that receive peak updates are playable.
      requires msg.PeakVolumeUpdate? ==> PeakTargetPlayable(entries, msg.ident)
      modifies this
      ensures old(Valid()) ==> Valid()
      ensures pageEntries == old(pageEntries) && selected == old(selected)
      ensures !msg.PeakVolumeUpdate? ==> entries == old(entries)
      ensures out.Panicked? ==> uiMode == old(uiMode) && events == old(events)
      ensures msg.PeakVolumeUpdate? ==>
        uiMode == old(uiMode) && events == old(events) &&
        PeakOutcome(old(entries), pageEntries, msg.ident, msg.peak, entries, out)
      ensures msg.MoveUp? || msg.MoveDown? ==>
        MoveOutcome(msg.MoveUp?, msg.howMuch, old(uiMode), old(events), pageEntries, selected, uiMode, events, out)
      ensures msg.OpenContextMenu? ==> CommitOutcome(old(uiMode), old(events), uiMode, events, out)
      // Every other letter is ignored.
      ensures !(msg.PeakVolumeUpdate? || msg.MoveUp? || msg.MoveDown? || msg.OpenContextMenu?) ==>
        out == Returned(RedrawType.None) && uiMode == old(uiMode) && events == old(events)
    {
      match msg {
        case PeakVolumeUpdate(ident, peak) =>
          out := HandlePeak(ident, peak);
        case MoveUp(howMuch) =>
          out := HandleMoveUp(howMuch);
        case MoveDown(howMuch) =>
          out := HandleMoveDown(howMuch);
        case OpenContextMenu =>
          out := HandleOpenContextMenu();
        case _ =>
          out := Returned(RedrawType.None);
      }
    }

    /** The PeakVolumeUpdate arm (lines 5-20). */
    method HandlePeak(ident: EntryIdentifier, peak: real) returns (out: Outcome)
      requires PeakTargetPlayable(entries, ident)
      modifies this`entries
      ensures old(Valid()) ==> Valid()
      ensures PeakOutcome(old(entries), pageEntries, ident, peak, entries, out)
    {
      if ident.entryType == Card {
        return Returned(RedrawType.None);
      }
      var found := Position(entries, ident);
      if found.Some? {
        var i := found.value;
        var play := entries[i].1.playEntry.value;
        if Abs(play.peak - peak) < EPSILON {
          return Returned(RedrawType.None);
        }
        SetPeakKeepsLive(entries, i, peak, pageEntries, uiMode);
        entries := SetPeak(entries, i, peak);
      }
      if ident in pageEntries {
        return Returned(PeakVolume(ident));
      }
      return Returned(RedrawType.None);
    }

    /** The MoveUp arm (lines 21-51). */
    method HandleMoveUp(howMuch: nat) returns (out: Outcome)
      modifies this`uiMode, this`events
      ensures old(Valid()) ==> Valid()
      ensures MoveOutcome(true, howMuch, old(uiMode), old(events), pageEntries, selected, uiMode, events, out)
    {
      if uiMode.MoveEntry? {
        if |pageEntries| < 2 {
          return Returned(RedrawType.None);
        }
        var l := |pageEntries| - 1;
        if selected < 1 {
          return Panicked(CursorUnderflow);
        }
        var s := selected - 1;
        var j := s - howMuch;
        if j < 0 {
          j := (-j) % l;
          j := l - j;
        }
        if j >= s {
          j := j + 1;
        }
        assert j == MoveUpTarget(s, howMuch, l);
        if selected >= |pageEntries| {
          return Panicked(CursorOutOfPage);
        }
        if j >= |pageEntries| {
          return Panicked(TargetOutOfPage);
        }
        uiMode := MoveEntry(pageEntries[selected], pageEntries[j]);
        events := events + [Redraw];
      }
      return Returned(RedrawType.None);
    }

    /** The MoveDown arm (lines 52-77). */
    method HandleMoveDown(howMuch: nat) returns (out: Outcome)
      modifies this`uiMode, this`events
      ensures old(Valid()) ==> Valid()
      ensures MoveOutcome(false, howMuch, old(uiMode), old(events), pageEntries, selected, uiMode, events, out)
    {
      if uiMode.MoveEntry? {
        if |pageEntries| < 2 {
          return Returned(RedrawType.None);
        }
        var l := |pageEntries| - 1;
        if selected < 1 {
          return Panicked(CursorUnderflow);
        }
        var s := selected - 1;
        var j := (s + howMuch) % l;
        if j >= s {
          j := j + 1;
        }
        assert j == MoveDownTarget(s, howMuch, l);
        if selected >= |pageEntries| {
          return Panicked(CursorOutOfPage);
        }
        if j >= |pageEntries| {
          return Panicked(TargetOutOfPage);
        }
        uiMode := MoveEntry(pageEntries[selected], pageEntries[j]);
        events := events + [Redraw];
      }
      return Returned(RedrawType.None);
    }

    /** The OpenContextMenu arm (lines 78-87). */
    method HandleOpenContextMenu() returns (out: Outcome)
      modifies this`uiMode, this`events
      ensures old(Valid()) ==> Valid()
      ensures CommitOutcome(old(uiMode), old(events), uiMode, events, out)
    {
      if uiMode.MoveEntry? {
        var MoveEntry(ident, parent) := uiMode;
        uiMode := Normal;
        events := events + [MoveEntryToParent(ident, parent)];
        return Returned(Full);
      }
      return Returned(RedrawType.None);
    }
  }
}
