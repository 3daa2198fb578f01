/**
  The shared vocabulary of the event loop: the UI mode, the redraw directive a
  handler returns, and the letters (events) that travel on the dispatch stream.
 */
module Models {
  import opened EntryModel

  /** Exactly one mode is active; `MoveEntry(dragged, target)` previews a relocation. */
  datatype UIMode =
    | Normal
    | ContextMenu
    | Help
    | MoveEntry(dragged: EntryIdentifier, target: EntryIdentifier)

  /** What the renderer must repaint after one event. */
  datatype RedrawType =
    | None
    | PeakVolume(ident: EntryIdentifier)
    | Help
    | Full

  /**
    The letters the modelled handler distinguishes. `Other` stands for every
    letter it passes over without looking at it. Step counts are non-negative.
   */
  datatype Letter =
    | PeakVolumeUpdate(ident: EntryIdentifier, peak: real)
    | MoveUp(howMuch: nat)
    | MoveDown(howMuch: nat)
    | OpenContextMenu
    | Redraw
    | MoveEntryToParent(entry: EntryIdentifier, parent: EntryIdentifier)
    | ExitSignal
    | Other
}
