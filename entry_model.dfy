/**
  The entry model the page projection and the move handler read: identifiers,
  entry records and the ordered `Entries` collection with its filtered
  iteration `iter_type`.

  `Entries` is kept as an ordered sequence of (identifier, entry) pairs whose
  identifiers are pairwise distinct: the source's collection is keyed by
  identifier and iterates in a stable order, and that order is what the page
  projection exposes.
 */
module EntryModel {

  datatype Option<T> = None | Some(value: T)

  /** The kinds of audio object. */
  datatype EntryType = Card | Sink | SinkInput | Source | SourceOutput

  /** Key of one audio object; equal exactly when type and index are equal. */
  datatype EntryIdentifier = EntryIdentifier(entryType: EntryType, index: nat)

  datatype HiddenStatus = Visible | Hidden

  /** Peak-metering record; only playable entries carry one. */
  datatype PlayEntry = PlayEntry(peak: real)

  /** The parts of an entry's live state that the modelled code reads or writes. */
  datatype Entry = Entry(parent: Option<nat>, hidden: HiddenStatus, playEntry: Option<PlayEntry>)

  type Item = (EntryIdentifier, Entry)

  type Entries = seq<Item>

  /** No identifier occurs twice: the collection is keyed by identifier. */
  predicate WellFormed(entries: Entries) {
    forall i, j :: 0 <= i < |entries| && 0 <= j < |entries| && entries[i].0 == entries[j].0 ==> i == j
  }

  /** The index of the first item whose identifier is `id` (Rust's `Iterator::position`). */
  function Position(items: Entries, id: EntryIdentifier): (r: Option<nat>)
    ensures r.Some? ==> r.value < |items| && items[r.value].0 == id
    ensures r.Some? ==> forall k :: 0 <= k < r.value ==> items[k].0 != id
    ensures r.None? <==> forall k :: 0 <= k < |items| ==> items[k].0 != id
  {
    if |items| == 0 then None
    else if items[0].0 == id then Some(0)
    else match Position(items[1..], id)
      case None => None
      case Some(k) => Some(k + 1)
  }

  /** `Entries::get`: the entry stored under `id`, if any. */
  function Get(entries: Entries, id: EntryIdentifier): (r: Option<Entry>)
    ensures r.Some? <==> exists k :: 0 <= k < |entries| && entries[k].0 == id
    ensures r.Some? ==> (id, r.value) in entries
  {
    match Position(entries, id)
    case None => None
    case Some(k) => Some(entries[k].1)
  }

  /** `Entries::iter_type`: the items of type `t`, in the collection's order. */
  function IterType(entries: Entries, t: EntryType): (r: Entries)
    ensures |r| <= |entries|
  {
    if |entries| == 0 then []
    else (if entries[0].0.entryType == t then [entries[0]] else []) + IterType(entries[1..], t)
  }

  /** An item is kept by `iter_type` exactly when it is in the collection and has type `t`. */
  lemma {:induction false} IterTypeMembers(entries: Entries, t: EntryType, x: Item)
    ensures x in IterType(entries, t) <==> x in entries && x.0.entryType == t
  {
    if |entries| > 0 {
      IterTypeMembers(entries[1..], t, x);
      assert x in entries <==> x == entries[0] || x in entries[1..];
    }
  }

  /** `iter_type` keeps only items of the collection. */
  lemma IterTypeSubset(entries: Entries, t: EntryType)
    ensures forall x :: x in IterType(entries, t) ==> x in entries
  {
    forall x | x in IterType(entries, t) ensures x in entries {
      IterTypeMembers(entries, t, x);
    }
  }

  /** `iter_type` distributes over concatenation: it keeps the relative order of items. */
  lemma {:induction false} IterTypeAppend(a: Entries, b: Entries, t: EntryType)
    ensures IterType(a + b, t) == IterType(a, t) + IterType(b, t)
  {
    if |a| == 0 {
      assert a + b == b;
    } else {
      var h := if a[0].0.entryType == t then [a[0]] else [];
      assert (a + b)[0] == a[0];
      assert (a + b)[1..] == a[1..] + b;
      IterTypeAppend(a[1..], b, t);
      assert IterType(a + b, t) == h + IterType(a[1..] + b, t);
      AppendAssoc(h, IterType(a[1..], t), IterType(b, t));
    }
  }

  lemma AppendAssoc(a: Entries, b: Entries, c: Entries)
    ensures a + (b + c) == (a + b) + c
  {
  }

  /** Filtering a well-formed collection keeps its identifiers distinct. */
  lemma {:induction false} IterTypeWellFormed(entries: Entries, t: EntryType)
    requires WellFormed(entries)
    ensures WellFormed(IterType(entries, t))
  {
    if |entries| > 0 {
      var rest := entries[1..];
      WellFormedTail(entries);
      IterTypeWellFormed(rest, t);
      var tail := IterType(rest, t);
      if entries[0].0.entryType == t {
        forall k | 0 <= k < |tail| ensures tail[k].0 != entries[0].0 {
          assert tail[k] in tail;
          IterTypeMembers(rest, t, tail[k]);
          var m :| 0 <= m < |rest| && rest[m] == tail[k];
          assert entries[m + 1] == tail[k];
        }
        WellFormedCons(entries[0], tail);
      }
    }
  }

  /** Dropping the first item keeps identifiers distinct. */
  lemma WellFormedTail(items: Entries)
    requires |items| > 0 && WellFormed(items)
    ensures WellFormed(items[1..])
  {
    var rest := items[1..];
    forall i, j | 0 <= i < |rest| && 0 <= j < |rest| && rest[i].0 == rest[j].0
      ensures i == j
    {
      assert items[i + 1].0 == items[j + 1].0;
    }
  }

  /** Prepending an item whose identifier is new keeps identifiers distinct. */
  lemma WellFormedCons(x: Item, items: Entries)
    requires WellFormed(items)
    requires forall k :: 0 <= k < |items| ==> items[k].0 != x.0
    ensures WellFormed([x] + items)
  {
    var r := [x] + items;
    forall i, j | 0 <= i < |r| && 0 <= j < |r| && r[i].0 == r[j].0
      ensures i == j
    {
      if i > 0 && j > 0 {
        assert items[i - 1].0 == items[j - 1].0;
      }
    }
  }

  /** An identifier is found among the items of its own type exactly when it is in the collection. */
  lemma {:induction false} PositionInOwnType(entries: Entries, id: EntryIdentifier)
    ensures Position(IterType(entries, id.entryType), id).Some? <==> Position(entries, id).Some?
  {
    var ps := IterType(entries, id.entryType);
    if Position(entries, id).Some? {
      var k := Position(entries, id).value;
      IterTypeMembers(entries, id.entryType, entries[k]);
      assert entries[k] in ps;
    }
    if Position(ps, id).Some? {
      var k := Position(ps, id).value;
      IterTypeMembers(entries, id.entryType, ps[k]);
      assert ps[k] in entries;
    }
  }

  /** Two collections with the same identifiers at the same positions find every identifier at the same position. */
  lemma {:induction false} PositionSameKeys(a: Entries, b: Entries, id: EntryIdentifier)
    requires |a| == |b| && forall k :: 0 <= k < |a| ==> a[k].0 == b[k].0
    ensures Position(a, id) == Position(b, id)
  {
    if |a| > 0 {
      PositionSameKeys(a[1..], b[1..], id);
    }
  }
}
