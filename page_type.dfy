/**
  The page selector and the page projection `generate_page`
  (src/models/page_type.rs).

  A page is the ordered list of (identifier, entry) pairs one screen shows.
  The projection never changes the collection it reads: it is a function of
  the collection, the page selector and the UI mode.
 */
module Page {
  import opened EntryModel
  import opened Models

  datatype PageType = Output | Input | Cards

  newtype i8 = x: int | -128 <= x < 128

  /** `From<PageType> for i8`. */
  function ToI8(p: PageType): (r: i8)
    ensures 0 <= r <= 2
  {
    match p
    case Output => 0
    case Input => 1
    case Cards => 2
  }

  /** `From<i8> for PageType`: total; -1 also selects Cards, unknown values select Output. */
  function FromI8(x: i8): (r: PageType)
    ensures x == -1 ==> r == Cards
    ensures !(-1 <= x <= 2) ==> r == Output
  {
    match x
    case -1 => Cards
    case 0 => Output
    case 1 => Input
    case 2 => Cards
    case _ => Output
  }

  /** Converting a page to `i8` and back gives the same page. */
  lemma I8RoundTrip(p: PageType)
    ensures FromI8(ToI8(p)) == p
  {
  }

  /** The codes 0, 1 and 2 are exactly the images of the three pages. */
  lemma I8CodesRoundTrip(x: i8)
    requires 0 <= x <= 2
    ensures ToI8(FromI8(x)) == x
  {
  }

  /** `as_str`, which `Display` also prints. */
  function AsStr(p: PageType): (s: string)
    ensures s == "Output" || s == "Input" || s == "Cards"
  {
    match p
    case Output => "Output"
    case Input => "Input"
    case Cards => "Cards"
  }

  /** Distinct pages have distinct names, and each name is the variant's own. */
  lemma AsStrNamesVariant(p: PageType, q: PageType)
    ensures AsStr(p) == AsStr(q) <==> p == q
    ensures AsStr(Output) == "Output" && AsStr(Input) == "Input" && AsStr(Cards) == "Cards"
  {
    assert "Output"[0] != "Input"[0] && "Output"[0] != "Cards"[0] && "Input"[0] != "Cards"[0];
  }

  /** `parent_child_types`: the (parent type, child type) shown on a page; its definition is not part of this model. */
  type ParentChild = PageType -> (EntryType, EntryType)

  /** The filter of line 107: `e` is a visible child of the parent with index `k`. */
  predicate IsVisibleChildOf(e: Entry, k: nat) {
    e.parent == Some(k) && e.hidden != Hidden
  }

  /** The visible children of parent index `k` among `cs`, in order. */
  function ChildrenOf(cs: Entries, k: nat): (r: Entries)
    ensures |r| <= |cs|
  {
    if |cs| == 0 then []
    else (if IsVisibleChildOf(cs[0].1, k) then [cs[0]] else []) + ChildrenOf(cs[1..], k)
  }

  /** An item is among the children of `k` exactly when it is in `cs` and a visible child of `k`. */
  lemma {:induction false} ChildrenOfMembers(cs: Entries, k: nat, x: Item)
    ensures x in ChildrenOf(cs, k) <==> x in cs && IsVisibleChildOf(x.1, k)
  {
    if |cs| > 0 {
      ChildrenOfMembers(cs[1..], k, x);
      assert x in cs <==> x == cs[0] || x in cs[1..];
    }
  }

  /** The grouped flatten of lines 100-111: each parent followed by its visible children. */
  function Grouped(parents: Entries, cs: Entries): (r: Entries)
  {
    if |parents| == 0 then []
    else [parents[0]] + ChildrenOf(cs, parents[0].0.index) + Grouped(parents[1..], cs)
  }

  /** `generate_page`. The two lookups of the MoveEntry branch are unwrapped in the source, so they are required here. */
  function GeneratePage(page: PageType, entries: Entries, mode: UIMode, pct: ParentChild): (r: Entries)
    requires page != Cards && mode.MoveEntry? ==>
      Get(entries, mode.dragged).Some? &&
      Position(IterType(entries, mode.target.entryType), mode.target).Some?
    ensures forall x :: x in r ==> x in entries
  {
    if page == Cards then
      IterTypeSubset(entries, Card);
      IterType(entries, Card)
    else
      var (parentType, childType) := pct(page);
      match mode
      case MoveEntry(ident, parent) =>
        // `parent` is the target from the mode, which shadows the page's parent type.
        var en := Get(entries, ident).value;
        var items := IterType(entries, parent.entryType);
        var pos := Position(items, parent).value;
        IterTypeSubset(entries, parent.entryType);
        InsertedSubset(items, pos, (ident, en));
        items[..pos + 1] + [(ident, en)] + items[pos + 1..]
      case _ =>
        GroupedSubset(entries, parentType, childType);
        Grouped(IterType(entries, parentType), IterType(entries, childType))
  }

  /** Inserting `y` after position `pos` adds `y` and nothing else. */
  lemma InsertedSubset(items: Entries, pos: nat, y: Item)
    requires pos < |items|
    ensures forall x :: x in items[..pos + 1] + [y] + items[pos + 1..] ==> x in items || x == y
  {
    assert items == items[..pos + 1] + items[pos + 1..];
  }

  /** The grouped flatten of two filters of `entries` holds only items of `entries`. */
  lemma GroupedSubset(entries: Entries, pt: EntryType, ct: EntryType)
    ensures forall x :: x in Grouped(IterType(entries, pt), IterType(entries, ct)) ==> x in entries
  {
    forall x | x in Grouped(IterType(entries, pt), IterType(entries, ct)) ensures x in entries {
      GroupedMembers(IterType(entries, pt), IterType(entries, ct), x);
      IterTypeMembers(entries, pt, x);
      IterTypeMembers(entries, ct, x);
    }
  }

  // ---------------------------------------------------------------------------
  // The Cards page

  /** The Cards page is the Card entries in stable order, whatever the mode. */
  lemma CardsPageIgnoresMode(entries: Entries, mode: UIMode, pct: ParentChild)
    ensures GeneratePage(Cards, entries, mode, pct) == IterType(entries, Card)
    ensures forall x :: x in GeneratePage(Cards, entries, mode, pct) <==> x in entries && x.0.entryType == Card
  {
    forall x ensures x in IterType(entries, Card) <==> x in entries && x.0.entryType == Card {
      IterTypeMembers(entries, Card, x);
    }
  }

  // ---------------------------------------------------------------------------
  // Output and Input pages outside MoveEntry

  /** The set of parent indices among `parents`. */
  function Indices(parents: Entries): (ks: set<nat>)
    ensures forall k :: k in ks <==> exists p :: p in parents && p.0.index == k
  {
    if |parents| == 0 then {}
    else
      assert forall p :: p in parents <==> p == parents[0] || p in parents[1..];
      {parents[0].0.index} + Indices(parents[1..])
  }

  /** A visible entry whose parent index is one of `ks`. */
  predicate IsVisibleChildOfAny(e: Entry, ks: set<nat>) {
    e.parent.Some? && e.parent.value in ks && e.hidden != Hidden
  }

  /** The visible children of any parent in `ks`, in order. */
  function ChildrenOfAny(cs: Entries, ks: set<nat>): (r: Entries)
    ensures forall x :: x in r <==> x in cs && IsVisibleChildOfAny(x.1, ks)
  {
    if |cs| == 0 then []
    else (if IsVisibleChildOfAny(cs[0].1, ks) then [cs[0]] else []) + ChildrenOfAny(cs[1..], ks)
  }

  predicate AllOfType(items: Entries, t: EntryType) {
    forall i :: 0 <= i < |items| ==> items[i].0.entryType == t
  }

  predicate NoneOfType(items: Entries, t: EntryType) {
    forall i :: 0 <= i < |items| ==> items[i].0.entryType != t
  }

  /** Parents of one type have pairwise distinct indices. */
  predicate DistinctIndices(parents: Entries) {
    forall i, j :: 0 <= i < |parents| && 0 <= j < |parents| && parents[i].0.index == parents[j].0.index ==> i == j
  }

  lemma {:induction false} ChildrenOfSingleton(cs: Entries, k: nat)
    ensures ChildrenOf(cs, k) == ChildrenOfAny(cs, {k})
  {
    if |cs| > 0 {
      ChildrenOfSingleton(cs[1..], k);
    }
  }

  lemma {:induction false} ChildrenOfAnyDisjointUnion(cs: Entries, a: set<nat>, b: set<nat>)
    requires a !! b
    ensures |ChildrenOfAny(cs, a + b)| == |ChildrenOfAny(cs, a)| + |ChildrenOfAny(cs, b)|
  {
    if |cs| > 0 {
      ChildrenOfAnyDisjointUnion(cs[1..], a, b);
    }
  }

  lemma {:induction false} ChildrenOfNoParent(cs: Entries)
    ensures ChildrenOfAny(cs, {}) == []
  {
    if |cs| > 0 {
      ChildrenOfNoParent(cs[1..]);
    }
  }

  lemma {:induction false} ChildrenOfAnyWellFormed(cs: Entries, ks: set<nat>)
    requires WellFormed(cs)
    ensures WellFormed(ChildrenOfAny(cs, ks))
  {
    if |cs| > 0 {
      var rest := cs[1..];
      assert WellFormed(rest) by {
        forall i, j | 0 <= i < |rest| && 0 <= j < |rest| && rest[i].0 == rest[j].0
          ensures i == j
        {
          assert cs[i + 1].0 == cs[j + 1].0;
        }
      }
      ChildrenOfAnyWellFormed(rest, ks);
      var tail := ChildrenOfAny(rest, ks);
      if IsVisibleChildOfAny(cs[0].1, ks) {
        var r := [cs[0]] + tail;
        forall k | 0 <= k < |tail|
          ensures tail[k].0 != cs[0].0
        {
          assert tail[k] in rest;
          var m :| 0 <= m < |rest| && rest[m] == tail[k];
          assert cs[m + 1] == tail[k];
        }
        forall i, j | 0 <= i < |r| && 0 <= j < |r| && r[i].0 == r[j].0
          ensures i == j
        {
          if i > 0 && j > 0 {
            assert tail[i - 1].0 == tail[j - 1].0;
          }
        }
      }
    }
  }

  lemma AppendWellFormed(a: Entries, b: Entries)
    requires WellFormed(a) && WellFormed(b)
    requires forall x, y :: x in a && y in b ==> x.0 != y.0
    ensures WellFormed(a + b)
  {
    var r := a + b;
    forall i, j | 0 <= i < |r| && 0 <= j < |r| && r[i].0 == r[j].0
      ensures i == j
    {
      if i >= |a| && j >= |a| {
        assert b[i - |a|].0 == b[j - |a|].0;
      }
    }
  }

  /** Membership in the grouped flatten. */
  lemma {:induction false} GroupedMembers(parents: Entries, cs: Entries, x: Item)
    ensures x in Grouped(parents, cs) <==>
      x in parents || (x in cs && IsVisibleChildOfAny(x.1, Indices(parents)))
  {
    if |parents| > 0 {
      GroupedMembers(parents[1..], cs, x);
      ChildrenOfMembers(cs, parents[0].0.index, x);
      assert forall p :: p in parents <==> p == parents[0] || p in parents[1..];
    }
  }

  /** Length of the grouped flatten: the parents plus the visible children of any of them. */
  lemma {:induction false} GroupedLength(parents: Entries, cs: Entries)
    requires DistinctIndices(parents)
    ensures |Grouped(parents, cs)| == |parents| + |ChildrenOfAny(cs, Indices(parents))|
  {
    if |parents| == 0 {
      ChildrenOfNoParent(cs);
    } else {
      var rest := parents[1..];
      assert DistinctIndices(rest) by {
        forall i, j | 0 <= i < |rest| && 0 <= j < |rest| && rest[i].0.index == rest[j].0.index
          ensures i == j
        {
          assert parents[i + 1].0.index == parents[j + 1].0.index;
        }
      }
      GroupedLength(rest, cs);
      var k := parents[0].0.index;
      assert k !in Indices(rest);
      ChildrenOfSingleton(cs, k);
      ChildrenOfAnyDisjointUnion(cs, {k}, Indices(rest));
      assert Indices(parents) == {k} + Indices(rest);
      assert Grouped(parents, cs) == [parents[0]] + ChildrenOf(cs, k) + Grouped(rest, cs);
      assert |Grouped(parents, cs)| == 1 + |ChildrenOfAny(cs, {k})| + |Grouped(rest, cs)|;
      assert |Grouped(rest, cs)| == |rest| + |ChildrenOfAny(cs, Indices(rest))|;
      assert |ChildrenOfAny(cs, {k} + Indices(rest))| == |ChildrenOfAny(cs, {k})| + |ChildrenOfAny(cs, Indices(rest))|;
    }
  }

  lemma {:induction false} IterTypeOfNone(items: Entries, t: EntryType)
    requires forall x :: x in items ==> x.0.entryType != t
    ensures IterType(items, t) == []
  {
    if |items| > 0 {
      assert items[0] in items;
      IterTypeOfNone(items[1..], t);
    }
  }

  /** Filtering the grouped flatten by the parents' type gives back the parents, in order. */
  lemma {:induction false} GroupedParents(parents: Entries, cs: Entries, t: EntryType)
    requires AllOfType(parents, t) && NoneOfType(cs, t)
    ensures IterType(Grouped(parents, cs), t) == parents
  {
    if |parents| > 0 {
      var kids := ChildrenOf(cs, parents[0].0.index);
      forall x | x in kids ensures x.0.entryType != t {
        ChildrenOfMembers(cs, parents[0].0.index, x);
        var m :| 0 <= m < |cs| && cs[m] == x;
      }
      IterTypeOfNone(kids, t);
      assert IterType([parents[0]], t) == [parents[0]] by {
        assert [parents[0]][1..] == [];
      }
      IterTypeAppend([parents[0]] + kids, Grouped(parents[1..], cs), t);
      IterTypeAppend([parents[0]], kids, t);
      GroupedParents(parents[1..], cs, t);
    }
  }

  /** Where the group of the `i`-th parent starts in the grouped flatten. */
  function GroupStart(parents: Entries, cs: Entries, i: nat): nat
    requires i <= |parents|
  {
    if i == 0 then 0
    else 1 + |ChildrenOf(cs, parents[0].0.index)| + GroupStart(parents[1..], cs, i - 1)
  }

  lemma {:induction false} GroupStartStep(parents: Entries, cs: Entries, i: nat)
    requires i < |parents|
    ensures GroupStart(parents, cs, i + 1) == GroupStart(parents, cs, i) + 1 + |ChildrenOf(cs, parents[i].0.index)|
  {
    if i > 0 {
      GroupStartStep(parents[1..], cs, i - 1);
    }
  }

  /** The flatten seen from the start of group `i` is the flatten of the parents from `i` on. */
  lemma {:induction false} GroupedDrop(parents: Entries, cs: Entries, i: nat)
    requires i <= |parents|
    ensures GroupStart(parents, cs, i) <= |Grouped(parents, cs)|
    ensures Grouped(parents, cs)[GroupStart(parents, cs, i)..] == Grouped(parents[i..], cs)
  {
    if i > 0 {
      GroupedDrop(parents, cs, i - 1);
      GroupStartStep(parents, cs, i - 1);
      var d := parents[i - 1..];
      assert d[1..] == parents[i..];
      var head := [parents[i - 1]] + ChildrenOf(cs, parents[i - 1].0.index);
      assert Grouped(d, cs) == head + Grouped(d[1..], cs);
      DropAfterPrefix(Grouped(parents, cs), GroupStart(parents, cs, i - 1), GroupStart(parents, cs, i),
                      head, Grouped(parents[i..], cs));
    }
  }

  /** If `g` continues with `head + rest` at `start`, it continues with `rest` at `start + |head|`. */
  lemma DropAfterPrefix(g: Entries, start: nat, next: nat, head: Entries, rest: Entries)
    requires start <= |g| && g[start..] == head + rest && next == start + |head|
    ensures next <= |g| && g[next..] == rest
  {
    assert g[next..] == g[start..][|head|..];
    assert (head + rest)[|head|..] == rest;
  }

  /** If `g` continues with `head + rest` at `start`, then `head` sits at `start`. */
  lemma PrefixAt(g: Entries, start: nat, head: Entries, rest: Entries)
    requires start <= |g| && g[start..] == head + rest && |head| > 0
    ensures start + |head| <= |g| && g[start] == head[0] && g[start + 1 .. start + |head|] == head[1..]
  {
    var t := g[start..];
    assert |t| == |head| + |rest|;
    assert g[start] == t[0];
    forall k | 0 <= k < |head| - 1 ensures g[start + 1 .. start + |head|][k] == head[1..][k] {
      assert g[start + 1 + k] == t[1 + k];
    }
  }

  /**
    The layout of the grouped flatten: group `i` starts with parent `i` and
    continues with exactly its visible children; the groups tile the page.
   */
  lemma GroupedLayout(parents: Entries, cs: Entries, i: nat)
    requires i < |parents|
    ensures GroupStart(parents, cs, i + 1) == GroupStart(parents, cs, i) + 1 + |ChildrenOf(cs, parents[i].0.index)|
    ensures GroupStart(parents, cs, i + 1) <= |Grouped(parents, cs)|
    ensures Grouped(parents, cs)[GroupStart(parents, cs, i)] == parents[i]
    ensures Grouped(parents, cs)[GroupStart(parents, cs, i) + 1 .. GroupStart(parents, cs, i + 1)]
         == ChildrenOf(cs, parents[i].0.index)
  {
    GroupedDrop(parents, cs, i);
    GroupStartStep(parents, cs, i);
    var d := parents[i..];
    assert d[0] == parents[i];
    var kids := ChildrenOf(cs, parents[i].0.index);
    var head := [parents[i]] + kids;
    assert Grouped(d, cs) == head + Grouped(d[1..], cs);
    PrefixAt(Grouped(parents, cs), GroupStart(parents, cs, i), head, Grouped(d[1..], cs));
    assert head[1..] == kids;
  }

  lemma {:induction false} GroupStartEnd(parents: Entries, cs: Entries)
    ensures GroupStart(parents, cs, |parents|) == |Grouped(parents, cs)|
  {
    if |parents| > 0 {
      GroupStartEnd(parents[1..], cs);
    }
  }

  /** The grouped flatten repeats no identifier. */
  lemma {:induction false} GroupedWellFormed(parents: Entries, cs: Entries, pt: EntryType)
    requires WellFormed(parents) && WellFormed(cs) && DistinctIndices(parents)
    requires AllOfType(parents, pt) && NoneOfType(cs, pt)
    ensures WellFormed(Grouped(parents, cs))
  {
    if |parents| > 0 {
      var p0 := parents[0];
      var rest := parents[1..];
      WellFormedTail(parents);
      assert DistinctIndices(rest) by {
        forall i, j | 0 <= i < |rest| && 0 <= j < |rest| && rest[i].0.index == rest[j].0.index
          ensures i == j
        {
          assert parents[i + 1].0.index == parents[j + 1].0.index;
        }
      }
      GroupedWellFormed(rest, cs, pt);
      FirstGroupApart(parents, cs, pt);
      AppendWellFormed([p0] + ChildrenOf(cs, p0.0.index), Grouped(rest, cs));
    }
  }

  /** The first group repeats no identifier and shares none with the groups after it. */
  lemma FirstGroupApart(parents: Entries, cs: Entries, pt: EntryType)
    requires |parents| > 0
    requires WellFormed(parents) && WellFormed(cs) && DistinctIndices(parents)
    requires AllOfType(parents, pt) && NoneOfType(cs, pt)
    ensures WellFormed([parents[0]] + ChildrenOf(cs, parents[0].0.index))
    ensures forall x, y :: x in [parents[0]] + ChildrenOf(cs, parents[0].0.index) && y in Grouped(parents[1..], cs) ==> x.0 != y.0
  {
    var p0 := parents[0];
    var rest := parents[1..];
    var kids := ChildrenOf(cs, p0.0.index);
    ChildrenOfSingleton(cs, p0.0.index);
    ChildrenOfAnyWellFormed(cs, {p0.0.index});
    assert forall y :: y in cs ==> y.0.entryType != pt by {
      forall y | y in cs ensures y.0.entryType != pt {
        var m :| 0 <= m < |cs| && cs[m] == y;
      }
    }
    assert forall y :: y in parents ==> y.0.entryType == pt by {
      forall y | y in parents ensures y.0.entryType == pt {
        var m :| 0 <= m < |parents| && parents[m] == y;
      }
    }
    AppendWellFormed([p0], kids);
    var rg := Grouped(rest, cs);
    forall x, y | x in [p0] + kids && y in rg
      ensures x.0 != y.0
    {
      GroupedMembers(rest, cs, y);
      if y in rest {
        var m :| 0 <= m < |rest| && rest[m] == y;
        if x == p0 {
          assert parents[m + 1].0 != parents[0].0;
        }
      }
    }
  }

  /** Distinct identifiers of one type have distinct indices. */
  lemma OneTypeDistinctIndices(items: Entries, t: EntryType)
    requires WellFormed(items) && AllOfType(items, t)
    ensures DistinctIndices(items)
  {
    forall i, j | 0 <= i < |items| && 0 <= j < |items| && items[i].0.index == items[j].0.index
      ensures i == j
    {
      assert items[i].0 == items[j].0;
    }
  }

  lemma IterTypeAllOfType(entries: Entries, t: EntryType, u: EntryType)
    ensures AllOfType(IterType(entries, t), t)
    ensures t != u ==> NoneOfType(IterType(entries, t), u)
  {
    var r := IterType(entries, t);
    forall i | 0 <= i < |r| ensures r[i].0.entryType == t {
      assert r[i] in r;
    }
  }

  /** A page outside MoveEntry on the Output or Input selector. */
  predicate IsGroupedPage(page: PageType, mode: UIMode, pct: ParentChild) {
    page != Cards && !mode.MoveEntry? && pct(page).0 != pct(page).1
  }

  /** Every parent-type entry appears on the page once, in the collection's order. */
  lemma GroupedPageParents(page: PageType, entries: Entries, mode: UIMode, pct: ParentChild)
    requires IsGroupedPage(page, mode, pct)
    ensures IterType(GeneratePage(page, entries, mode, pct), pct(page).0) == IterType(entries, pct(page).0)
  {
    var (pt, ct) := pct(page);
    IterTypeAllOfType(entries, pt, ct);
    IterTypeAllOfType(entries, ct, pt);
    GroupedParents(IterType(entries, pt), IterType(entries, ct), pt);
  }

  /**
    Each parent is immediately followed by exactly the child-type entries whose
    parent is its index and which are not hidden, in the collection's order;
    the groups, one per parent, cover the page.
   */
  lemma GroupedPageLayout(page: PageType, entries: Entries, mode: UIMode, pct: ParentChild, i: nat)
    requires IsGroupedPage(page, mode, pct)
    requires i < |IterType(entries, pct(page).0)|
    ensures var parents := IterType(entries, pct(page).0);
            var cs := IterType(entries, pct(page).1);
            var r := GeneratePage(page, entries, mode, pct);
            GroupStart(parents, cs, 0) == 0 &&
            GroupStart(parents, cs, |parents|) == |r| &&
            GroupStart(parents, cs, i + 1) == GroupStart(parents, cs, i) + 1 + |ChildrenOf(cs, parents[i].0.index)| &&
            GroupStart(parents, cs, i + 1) <= |r| &&
            r[GroupStart(parents, cs, i)] == parents[i] &&
            r[GroupStart(parents, cs, i) + 1 .. GroupStart(parents, cs, i + 1)] == ChildrenOf(cs, parents[i].0.index)
  {
    var parents := IterType(entries, pct(page).0);
    var cs := IterType(entries, pct(page).1);
    assert GeneratePage(page, entries, mode, pct) == Grouped(parents, cs);
    GroupedLayout(parents, cs, i);
    GroupStartEnd(parents, cs);
  }

  /**
    What is on the page: every parent-type entry, and a child-type entry exactly
    when it is not hidden and its parent index is that of some parent entry.
   */
  lemma GroupedPageMembers(page: PageType, entries: Entries, mode: UIMode, pct: ParentChild, x: Item)
    requires IsGroupedPage(page, mode, pct)
    ensures x in GeneratePage(page, entries, mode, pct) <==>
      x in entries &&
      (x.0.entryType == pct(page).0 ||
       (x.0.entryType == pct(page).1 && x.1.hidden != Hidden && x.1.parent.Some? &&
        exists p :: p in entries && p.0.entryType == pct(page).0 && p.0.index == x.1.parent.value))
  {
    var (pt, ct) := pct(page);
    var parents := IterType(entries, pt);
    GroupedMembers(parents, IterType(entries, ct), x);
    IterTypeMembers(entries, pt, x);
    IterTypeMembers(entries, ct, x);
    forall q ensures q in parents <==> q in entries && q.0.entryType == pt {
      IterTypeMembers(entries, pt, q);
    }
  }

  /** The page length is the number of parents plus the number of their visible children. */
  lemma GroupedPageLength(page: PageType, entries: Entries, mode: UIMode, pct: ParentChild)
    requires IsGroupedPage(page, mode, pct) && WellFormed(entries)
    ensures var parents := IterType(entries, pct(page).0);
            |GeneratePage(page, entries, mode, pct)| ==
            |parents| + |ChildrenOfAny(IterType(entries, pct(page).1), Indices(parents))|
  {
    var parents := IterType(entries, pct(page).0);
    IterTypeWellFormed(entries, pct(page).0);
    IterTypeAllOfType(entries, pct(page).0, pct(page).1);
    OneTypeDistinctIndices(parents, pct(page).0);
    GroupedLength(parents, IterType(entries, pct(page).1));
  }

  /** No entry appears twice on the page. */
  lemma GroupedPageWellFormed(page: PageType, entries: Entries, mode: UIMode, pct: ParentChild)
    requires IsGroupedPage(page, mode, pct) && WellFormed(entries)
    ensures WellFormed(GeneratePage(page, entries, mode, pct))
  {
    var (pt, ct) := pct(page);
    var parents := IterType(entries, pt);
    IterTypeWellFormed(entries, pt);
    IterTypeWellFormed(entries, ct);
    IterTypeAllOfType(entries, pt, ct);
    IterTypeAllOfType(entries, ct, pt);
    OneTypeDistinctIndices(parents, pt);
    GroupedWellFormed(parents, IterType(entries, ct), pt);
  }

  // ---------------------------------------------------------------------------
  // The MoveEntry preview

  lemma InsertAfter(items: Entries, pos: nat, x: Item)
    requires pos < |items|
    ensures var r := items[..pos + 1] + [x] + items[pos + 1..];
            |r| == |items| + 1 && r[pos] == items[pos] && r[pos + 1] == x && r[..pos + 1] + r[pos + 2..] == items
  {
    var r := items[..pos + 1] + [x] + items[pos + 1..];
    assert r[..pos + 1] == items[..pos + 1];
    assert r[pos + 2..] == items[pos + 1..];
    assert items[..pos + 1] + items[pos + 1..] == items;
  }

  /**
    In MoveEntry(d, p) the page lists the entries of p's type in order, with the
    dragged entry inserted right after p; removing it gives back that list.
   */
  lemma MovePreviewSplice(page: PageType, entries: Entries, d: EntryIdentifier, p: EntryIdentifier, pct: ParentChild)
    requires page != Cards
    requires Get(entries, d).Some? && Position(entries, p).Some?
    ensures Position(IterType(entries, p.entryType), p).Some?
    ensures var items := IterType(entries, p.entryType);
            var pos := Position(items, p).value;
            var r := GeneratePage(page, entries, MoveEntry(d, p), pct);
            |r| == |items| + 1 &&
            r[pos].0 == p &&
            r[pos + 1] == (d, Get(entries, d).value) &&
            r[..pos + 1] + r[pos + 2..] == items
  {
    PositionInOwnType(entries, p);
    var items := IterType(entries, p.entryType);
    var pos := Position(items, p).value;
    var dragged := (d, Get(entries, d).value);
    assert GeneratePage(page, entries, MoveEntry(d, p), pct) == items[..pos + 1] + [dragged] + items[pos + 1..];
    InsertAfter(items, pos, dragged);
  }

  /** In MoveEntry(d, p) the page holds the entries of p's type and the dragged entry, and nothing else. */
  lemma MovePreviewMembers(page: PageType, entries: Entries, d: EntryIdentifier, p: EntryIdentifier, pct: ParentChild, x: Item)
    requires page != Cards
    requires Get(entries, d).Some? && Position(entries, p).Some?
    ensures Position(IterType(entries, p.entryType), p).Some?
    ensures x in GeneratePage(page, entries, MoveEntry(d, p), pct) <==>
      (x in entries && x.0.entryType == p.entryType) || x == (d, Get(entries, d).value)
  {
    PositionInOwnType(entries, p);
    var items := IterType(entries, p.entryType);
    var pos := Position(items, p).value;
    assert items == items[..pos + 1] + items[pos + 1..];
    IterTypeMembers(entries, p.entryType, x);
  }
}
