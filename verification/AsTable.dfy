/** The address-space table itself: searching it, adding entries, and as_add_containing on top. */
module AsTable {
  import opened Common
  import opened AsRanges

  /** The source's three tests for an entry meeting [start, end]. */
  predicate Overlaps(e: Entry, start: Paddr, end: Paddr) {
    || (start >= e.start && start <= e.end)
    || (end >= e.start && end <= e.end)
    || (start <= e.start && end >= e.end)
  }

  predicate Between(lo: Paddr, x: Paddr, hi: Paddr) { lo <= x <= hi }

  /** Together they mean that entry and range share an address. */
  lemma OverlapExact(e: Entry, start: Paddr, end: Paddr)
    requires start <= end && e.start <= e.end
    ensures Overlaps(e, start, end) <==> exists x :: Between(start, x, end) && Between(e.start, x, e.end)
  {
    if Overlaps(e, start, end) {
      var x := if start >= e.start then start else e.start;
      assert Between(start, x, end) && Between(e.start, x, e.end);
    }
  }

  /** The part of entry i inside [start, end]. */
  function Clip(es: seq<Entry>, i: nat, start: Paddr, end: Paddr): Range
    requires i < |es|
  {
    Range(if es[i].start > start then es[i].start else start,
          if es[i].end < end then es[i].end else end, i)
  }

  predicate Candidate(es: seq<Entry>, i: nat, start: Paddr, end: Paddr, name: string)
    requires WellFormed(es)
  {
    i < |es| && Matches(es, i, name) && Overlaps(es[i], start, end)
  }

  /** Table discipline: inside the range, a later matching entry lies within or apart from every
      earlier one. */
  predicate Nested(es: seq<Entry>, start: Paddr, end: Paddr, name: string)
    requires WellFormed(es)
  {
    forall i: nat, j: nat :: i < j < |es| && Candidate(es, i, start, end, name) && Candidate(es, j, start, end, name) ==>
      Inside(Clip(es, j, start, end), Clip(es, i, start, end)) ||
      Apart(Clip(es, j, start, end), Clip(es, i, start, end))
  }

  /** The innermost owner: the last of the first n matching entries that covers x. */
  function LastMatch(es: seq<Entry>, n: nat, name: string, x: Paddr): (r: Option<nat>)
    requires WellFormed(es) && n <= |es|
    ensures r.Some? ==> r.value < n && Matches(es, r.value, name) && es[r.value].start <= x <= es[r.value].end
    ensures r.Some? ==> forall i :: r.value < i < n && Matches(es, i, name) ==> !(es[i].start <= x <= es[i].end)
    ensures r.None? ==> forall i :: 0 <= i < n && Matches(es, i, name) ==> !(es[i].start <= x <= es[i].end)
  {
    if n == 0 then None
    else if Matches(es, n - 1, name) && es[n - 1].start <= x <= es[n - 1].end then Some(n - 1)
    else LastMatch(es, n - 1, name, x)
  }

  /** Who should own x after the range has been added. */
  function WantedOwner(es: seq<Entry>, n: nat, start: Paddr, end: Paddr, name: string, x: Paddr): Option<nat>
    requires WellFormed(es) && n <= |es|
  {
    if start <= x <= end then LastMatch(es, n, name, x) else None
  }

  // ---------- the claims a table makes on a range ----------

  /** The parts of the range that the first n entries claim, in the order of the table. */
  function Claims(es: seq<Entry>, n: nat, start: Paddr, end: Paddr, name: string): seq<Range>
    requires WellFormed(es) && n <= |es|
  {
    if n == 0 then []
    else Claims(es, n - 1, start, end, name) +
         if Candidate(es, n - 1, start, end, name) then [Clip(es, n - 1, start, end)] else []
  }

  /** The list when the first n entries have claimed their parts. */
  function Claimed(es: seq<Entry>, n: nat, start: Paddr, end: Paddr, name: string): seq<Range>
    requires WellFormed(es) && n <= |es|
  {
    InsertAll([], Claims(es, n, start, end, name))
  }

  /** Every entry claims its part cleanly. */
  ghost predicate ClaimsCleanly(es: seq<Entry>, start: Paddr, end: Paddr, name: string)
    requires WellFormed(es)
  {
    AllClean([], Claims(es, |es|, start, end, name))
  }

  lemma {:induction false} ClaimedNext(es: seq<Entry>, n: nat, start: Paddr, end: Paddr, name: string)
    requires WellFormed(es) && n < |es|
    ensures Claimed(es, n + 1, start, end, name) ==
              if Candidate(es, n, start, end, name)
              then Insert(Claimed(es, n, start, end, name), Clip(es, n, start, end))
              else Claimed(es, n, start, end, name)
  {
    hide Insert, Candidate, Clip;
    var before, after := Claims(es, n, start, end, name), Claims(es, n + 1, start, end, name);
    if Candidate(es, n, start, end, name) {
      assert after == before + [Clip(es, n, start, end)];
      assert after[..|after| - 1] == before;
    } else {
      assert after == before + [];
      assert after == before;
    }
  }

  lemma {:induction false} ClaimedSkips(es: seq<Entry>, n: nat, m: nat, start: Paddr, end: Paddr, name: string)
    requires WellFormed(es) && n <= m <= |es|
    requires forall i: nat :: n <= i < m ==> !Candidate(es, i, start, end, name)
    ensures Claimed(es, m, start, end, name) == Claimed(es, n, start, end, name)
    decreases m
  {
    hide Candidate, Claimed;
    if n < m {
      ClaimedSkips(es, n, m - 1, start, end, name);
      ClaimedNext(es, m - 1, start, end, name);
    }
  }

  lemma {:induction false} ClaimsProper(es: seq<Entry>, n: nat, start: Paddr, end: Paddr, name: string)
    requires WellFormed(es) && n <= |es| && start <= end
    ensures forall p :: p in Claims(es, n, start, end, name) ==> p.start <= p.end && p.owner < n
  {
    if n > 0 {
      ClaimsProper(es, n - 1, start, end, name);
    }
  }

  /** Owners are entries of the table. */
  lemma {:induction false} ClaimedOwners(es: seq<Entry>, n: nat, start: Paddr, end: Paddr, name: string)
    requires WellFormed(es) && n <= |es|
    ensures forall r :: r in Claimed(es, n, start, end, name) ==> r.owner < n
  {
    if n == 0 {
      NothingClaimed(es, start, end, name);
    } else {
      hide Claimed, Insert, Candidate;
      ClaimedOwners(es, n - 1, start, end, name);
      ClaimedNext(es, n - 1, start, end, name);
      if Candidate(es, n - 1, start, end, name) {
        InsertedOwners(Claimed(es, n - 1, start, end, name), Clip(es, n - 1, start, end), n);
      }
    }
  }

  lemma {:induction false} InsertedOwners(list: seq<Range>, p: Range, n: nat)
    requires p.owner < n && forall r :: r in list ==> r.owner < n
    ensures forall r :: r in Insert(list, p) ==> r.owner < n
  {
    if list != [] && !Covers(list[0], p.start) {
      InsertedOwners(list[1..], p, n);
    }
  }

  /** The pieces are disjoint if and only if every entry claims its part cleanly. */
  lemma {:induction false} ClaimedExact(es: seq<Entry>, start: Paddr, end: Paddr, name: string)
    requires WellFormed(es) && start <= end
    ensures Disjoint(NonEmpty(Claimed(es, |es|, start, end, name))) <==> ClaimsCleanly(es, start, end, name)
  {
    hide Sound, Disjoint, NonEmpty, AllClean, Claims, Insert;
    ClaimsProper(es, |es|, start, end, name);
    NothingIsSound();
    InsertAllExact([], Claims(es, |es|, start, end, name));
    NonEmptyDisjoint(Claimed(es, |es|, start, end, name));
  }

  lemma NothingIsSound()
    ensures Sound([])
  {
  }

  /** Disjoint pieces have the innermost owners. */
  lemma {:induction false} SoundOwners(es: seq<Entry>, n: nat, start: Paddr, end: Paddr, name: string, x: Paddr)
    requires WellFormed(es) && n <= |es| && start <= end && Sound(Claimed(es, n, start, end, name))
    ensures OwnerAt(Claimed(es, n, start, end, name), x) == WantedOwner(es, n, start, end, name, x)
  {
    hide Sound, Clean, Insert, Claimed;
    if n == 0 {
      hide OwnerAt;
      assert Claimed(es, 0, start, end, name) == [] by { NothingClaimed(es, start, end, name); }
      OwnerAtFirst(Range(0, 0, 0), [], x);
    } else {
      ClaimedNext(es, n - 1, start, end, name);
      var list, p := Claimed(es, n - 1, start, end, name), Clip(es, n - 1, start, end);
      if Candidate(es, n - 1, start, end, name) {
        CandidateClip(es, n - 1, start, end, name, x);
        if !Sound(list) {
          NeverRecovers(list, p);
        }
        InsertExact(list, p);
        SoundOwners(es, n - 1, start, end, name, x);
        InsertOwners(list, p, x);
      } else {
        SoundOwners(es, n - 1, start, end, name, x);
        NotCandidate(es, n - 1, start, end, name, x);
      }
    }
  }

  lemma {:induction false} NothingClaimed(es: seq<Entry>, start: Paddr, end: Paddr, name: string)
    requires WellFormed(es)
    ensures Claimed(es, 0, start, end, name) == []
  {
  }

  lemma {:induction false} CandidateClip(es: seq<Entry>, i: nat, start: Paddr, end: Paddr, name: string, x: Paddr)
    requires WellFormed(es) && start <= end && Candidate(es, i, start, end, name)
    ensures var p := Clip(es, i, start, end);
            && p.start <= p.end && p.owner == i
            && (Covers(p, x) <==> start <= x <= end && es[i].start <= x <= es[i].end)
            && (Covers(p, x) ==> WantedOwner(es, i + 1, start, end, name, x) == Some(i))
            && (!Covers(p, x) ==> WantedOwner(es, i + 1, start, end, name, x) == WantedOwner(es, i, start, end, name, x))
  {
  }

  lemma {:induction false} NotCandidate(es: seq<Entry>, i: nat, start: Paddr, end: Paddr, name: string, x: Paddr)
    requires WellFormed(es) && start <= end && i < |es| && !Candidate(es, i, start, end, name)
    ensures WantedOwner(es, i + 1, start, end, name, x) == WantedOwner(es, i, start, end, name, x)
  {
  }

  /** In a nested table every entry claims its part cleanly: each claim fits the list it finds. */
  lemma {:induction false} NestedFits(es: seq<Entry>, n: nat, start: Paddr, end: Paddr, name: string)
    requires WellFormed(es) && n <= |es| && start <= end && Nested(es, start, end, name)
    ensures Disjoint(Claimed(es, n, start, end, name))
    ensures forall k: nat :: n <= k && Candidate(es, k, start, end, name) ==>
              Fits(Claimed(es, n, start, end, name), Clip(es, k, start, end))
  {
    hide Claimed, Insert, Disjoint, Fits, Candidate, Clip;
    if n == 0 {
      NothingClaimed(es, start, end, name);
      NothingFits();
    } else {
      NestedFits(es, n - 1, start, end, name);
      ClaimedNext(es, n - 1, start, end, name);
      if Candidate(es, n - 1, start, end, name) {
        NestedStep(es, n - 1, start, end, name, Claimed(es, n - 1, start, end, name));
      }
    }
  }

  lemma NothingFits()
    ensures Disjoint([]) && forall p :: Fits([], p)
  {
  }

  lemma {:induction false} NestedStep(es: seq<Entry>, n: nat, start: Paddr, end: Paddr, name: string, list: seq<Range>)
    requires WellFormed(es) && start <= end && Nested(es, start, end, name) && Candidate(es, n, start, end, name)
    requires Disjoint(list)
    requires forall k: nat :: n <= k && Candidate(es, k, start, end, name) ==> Fits(list, Clip(es, k, start, end))
    ensures var out := Insert(list, Clip(es, n, start, end));
            && Disjoint(out)
            && forall k: nat :: n < k && Candidate(es, k, start, end, name) ==> Fits(out, Clip(es, k, start, end))
  {
    var p := Clip(es, n, start, end);
    InsertDisjoint(list, p);
    forall k: nat | n < k && Candidate(es, k, start, end, name)
      ensures Fits(Insert(list, p), Clip(es, k, start, end))
    {
      InsertFits(list, p, Clip(es, k, start, end));
    }
  }

  lemma {:induction false} NestedClaimsCleanly(es: seq<Entry>, start: Paddr, end: Paddr, name: string)
    requires WellFormed(es) && start <= end && Nested(es, start, end, name)
    ensures ClaimsCleanly(es, start, end, name)
  {
    NestedFits(es, |es|, start, end, name);
    ClaimedExact(es, start, end, name);
    DisjointIsSound(Claimed(es, |es|, start, end, name));
    NonEmptyDisjoint(Claimed(es, |es|, start, end, name));
    hide *;
  }

  lemma DisjointIsSound(list: seq<Range>)
    requires Disjoint(list)
    ensures Sound(list)
  {
  }

  predicate SameButKids(a: Entry, b: Entry) {
    a == b.(attr := b.attr.(kids := a.attr.kids)) && (b.attr.kids ==> a.attr.kids)
  }

  /** Index of the last entry of the CONTINUED chain that starts at off. */
  function ChainEnd(es: seq<Entry>, off: nat): (r: nat)
    requires off < |es|
    ensures off <= r < |es|
    ensures forall i :: off <= i < r ==> es[i].attr.continued
    ensures es[r].attr.continued ==> r == |es| - 1
    decreases |es| - off
  {
    if es[off].attr.continued && off + 1 < |es| then ChainEnd(es, off + 1) else off
  }

  lemma {:induction false} ChainEndAt(es: seq<Entry>, off: nat, last: nat)
    requires off <= last < |es| && !es[last].attr.continued
    requires forall i :: off <= i < last ==> es[i].attr.continued
    ensures ChainEnd(es, off) == last
    decreases last - off
  {
    if off < last {
      ChainEndAt(es, off + 1, last);
    }
  }

  class Table {
    var entries: seq<Entry>
    const defaultPriority: int

    constructor (priority: int)
      ensures entries == []
    {
      entries, defaultPriority := [], priority;
    }

    // ---------- searching ----------

    method MatchName(i: nat, name: string) returns (r: bool)
      requires WellFormed(entries) && i < |entries|
      ensures r == Matches(entries, i, name)
      ensures r <==> LeadsTo(entries, i, name)
    {
      MatchesByPath(entries, i, name);
      hide LeadsTo;
      var k: nat := i;
      while true
        invariant k < |entries| && Matches(entries, i, name) == Matches(entries, k, name)
        decreases k
      {
        if entries[k].name == name {
          return true;
        }
        if entries[k].owner.None? {
          return false;
        }
        k := entries[k].owner.value;
      }
    }

    /** The first candidate after off, or at all. */
    method FindContaining(off: Option<nat>, start: Paddr, end: Paddr, name: string) returns (r: Option<nat>)
      requires WellFormed(entries)
      ensures r.Some? ==> Candidate(entries, r.value, start, end, name) && (off.Some? ==> off.value < r.value)
      ensures forall i: nat :: i < (if r.Some? then r.value else |entries|) && (off.Some? ==> off.value < i) ==>
                !Candidate(entries, i, start, end, name)
    {
      var i := if off.Some? then off.value + 1 else 0;
      while i < |entries|
        invariant off.Some? ==> off.value < i
        invariant forall k: nat :: k < i && (off.Some? ==> off.value < k) ==>
                    !Candidate(entries, k, start, end, name)
      {
        var m := MatchName(i, name);
        if m {
          if start >= entries[i].start && start <= entries[i].end {
            return Some(i);
          }
          if end >= entries[i].start && end <= entries[i].end {
            return Some(i);
          }
          if start <= entries[i].start && end >= entries[i].end {
            return Some(i);
          }
        }
        i := i + 1;
      }
      return None;
    }

    // ---------- the split list ----------

    /** The ranges and owners for [start, end]. */
    method SplitByOwners(start: Paddr, end: Paddr, name: string) returns (list: seq<Range>)
      requires WellFormed(entries) && start <= end
      ensures list == Claimed(entries, |entries|, start, end, name)
    {
      list := [];
      var owner: Option<nat> := None;
      ghost var n := 0;
      NothingClaimed(entries, start, end, name);
      hide *;
      while true
        invariant n <= |entries| && n == (if owner.Some? then owner.value + 1 else 0)
        invariant list == Claimed(entries, n, start, end, name)
        decreases |entries| - n
      {
        var next := FindContaining(owner, start, end, name);
        if next.None? {
          ClaimedSkips(entries, n, |entries|, start, end, name);
          break;
        }
        ClaimedSkips(entries, n, next.value, start, end, name);
        ClaimedNext(entries, next.value, start, end, name);
        list := InsertPiece(list, Clip(entries, next.value, start, end));
        owner := next;
        n := next.value + 1;
      }
    }

    // ---------- adding ----------

    /** Appends an entry without overlay and marks its owner as having kids. */
    method Append(start: Paddr, end: Paddr, attr: Attr, name: string, owner: Option<nat>)
      requires WellFormed(entries) && start <= end && (owner.Some? ==> owner.value < |entries|)
      requires !attr.overlayIo
      modifies this
      ensures WellFormed(entries)
      ensures entries == Marked(old(entries), owner) + [Entry(start, end, owner, name, attr, defaultPriority)]
    {
      entries := entries + [Entry(start, end, owner, name, attr, defaultPriority)];
      if owner.Some? {
        entries := entries[owner.value := WithKids(entries[owner.value])];
      }
    }

    /** Appends an entry and, if asked, an overlay entry "io" owned by it. */
    method AsAdd(start: Paddr, end: Paddr, attr: Attr, name: string, owner: Option<nat>) returns (off: nat)
      requires WellFormed(entries) && start <= end && (owner.Some? ==> owner.value < |entries|)
      modifies this
      ensures WellFormed(entries) && off == |old(entries)|
      ensures var plain := attr.(overlayIo := false);
              var first := Entry(start, end, owner, name, plain, defaultPriority);
              entries == if attr.overlayIo
                         then Marked(old(entries), owner) +
                              [WithKids(first), Entry(start, end, Some(off), "io", plain, defaultPriority)]
                         else Marked(old(entries), owner) + [first]
    {
      off := |entries|;
      Append(start, end, attr.(overlayIo := false), name, owner);
      if attr.overlayIo {
        Append(start, end, attr.(overlayIo := false), "io", Some(off));
      }
    }

    /** The table entry of a piece, as first written. */
    function PieceEntry(r: Range, attr: Attr, name: string, last: bool): Entry {
      Entry(r.start, r.end, Some(r.owner), name,
            attr.(overlayIo := false, continued := !last), defaultPriority)
    }

    /** The overlay entry of the piece at index off. */
    function OverlayEntry(r: Range, attr: Attr, name: string, off: nat): Entry {
      Entry(r.start, r.end, Some(off), name, attr.(overlayIo := false), defaultPriority)
    }

    /** From index off on: the pieces as one chain, with kids if they got overlays. */
    ghost predicate IsChain(es: seq<Entry>, off: nat, pieces: seq<Range>, attr: Attr, name: string) {
      && off + |pieces| <= |es|
      && forall i :: 0 <= i < |pieces| ==>
           var e := PieceEntry(pieces[i], attr, name, i == |pieces| - 1);
           es[off + i] == if attr.overlayIo then WithKids(e) else e
    }

    method AsAddContaining(start: Paddr, end: Paddr, attr: Attr, name: string, container: string)
      returns (off: Option<nat>, ghost pieces: seq<Range>)
      requires WellFormed(entries) && start <= end
      modifies this
      ensures WellFormed(entries)
      // the pieces: disjoint exactly if every entry claims its part cleanly, as those of a nested
      // table do, and then each address has exactly the wanted owner
      ensures pieces == NonEmpty(Claimed(old(entries), |old(entries)|, start, end, container))
      ensures Disjoint(pieces) <==> ClaimsCleanly(old(entries), start, end, container)
      ensures Nested(old(entries), start, end, container) ==> Disjoint(pieces)
      ensures Disjoint(pieces) ==>
                forall x :: OwnerAt(pieces, x) ==
                            WantedOwner(old(entries), |old(entries)|, start, end, container, x)
      // the table: the pieces as one chain, then their overlays, and the old entries
      ensures off == if pieces == [] then None else Some(|old(entries)|)
      ensures |entries| == |old(entries)| + |pieces| * (if attr.overlayIo then 2 else 1)
      ensures IsChain(entries, |old(entries)|, pieces, attr, name)
      ensures attr.overlayIo ==> forall i :: 0 <= i < |pieces| ==>
                entries[|old(entries)| + |pieces| + i] == OverlayEntry(pieces[i], attr, name, |old(entries)| + i)
      ensures forall k :: 0 <= k < |old(entries)| ==> SameButKids(entries[k], old(entries[k]))
    {
      hide *;
      PiecesAsWanted(entries, start, end, container);
      ClaimedOwners(entries, |entries|, start, end, container);
      var list := SplitByOwners(start, end, container);
      pieces := NonEmpty(list);
      off := EmitChain(list, attr, name);
      if off.Some? && attr.overlayIo {
        AddOverlays(off.value, attr, name, pieces);
      }
      ChainIs(entries, |old(entries)|, pieces, attr, name);
    }

    /** Weaker views used to combine the two phases. */
    lemma ChainIs(es: seq<Entry>, off: nat, pieces: seq<Range>, attr: Attr, name: string)
      requires off + |pieces| <= |es|
      requires forall i :: 0 <= i < |pieces| ==>
                 var e := PieceEntry(pieces[i], attr, name, i == |pieces| - 1);
                 es[off + i] == if attr.overlayIo then WithKids(e) else e
      ensures IsChain(es, off, pieces, attr, name)
    {
    }

    method AddPiece(r: Range, attr: Attr, name: string) returns (off: nat)
      requires WellFormed(entries) && r.start <= r.end && r.owner < |entries|
      modifies this
      ensures WellFormed(entries) && off == |old(entries)| && |entries| == off + 1
      ensures entries[off] == PieceEntry(r, attr, name, false)
      ensures forall k :: 0 <= k < off ==> SameButKids(entries[k], old(entries[k]))
      ensures forall k :: r.owner < k < off ==> entries[k] == old(entries[k])
    {
      off := AsAdd(r.start, r.end, attr.(overlayIo := false, continued := true), name, Some(r.owner));
    }

    /** Adds one entry per range that is not empty and ends the chain after the last. */
    method EmitChain(list: seq<Range>, attr: Attr, name: string) returns (off: Option<nat>)
      requires WellFormed(entries)
      requires forall r :: r in list ==> r.owner < |entries|
      modifies this
      ensures var pieces := NonEmpty(list);
              && WellFormed(entries) && |entries| == |old(entries)| + |pieces|
              && off == (if pieces == [] then None else Some(|old(entries)|))
              && forall i :: 0 <= i < |pieces| ==>
                   entries[|old(entries)| + i] == PieceEntry(pieces[i], attr, name, i == |pieces| - 1)
      ensures forall k :: 0 <= k < |old(entries)| ==> SameButKids(entries[k], old(entries[k]))
    {
      hide NonEmpty;
      off := None;
      ghost var n0, done := |entries|, [];
      var last := 0;
      NonEmptyNext(list);
      for i := 0 to |list|
        invariant WellFormed(entries) && done == NonEmpty(list[..i]) && |entries| == n0 + |done|
        invariant forall k :: 0 <= k < |done| ==> entries[n0 + k] == PieceEntry(done[k], attr, name, false)
        invariant forall k :: 0 <= k < n0 ==> SameButKids(entries[k], old(entries[k]))
        invariant off == if done == [] then None else Some(n0)
        invariant done != [] ==> last == n0 + |done| - 1
      {
        assert list[i] in list;
        if list[i].start <= list[i].end {
          last := AddPiece(list[i], attr, name);
          if off == None {
            off := Some(last);
          }
          done := done + [list[i]];
        }
      }
      assert list[..|list|] == list;
      if off.Some? {
        entries := entries[last := entries[last].(attr := entries[last].attr.(continued := false))];
      }
    }

    lemma NonEmptyNext(list: seq<Range>)
      ensures NonEmpty(list[..0]) == []
      ensures forall i :: 0 <= i < |list| ==>
                NonEmpty(list[..i + 1]) == NonEmpty(list[..i]) + if Empty(list[i]) then [] else [list[i]]
    {
      forall i | 0 <= i < |list|
        ensures NonEmpty(list[..i + 1]) == NonEmpty(list[..i]) + if Empty(list[i]) then [] else [list[i]]
      {
        assert list[..i + 1][..i] == list[..i];
      }
    }

    /** One overlay entry per piece of the chain, appended behind it. */
    method AddOverlays(off: nat, attr: Attr, name: string, ghost pieces: seq<Range>)
      requires WellFormed(entries) && pieces != [] && |entries| == off + |pieces|
      requires forall i :: 0 <= i < |pieces| ==>
                 entries[off + i] == PieceEntry(pieces[i], attr, name, i == |pieces| - 1)
      modifies this
      ensures WellFormed(entries) && |entries| == off + 2 * |pieces|
      ensures forall i :: 0 <= i < |pieces| ==>
                entries[off + i] == WithKids(PieceEntry(pieces[i], attr, name, i == |pieces| - 1))
      ensures forall i :: 0 <= i < |pieces| ==>
                entries[off + |pieces| + i] == OverlayEntry(pieces[i], attr, name, off + i)
      ensures forall k :: 0 <= k < off ==> entries[k] == old(entries[k])
    {
      ghost var n, base := |pieces|, entries;
      var k := off;
      while true
        invariant off <= k < off + n && |entries| == n + k && WellFormed(entries)
        invariant forall i :: 0 <= i < off + n ==>
                    entries[i] == if off <= i < k then WithKids(base[i]) else base[i]
        invariant forall i :: 0 <= i < k - off ==>
                    entries[off + n + i] == OverlayEntry(pieces[i], attr, name, off + i)
        decreases off + n - k
      {
        assert entries[k] == PieceEntry(pieces[k - off], attr, name, k - off == n - 1);
        AddOverlay(k, attr, name);
        if !entries[k].attr.continued {
          return;
        }
        k := k + 1;
      }
    }

    method AddOverlay(k: nat, attr: Attr, name: string)
      requires WellFormed(entries) && k < |entries|
      modifies this
      ensures WellFormed(entries)
      ensures entries == old(entries)[k := WithKids(old(entries)[k])] +
                         [Entry(old(entries)[k].start, old(entries)[k].end, Some(k), name,
                                attr.(overlayIo := false), defaultPriority)]
    {
      var e := entries[k];
      Append(e.start, e.end, attr.(overlayIo := false), name, Some(k));
    }

    lemma PieceContinues(es: seq<Entry>, off: nat, pieces: seq<Range>, attr: Attr, name: string, i: nat)
      requires IsChain(es, off, pieces, attr, name) && i < |pieces|
      ensures es[off + i].attr.continued <==> i < |pieces| - 1
    {
      var e := PieceEntry(pieces[i], attr, name, i == |pieces| - 1);
      assert es[off + i] == if attr.overlayIo then WithKids(e) else e;
    }

    /** The chain that starts at the first piece ends at the last one. */
    lemma {:induction false} ChainOfPieces(es: seq<Entry>, off: nat, pieces: seq<Range>, attr: Attr, name: string)
      requires IsChain(es, off, pieces, attr, name) && pieces != []
      ensures ChainEnd(es, off) == off + |pieces| - 1 && !es[off + |pieces| - 1].attr.continued
    {
      forall k | off <= k < off + |pieces| - 1 ensures es[k].attr.continued {
        PieceContinues(es, off, pieces, attr, name, k - off);
      }
      PieceContinues(es, off, pieces, attr, name, |pieces| - 1);
      ChainEndAt(es, off, off + |pieces| - 1);
    }

    /** Sets the priority of the chain starting at off and of nothing else. */
    method SetPriority(off: nat, priority: int)
      requires off < |entries| && !entries[ChainEnd(entries, off)].attr.continued
      modifies this
      ensures |entries| == |old(entries)|
      ensures forall k :: 0 <= k < |entries| ==>
                entries[k] == if off <= k <= old(ChainEnd(entries, off)) then old(entries[k]).(priority := priority)
                              else old(entries[k])
    {
      var k := off;
      ghost var last := ChainEnd(entries, off);
      while true
        invariant off <= k <= last < |entries| == |old(entries)|
        invariant forall i :: 0 <= i < |entries| ==>
                    entries[i] == if off <= i < k then old(entries[i]).(priority := priority) else old(entries[i])
        decreases last - k
      {
        entries := entries[k := entries[k].(priority := priority)];
        if !entries[k].attr.continued {
          return;
        }
        k := k + 1;
      }
    }
  }

  function Marked(es: seq<Entry>, owner: Option<nat>): seq<Entry>
    requires owner.Some? ==> owner.value < |es|
  {
    if owner.Some? then es[owner.value := WithKids(es[owner.value])] else es
  }

  function WithKids(e: Entry): Entry { e.(attr := e.attr.(kids := true)) }

  /** Read back from the table: a piece covers x exactly when x is in the range and some matching
      entry covers it, no two pieces share an address, and the piece's owner is the innermost one. */
  lemma {:induction false} PiecesPartitionRange(es: seq<Entry>, pieces: seq<Range>, start: Paddr, end: Paddr, name: string,
                                                x: Paddr)
    requires WellFormed(es) && Disjoint(pieces)
    requires OwnerAt(pieces, x) == WantedOwner(es, |es|, start, end, name, x)
    ensures (exists i :: 0 <= i < |pieces| && Covers(pieces[i], x)) <==>
            (start <= x <= end && exists i :: 0 <= i < |es| && Matches(es, i, name) && es[i].start <= x <= es[i].end)
    ensures forall i, j :: 0 <= i < |pieces| && 0 <= j < |pieces| && Covers(pieces[i], x) && Covers(pieces[j], x) ==> i == j
    ensures forall i :: 0 <= i < |pieces| && Covers(pieces[i], x) ==>
              Some(pieces[i].owner) == LastMatch(es, |es|, name, x)
  {
    OwnerAtNone(pieces, x);
    forall i | 0 <= i < |pieces| && Covers(pieces[i], x)
      ensures OwnerAt(pieces, x) == Some(pieces[i].owner)
    {
      OwnerAtIndex(pieces, i, x);
    }
  }

  lemma {:induction false} OwnerAtIndex(list: seq<Range>, i: nat, x: Paddr)
    requires Disjoint(list) && i < |list| && Covers(list[i], x)
    ensures OwnerAt(list, x) == Some(list[i].owner)
  {
    if i > 0 {
      assert Apart(list[0], list[i]);
      OwnerAtIndex(list[1..], i - 1, x);
    }
  }

  function Ram(start: Paddr, end: Paddr): Entry {
    Entry(start, end, None, "ram", Attr(false, false, false, 0), 0)
  }

  /** Without nesting the pieces may overlap: a third entry across two neighbours claims its part of
      the first one but leaves its part of the second one where it is. */
  lemma UnnestedEntriesOverlap()
    ensures var es := [Ram(0, 10), Ram(11, 20), Ram(5, 15)];
            && WellFormed(es) && !Nested(es, 0, 20, "ram")
            && !Disjoint(NonEmpty(Claimed(es, 3, 0, 20, "ram")))
  {
    var es := [Ram(0, 10), Ram(11, 20), Ram(5, 15)];
    ThreeClaims(es);
    var list, p := [Range(0, 10, 0), Range(11, 20, 1)], Range(5, 15, 2);
    hide Claimed, Insert, Candidate;
    NonEmptyDisjoint(Insert(list, p));
    InsertExact(list, p);
    assert !Clear(p, list[0]) && !Clear(p, list[1]);
  }

  lemma {:induction false} ThreeClaims(es: seq<Entry>)
    requires es == [Ram(0, 10), Ram(11, 20), Ram(5, 15)]
    ensures WellFormed(es) && !Nested(es, 0, 20, "ram")
    ensures Claimed(es, 3, 0, 20, "ram") == Insert([Range(0, 10, 0), Range(11, 20, 1)], Range(5, 15, 2))
  {
    assert Candidate(es, 0, 0, 20, "ram") && Candidate(es, 1, 0, 20, "ram") && Candidate(es, 2, 0, 20, "ram");
    assert Clip(es, 0, 0, 20) == Range(0, 10, 0) && Clip(es, 1, 0, 20) == Range(11, 20, 1);
    assert Clip(es, 2, 0, 20) == Range(5, 15, 2);
    assert Insert([], Range(0, 10, 0)) == [Range(0, 10, 0)];
    InsertAt([Range(0, 10, 0)], Range(11, 20, 1), 1);
    hide Claimed, Insert, Candidate, Clip;
    NothingClaimed(es, 0, 20, "ram");
    ClaimedNext(es, 0, 0, 20, "ram");
    ClaimedNext(es, 1, 0, 20, "ram");
    ClaimedNext(es, 2, 0, 20, "ram");
  }

  /** What the three lemmas above say about the pieces as they are emitted. */
  lemma {:induction false} PiecesAsWanted(es: seq<Entry>, start: Paddr, end: Paddr, name: string)
    requires WellFormed(es) && start <= end
    ensures var pieces := NonEmpty(Claimed(es, |es|, start, end, name));
            && (Disjoint(pieces) <==> ClaimsCleanly(es, start, end, name))
            && (Nested(es, start, end, name) ==> Disjoint(pieces))
            && (Disjoint(pieces) ==> forall x :: OwnerAt(pieces, x) == WantedOwner(es, |es|, start, end, name, x))
  {
    hide *;
    var list := Claimed(es, |es|, start, end, name);
    ClaimedExact(es, start, end, name);
    NonEmptyDisjoint(list);
    if Nested(es, start, end, name) {
      NestedClaimsCleanly(es, start, end, name);
    }
    if Sound(list) {
      forall x ensures OwnerAt(NonEmpty(list), x) == WantedOwner(es, |es|, start, end, name, x) {
        NonEmptyOwner(list, x);
        SoundOwners(es, |es|, start, end, name, x);
      }
    }
  }

  /** An entry without the name is the innermost owner if an owner of it has the name: RAM inside a
      memory of 4 GiB owns what is added inside "memory". */
  lemma {:induction false} OwnersAreClimbed(x: Paddr)
    requires 0x1000 <= x <= 0x1fff
    ensures var memory := Entry(0, 0xFFFF_FFFF, None, "memory", Attr(false, false, false, 0), 0);
            var ram := Ram(0, 0x3FFF_FFFF).(owner := Some(0));
            var es := [memory, ram];
            && WellFormed(es) && Nested(es, 0x1000, 0x1fff, "memory")
            && OwnerAt(NonEmpty(Claimed(es, 2, 0x1000, 0x1fff, "memory")), x) == Some(1)
  {
    var memory := Entry(0, 0xFFFF_FFFF, None, "memory", Attr(false, false, false, 0), 0);
    var ram := Ram(0, 0x3FFF_FFFF).(owner := Some(0));
    var es := [memory, ram];
    assert es[1].owner == Some(0) && es[0].name == "memory" && WellFormed(es);
    assert Matches(es, 0, "memory");
    assert Matches(es, 1, "memory");
    assert LastMatch(es, 2, "memory", x) == Some(1);
    assert Clip(es, 0, 0x1000, 0x1fff) == Range(0x1000, 0x1fff, 0);
    assert Clip(es, 1, 0x1000, 0x1fff) == Range(0x1000, 0x1fff, 1);
    assert Nested(es, 0x1000, 0x1fff, "memory");
    hide Claimed, NonEmpty, OwnerAt, Nested, LastMatch, Matches, Disjoint;
    PiecesAsWanted(es, 0x1000, 0x1fff, "memory");
  }
}
