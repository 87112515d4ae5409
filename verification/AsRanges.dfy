/** The address-space table and as_add_containing: a range is split along the table entries that
    contain it, so that every piece is owned by the innermost matching entry. */
module AsRanges {
  import opened Common

  /** A physical address. */
  newtype Paddr = x: int | 0 <= x < 0x1_0000_0000_0000_0000

  const MAX_PADDR: Paddr := 0xFFFF_FFFF_FFFF_FFFF

  /** Attribute bits: the CONTINUED and KIDS bits, the request for an overlay entry, and the rest. */
  datatype Attr = Attr(continued: bool, kids: bool, overlayIo: bool, rest: nat)

  /** owner None is AS_NULL_OFF; offsets are counted in entries. */
  datatype Entry = Entry(start: Paddr, end: Paddr, owner: Option<nat>, name: string, attr: Attr,
                         priority: int)

  datatype Range = Range(start: Paddr, end: Paddr, owner: nat)

  predicate WellFormed(es: seq<Entry>) {
    forall i :: 0 <= i < |es| ==>
      es[i].start <= es[i].end && (es[i].owner.Some? ==> es[i].owner.value < i)
  }

  /** The entry or one of its owners has the name. */
  predicate Matches(es: seq<Entry>, i: nat, name: string)
    requires WellFormed(es) && i < |es|
    decreases i
  {
    es[i].name == name || (es[i].owner.Some? && Matches(es, es[i].owner.value, name))
  }

  /** The path starts at i and goes from each entry to its owner. */
  ghost predicate OwnerPath(es: seq<Entry>, path: seq<nat>, i: nat) {
    && path != [] && path[0] == i && (forall k :: 0 <= k < |path| ==> path[k] < |es|)
    && forall k :: 0 < k < |path| ==> es[path[k - 1]].owner == Some(path[k])
  }

  /** Some path from i leads up to an entry with the name. */
  ghost predicate LeadsTo(es: seq<Entry>, i: nat, name: string) {
    exists path :: OwnerPath(es, path, i) && es[path[|path| - 1]].name == name
  }

  /** The climb finds exactly the names on the way up the owners. */
  lemma {:induction false} MatchesByPath(es: seq<Entry>, i: nat, name: string)
    requires WellFormed(es) && i < |es|
    ensures Matches(es, i, name) <==> LeadsTo(es, i, name)
    decreases i
  {
    if es[i].name == name {
      assert OwnerPath(es, [i], i);
    } else if es[i].owner.Some? {
      var up := es[i].owner.value;
      MatchesByPath(es, up, name);
      if LeadsTo(es, up, name) {
        var path :| OwnerPath(es, path, up) && es[path[|path| - 1]].name == name;
        assert OwnerPath(es, [i] + path, i);
      }
    }
    if es[i].name != name && LeadsTo(es, i, name) {
      PathGoesOn(es, i, name);
    }
  }

  lemma PathGoesOn(es: seq<Entry>, i: nat, name: string)
    requires WellFormed(es) && i < |es| && LeadsTo(es, i, name) && es[i].name != name
    ensures es[i].owner.Some? && LeadsTo(es, es[i].owner.value, name)
  {
    var path :| OwnerPath(es, path, i) && es[path[|path| - 1]].name == name;
    assert |path| > 1 && es[path[0]].owner == Some(path[1]);
    assert OwnerPath(es, path[1..], path[1]);
  }

  // ---------- intervals ----------

  predicate Inside(r: Range, outer: Range) { outer.start <= r.start && r.end <= outer.end }

  predicate Apart(r: Range, s: Range) { r.end < s.start || s.end < r.start }

  predicate Covers(r: Range, x: Paddr) { r.start <= x <= r.end }

  /** p lies within or apart from every range of the list. */
  predicate Fits(list: seq<Range>, p: Range) {
    forall i :: 0 <= i < |list| ==> Inside(p, list[i]) || Apart(p, list[i])
  }

  predicate Disjoint(list: seq<Range>) {
    && (forall i :: 0 <= i < |list| ==> list[i].start <= list[i].end)
    && (forall i, j :: 0 <= i < j < |list| ==> Apart(list[i], list[j]))
  }

  predicate Empty(r: Range) { r.start > r.end }

  /** p and r share no address. */
  predicate Clear(p: Range, r: Range) { Empty(r) || Apart(p, r) }

  /** No two ranges share an address. */
  predicate Sound(list: seq<Range>) {
    forall i, j :: 0 <= i < j < |list| ==> Empty(list[i]) || Empty(list[j]) || Apart(list[i], list[j])
  }

  /** p meets no range, or only the one that holds its start, from which p.end + 1 is still an address. */
  predicate Clean(list: seq<Range>, p: Range) {
    || (forall i :: 0 <= i < |list| ==> Clear(p, list[i]))
    || (exists i :: 0 <= i < |list| && OnlyMeets(list, p, i))
  }

  predicate OnlyMeets(list: seq<Range>, p: Range, i: nat)
    requires i < |list|
  {
    && Covers(list[i], p.start) && (p.end == MAX_PADDR ==> list[i].end == MAX_PADDR)
    && forall j :: 0 <= j < |list| && j != i ==> Clear(p, list[j])
  }

  /** Who owns x according to the list. */
  function OwnerAt(list: seq<Range>, x: Paddr): Option<nat> {
    if list == [] then None
    else if Covers(list[0], x) then Some(list[0].owner)
    else OwnerAt(list[1..], x)
  }

  // ---------- splitting ----------

  /** Unsigned + 1. */
  function Next(x: Paddr): Paddr {
    if x == MAX_PADDR then 0 else x + 1
  }

  /** What the first range reached at p.start turns into. If p reaches beyond it, a piece may be empty. */
  function Split(curr: Range, p: Range): (r: seq<Range>)
    requires Covers(curr, p.start)
  {
    if curr.start == p.start && curr.end == p.end then [curr.(owner := p.owner)]
    else if curr.start == p.start then [p, curr.(start := Next(p.end))]
    else if curr.end == p.end then [curr.(end := p.start - 1), p]
    else [curr.(end := p.start - 1), p, Range(Next(p.end), curr.end, curr.owner)]
  }

  lemma SplitInside(curr: Range, p: Range)
    requires curr.start <= curr.end && p.start <= p.end && Inside(p, curr)
    ensures Disjoint(Split(curr, p))
    ensures forall i :: 0 <= i < |Split(curr, p)| ==> Inside(Split(curr, p)[i], curr)
  {
  }

  lemma {:induction false} SplitOwners(curr: Range, p: Range, x: Paddr)
    requires p.start <= p.end && Covers(curr, p.start) && (p.end == MAX_PADDR ==> curr.end == MAX_PADDR)
    ensures OwnerAt(Split(curr, p), x) == if Covers(p, x) then Some(p.owner)
                                          else if Covers(curr, x) then Some(curr.owner) else None
  {
    OwnerAtThree(Split(curr, p), x);
  }

  lemma {:induction false} OwnerAtFirst(first: Range, rest: seq<Range>, x: Paddr)
    ensures OwnerAt([first] + rest, x) == if Covers(first, x) then Some(first.owner) else OwnerAt(rest, x)
    ensures OwnerAt([], x) == None
  {
    assert ([first] + rest)[1..] == rest;
  }

  lemma {:induction false} OwnerAtThree(r: seq<Range>, x: Paddr)
    requires 1 <= |r| <= 3
    ensures OwnerAt(r, x) == if Covers(r[0], x) then Some(r[0].owner)
                             else if |r| > 1 && Covers(r[1], x) then Some(r[1].owner)
                             else if |r| > 2 && Covers(r[2], x) then Some(r[2].owner)
                             else None
  {
    if |r| == 1 {
      OwnerAtFirst(r[0], [], x);
      assert r == [r[0]] + [];
    } else if |r| == 2 {
      OwnerAtFirst(r[1], [], x);
      OwnerAtFirst(r[0], [r[1]], x);
      assert r == [r[0]] + [r[1]] && [r[1]] == [r[1]] + [];
    } else {
      OwnerAtFirst(r[2], [], x);
      OwnerAtFirst(r[1], [r[2]], x);
      OwnerAtFirst(r[0], [r[1], r[2]], x);
      assert [r[2]] == [r[2]] + [] && [r[1], r[2]] == [r[1]] + [r[2]] && r == [r[0]] + [r[1], r[2]];
    }
  }

  /** The list after one matching entry has claimed p. */
  function Insert(list: seq<Range>, p: Range): (r: seq<Range>) {
    if list == [] then [p]
    else if Covers(list[0], p.start) then Split(list[0], p) + list[1..]
    else [list[0]] + Insert(list[1..], p)
  }

  lemma {:induction false} OwnerAtAppend(a: seq<Range>, b: seq<Range>, x: Paddr)
    ensures OwnerAt(a + b, x) == if OwnerAt(a, x).Some? then OwnerAt(a, x) else OwnerAt(b, x)
  {
    if a == [] {
      assert a + b == b;
    } else {
      assert (a + b)[1..] == a[1..] + b;
      OwnerAtAppend(a[1..], b, x);
    }
  }

  lemma {:induction false} OwnerAtNone(list: seq<Range>, x: Paddr)
    ensures OwnerAt(list, x).None? <==> forall i :: 0 <= i < |list| ==> !Covers(list[i], x)
  {
    if list != [] {
      OwnerAtNone(list[1..], x);
      if OwnerAt(list[1..], x).None? && !Covers(list[0], x) {
        forall i | 0 <= i < |list| ensures !Covers(list[i], x) {
          if i > 0 { assert list[i] == list[1..][i - 1]; }
        }
      }
      if (forall i :: 0 <= i < |list| ==> !Covers(list[i], x)) {
        forall i | 0 <= i < |list[1..]| ensures !Covers(list[1..][i], x) {
          assert list[1..][i] == list[i + 1];
        }
      }
    }
  }

  /** Every range of the new list is p, or part of a range of the old one apart from p. */
  lemma {:induction false} InsertParts(list: seq<Range>, p: Range)
    requires Disjoint(list) && Fits(list, p) && p.start <= p.end
    ensures forall r :: r in Insert(list, p) ==>
              (r.start == p.start && r.end == p.end && r.owner == p.owner) ||
              (Apart(r, p) && exists i :: 0 <= i < |list| && Inside(r, list[i]) && r.owner == list[i].owner)
  {
    if list != [] {
      var out := Insert(list, p);
      if Covers(list[0], p.start) {
        SplitInside(list[0], p);
        forall r | r in out && !(r.start == p.start && r.end == p.end && r.owner == p.owner)
          ensures Apart(r, p) && exists i :: 0 <= i < |list| && Inside(r, list[i]) && r.owner == list[i].owner
        {
          if r in list[1..] {
            var k :| 0 <= k < |list[1..]| && list[1..][k] == r;
            assert list[k + 1] == r && Apart(list[0], list[k + 1]);
          } else {
            assert Inside(r, list[0]);
          }
        }
      } else {
        InsertParts(list[1..], p);
        forall r | r in out && !(r.start == p.start && r.end == p.end && r.owner == p.owner)
          ensures Apart(r, p) && exists i :: 0 <= i < |list| && Inside(r, list[i]) && r.owner == list[i].owner
        {
          if r != list[0] {
            var k :| 0 <= k < |list[1..]| && Inside(r, list[1..][k]) && r.owner == list[1..][k].owner;
            assert Inside(r, list[k + 1]);
          } else {
            assert Inside(r, list[0]);
          }
        }
      }
    }
  }

  lemma SplitDisjoint(list: seq<Range>, p: Range)
    requires Disjoint(list) && list != [] && p.start <= p.end && Inside(p, list[0])
    ensures Disjoint(Split(list[0], p) + list[1..])
  {
    SplitInside(list[0], p);
    var s, rest := Split(list[0], p), list[1..];
    forall i, j | 0 <= i < |s| && 0 <= j < |rest| ensures Apart(s[i], rest[j]) {
      assert Apart(list[0], list[j + 1]) && Inside(s[i], list[0]);
    }
    forall i, j | 0 <= i < j < |rest| ensures Apart(rest[i], rest[j]) {
      assert rest[i] == list[i + 1] && rest[j] == list[j + 1];
    }
    ConcatDisjoint(s, rest);
  }

  lemma ConcatDisjoint(a: seq<Range>, b: seq<Range>)
    requires Disjoint(a) && Disjoint(b)
    requires forall i, j :: 0 <= i < |a| && 0 <= j < |b| ==> Apart(a[i], b[j])
    ensures Disjoint(a + b)
  {
  }

  lemma {:induction false} InsertDisjoint(list: seq<Range>, p: Range)
    requires Disjoint(list) && Fits(list, p) && p.start <= p.end
    ensures Disjoint(Insert(list, p))
  {
    if list != [] {
      if Covers(list[0], p.start) {
        SplitDisjoint(list, p);
      } else {
        InsertDisjoint(list[1..], p);
        InsertParts(list[1..], p);
        var rest := Insert(list[1..], p);
        forall j | 0 <= j < |rest| ensures Apart(list[0], rest[j]) {
          var r := rest[j];
          assert r in rest;
          if !(r.start == p.start && r.end == p.end) {
            var k :| 0 <= k < |list[1..]| && Inside(r, list[1..][k]);
            assert Apart(list[0], list[k + 1]);
          }
        }
        ConcatDisjoint([list[0]], rest);
      }
    }
  }

  /** A clean claim changes the owner exactly on p. */
  lemma {:induction false} InsertOwners(list: seq<Range>, p: Range, x: Paddr)
    requires Clean(list, p) && p.start <= p.end
    ensures OwnerAt(Insert(list, p), x) == if Covers(p, x) then Some(p.owner) else OwnerAt(list, x)
  {
    if list == [] {
      OwnerAtFirst(p, [], x);
      assert [p] == [p] + [];
    } else if Covers(list[0], p.start) {
      assert OnlyMeets(list, p, 0);
      SplitOwners(list[0], p, x);
      OwnerAtAppend(Split(list[0], p), list[1..], x);
    } else {
      CleanRest(list, p);
      InsertOwners(list[1..], p, x);
      OwnerAtFirst(list[0], Insert(list[1..], p), x);
    }
  }

  lemma {:induction false} CleanRest(list: seq<Range>, p: Range)
    requires list != [] && Clean(list, p) && !Covers(list[0], p.start)
    ensures Clean(list[1..], p) && Clear(p, list[0])
  {
    var rest := list[1..];
    assert forall j :: 0 <= j < |rest| ==> rest[j] == list[j + 1];
    if i :| 0 <= i < |list| && OnlyMeets(list, p, i) {
      assert OnlyMeets(rest, p, i - 1);
    }
  }

  /** A later claim that respects p and the list also respects the new list. */
  lemma {:induction false} InsertFits(list: seq<Range>, p: Range, q: Range)
    requires Disjoint(list) && Fits(list, p) && p.start <= p.end && q.start <= q.end
    requires Fits(list, q) && (Inside(q, p) || Apart(q, p))
    ensures Fits(Insert(list, p), q)
  {
    InsertParts(list, p);
    forall r | r in Insert(list, p) ensures Inside(q, r) || Apart(q, r) {
      if !(r.start == p.start && r.end == p.end) {
        InsertWhole(list, p, r, q);
      }
    }
  }

  /** The part of an old range left and right of p is kept whole. */
  lemma {:induction false} InsertWhole(list: seq<Range>, p: Range, r: Range, q: Range)
    requires Disjoint(list) && Fits(list, p) && p.start <= p.end && q.start <= q.end
    requires Fits(list, q) && (Inside(q, p) || Apart(q, p))
    requires r in Insert(list, p) && !(r.start == p.start && r.end == p.end)
    ensures Inside(q, r) || Apart(q, r)
  {
    if list != [] {
      if Covers(list[0], p.start) {
        if r in list[1..] {
          var k :| 0 <= k < |list[1..]| && list[1..][k] == r;
          assert list[k + 1] == r;
        }
      } else if r != list[0] {
        forall i | 0 <= i < |list[1..]| ensures Inside(q, list[1..][i]) || Apart(q, list[1..][i]) {
          assert list[1..][i] == list[i + 1];
        }
        InsertWhole(list[1..], p, r, q);
      }
    }
  }

  /** Where the walk along the list stops, and what it does there. */
  lemma {:induction false} InsertAt(list: seq<Range>, p: Range, i: nat)
    requires i <= |list| && forall j :: 0 <= j < i ==> !Covers(list[j], p.start)
    ensures i == |list| ==> Insert(list, p) == list + [p]
    ensures i < |list| && Covers(list[i], p.start) ==>
              Insert(list, p) == list[..i] + Split(list[i], p) + list[i + 1..]
  {
    if i > 0 {
      InsertAt(list[1..], p, i - 1);
      assert Insert(list, p) == [list[0]] + Insert(list[1..], p);
      hide Insert, Split;
      if i < |list| {
        assert list[1..][i - 1] == list[i] && list[1..][i..] == list[i + 1..];
        assert list[..i] == [list[0]] + list[1..][..i - 1];
      } else {
        assert list == [list[0]] + list[1..];
      }
    }
  }

  /** The source's walk along the list, splitting the range it finds. */
  method InsertPiece(list: seq<Range>, p: Range) returns (out: seq<Range>)
    ensures out == Insert(list, p)
  {
    hide Insert;
    var i := 0;
    while true
      invariant 0 <= i <= |list|
      invariant forall j :: 0 <= j < i ==> !Covers(list[j], p.start)
      decreases |list| - i
    {
      InsertAt(list, p, i);
      if i == |list| {
        return list + [p];
      }
      var curr := list[i];
      if curr.start <= p.start && curr.end >= p.start {
        if curr.start == p.start && curr.end == p.end {
          return list[..i] + [curr.(owner := p.owner)] + list[i + 1..];
        }
        if curr.start == p.start {
          return list[..i] + [p, curr.(start := Next(p.end))] + list[i + 1..];
        }
        var oldEnd := curr.end;
        var pieces := [curr.(end := p.start - 1), p];
        if oldEnd != p.end {
          pieces := pieces + [Range(Next(p.end), oldEnd, curr.owner)];
        }
        return list[..i] + pieces + list[i + 1..];
      }
      i := i + 1;
    }
  }

  // ---------- claims that need not fit ----------

  predicate SameSpan(r: Range, p: Range) { r.start == p.start && r.end == p.end }

  lemma NoneHoldsStart(list: seq<Range>, p: Range)
    requires Sound(list) && p.start <= p.end
    requires forall j :: 0 <= j < |list| ==> !Covers(list[j], p.start)
    ensures Sound(list + [p]) <==> Clean(list, p)
  {
    var out := list + [p];
    assert forall j :: 0 <= j < |list| ==> out[j] == list[j];
    if Sound(out) {
      forall j | 0 <= j < |list| ensures Clear(p, list[j]) {
        assert Empty(out[j]) || Apart(out[j], out[|list|]);
      }
    }
  }

  /** The pieces of one range and p. */
  lemma SplitExact(curr: Range, p: Range)
    requires p.start <= p.end && Covers(curr, p.start)
    ensures Sound(Split(curr, p)) <==> (p.end == MAX_PADDR ==> curr.end == MAX_PADDR)
    ensures exists t :: 0 <= t < |Split(curr, p)| && SameSpan(Split(curr, p)[t], p)
    ensures (p.end == MAX_PADDR ==> curr.end == MAX_PADDR) ==>
              forall t :: 0 <= t < |Split(curr, p)| ==>
                Empty(Split(curr, p)[t]) || SameSpan(Split(curr, p)[t], p) || Inside(Split(curr, p)[t], curr)
  {
    var s := Split(curr, p);
    var t := if curr.start == p.start then 0 else 1;
    assert SameSpan(s[t], p);
    if p.end == MAX_PADDR && curr.end != MAX_PADDR {
      assert !Empty(s[t]) && !Empty(s[t + 1]) && !Apart(s[t], s[t + 1]);
    }
  }

  /** The list after range i was split, by position. */
  lemma Around(list: seq<Range>, s: seq<Range>, i: nat)
    requires i < |list|
    ensures var out := list[..i] + s + list[i + 1..];
            && |out| == |list| - 1 + |s|
            && (forall j :: 0 <= j < i ==> out[j] == list[j])
            && (forall t :: i <= t < i + |s| ==> out[t] == s[t - i])
            && (forall j :: i + |s| <= j < |out| ==> out[j] == list[j + 1 - |s|])
  {
  }

  lemma SoundIsClean(list: seq<Range>, s: seq<Range>, p: Range, i: nat, t: nat)
    requires p.start <= p.end && i < |list|
    requires Sound(list[..i] + s + list[i + 1..]) && t < |s| && SameSpan(s[t], p)
    ensures Sound(s) && forall j :: 0 <= j < |list| && j != i ==> Clear(p, list[j])
  {
    Around(list, s, i);
    var out := list[..i] + s + list[i + 1..];
    forall j | 0 <= j < |list| && j != i ensures Clear(p, list[j]) {
      var at := if j < i then j else j - 1 + |s|;
      assert out[at] == list[j] && out[i + t] == s[t];
    }
    forall a, b | 0 <= a < b < |s| ensures Empty(s[a]) || Empty(s[b]) || Apart(s[a], s[b]) {
      assert out[i + a] == s[a] && out[i + b] == s[b];
    }
  }

  lemma OneHoldsStart(list: seq<Range>, p: Range, i: nat)
    requires Sound(list) && p.start <= p.end && i < |list| && Covers(list[i], p.start)
    ensures Sound(list[..i] + Split(list[i], p) + list[i + 1..]) <==> Clean(list, p)
  {
    var s := Split(list[i], p);
    SplitExact(list[i], p);
    hide Split, Sound;
    var out := list[..i] + s + list[i + 1..];
    if Sound(out) {
      var t :| 0 <= t < |s| && SameSpan(s[t], p);
      SoundIsClean(list, s, p, i, t);
      assert OnlyMeets(list, p, i);
    }
    if Clean(list, p) {
      OnlyHolder(list, p, i);
      CleanIsSound(list, s, p, i);
    }
  }

  lemma OnlyHolder(list: seq<Range>, p: Range, i: nat)
    requires p.start <= p.end && i < |list| && Covers(list[i], p.start) && Clean(list, p)
    ensures OnlyMeets(list, p, i)
  {
    assert !Clear(p, list[i]);
  }

  lemma CleanIsSound(list: seq<Range>, s: seq<Range>, p: Range, i: nat)
    requires Sound(list) && i < |list| && OnlyMeets(list, p, i) && Sound(s)
    requires forall t :: 0 <= t < |s| ==> Empty(s[t]) || SameSpan(s[t], p) || Inside(s[t], list[i])
    ensures Sound(list[..i] + s + list[i + 1..])
  {
    Around(list, s, i);
    var out := list[..i] + s + list[i + 1..];
    forall a, b | 0 <= a < b < |out| ensures Empty(out[a]) || Empty(out[b]) || Apart(out[a], out[b]) {
      PiecesApart(list, s, p, i, a, b);
    }
  }

  lemma PiecesApart(list: seq<Range>, s: seq<Range>, p: Range, i: nat, a: nat, b: nat)
    requires Sound(list) && i < |list| && OnlyMeets(list, p, i) && Sound(s)
    requires forall t :: 0 <= t < |s| ==> Empty(s[t]) || SameSpan(s[t], p) || Inside(s[t], list[i])
    requires a < b < |list| - 1 + |s|
    ensures var out := list[..i] + s + list[i + 1..];
            Empty(out[a]) || Empty(out[b]) || Apart(out[a], out[b])
  {
    Around(list, s, i);
  }

  /** Where the walk along the list stops. */
  lemma FirstHolder(list: seq<Range>, p: Range) returns (i: nat)
    ensures i <= |list| && (forall j :: 0 <= j < i ==> !Covers(list[j], p.start))
    ensures i < |list| ==> Covers(list[i], p.start)
  {
    i := 0;
    while i < |list| && !Covers(list[i], p.start)
      invariant i <= |list| && forall j :: 0 <= j < i ==> !Covers(list[j], p.start)
    {
      i := i + 1;
    }
  }

  /** For every claim: the ranges stay disjoint if and only if the claim is clean. */
  lemma {:induction false} InsertExact(list: seq<Range>, p: Range)
    requires Sound(list) && p.start <= p.end
    ensures Sound(Insert(list, p)) <==> Clean(list, p)
  {
    hide *;
    var i := FirstHolder(list, p);
    InsertAt(list, p, i);
    if i == |list| {
      NoneHoldsStart(list, p);
    } else {
      OneHoldsStart(list, p, i);
    }
  }

  // ---------- many claims ----------

  /** How many ranges hold x. */
  function Count(list: seq<Range>, x: Paddr): nat {
    if list == [] then 0 else (if Covers(list[0], x) then 1 else 0) + Count(list[1..], x)
  }

  lemma {:induction false} CountAppend(a: seq<Range>, b: seq<Range>, x: Paddr)
    ensures Count(a + b, x) == Count(a, x) + Count(b, x)
  {
    if a == [] {
      assert a + b == b;
    } else {
      assert (a + b)[1..] == a[1..] + b;
      CountAppend(a[1..], b, x);
    }
  }

  lemma {:induction false} CountSplit(curr: Range, p: Range, x: Paddr)
    requires p.start <= p.end && Covers(curr, p.start)
    ensures Covers(curr, x) ==> Count(Split(curr, p), x) >= 1
  {
    if Covers(curr, x) {
      var s := Split(curr, p);
      var at := if x < p.start then 0 else if x > p.end then |s| - 1 else if curr.start == p.start then 0 else 1;
      HeldOnce(s, at, x);
    }
  }

  /** An address never loses a holder. */
  lemma {:induction false} InsertCovers(list: seq<Range>, p: Range, x: Paddr)
    requires p.start <= p.end
    ensures Count(Insert(list, p), x) >= Count(list, x)
  {
    if list != [] {
      if Covers(list[0], p.start) {
        CountSplit(list[0], p, x);
        CountAppend(Split(list[0], p), list[1..], x);
      } else {
        InsertCovers(list[1..], p, x);
        CountAppend([list[0]], Insert(list[1..], p), x);
      }
    }
  }

  lemma {:induction false} HeldTwice(list: seq<Range>, i: nat, j: nat, x: Paddr)
    requires i < j < |list| && Covers(list[i], x) && Covers(list[j], x)
    ensures Count(list, x) >= 2
  {
    if i > 0 {
      HeldTwice(list[1..], i - 1, j - 1, x);
    } else {
      HeldOnce(list[1..], j - 1, x);
    }
  }

  lemma {:induction false} HeldOnce(list: seq<Range>, i: nat, x: Paddr)
    requires i < |list| && Covers(list[i], x)
    ensures Count(list, x) >= 1
  {
    if i > 0 {
      HeldOnce(list[1..], i - 1, x);
    }
  }

  lemma {:induction false} SoundHoldsOnce(list: seq<Range>, x: Paddr)
    requires Sound(list)
    ensures Count(list, x) <= 1
  {
    if list != [] {
      var rest := list[1..];
      assert forall i, j :: 0 <= i < j < |rest| ==> rest[i] == list[i + 1] && rest[j] == list[j + 1];
      SoundHoldsOnce(rest, x);
      if Covers(list[0], x) {
        forall j | 0 <= j < |rest| ensures !Covers(rest[j], x) {
          assert rest[j] == list[j + 1];
        }
        HeldByNone(rest, x);
      }
    }
  }

  lemma {:induction false} HeldByNone(list: seq<Range>, x: Paddr)
    requires forall j :: 0 <= j < |list| ==> !Covers(list[j], x)
    ensures Count(list, x) == 0
  {
    if list != [] {
      HeldByNone(list[1..], x);
    }
  }

  /** Ranges that overlap keep overlapping. */
  lemma {:induction false} NeverRecovers(list: seq<Range>, p: Range)
    requires p.start <= p.end && !Sound(list)
    ensures !Sound(Insert(list, p))
  {
    var i, j :| 0 <= i < j < |list| && !Empty(list[i]) && !Empty(list[j]) && !Apart(list[i], list[j]);
    var x := if list[i].start >= list[j].start then list[i].start else list[j].start;
    HeldTwice(list, i, j, x);
    InsertCovers(list, p, x);
    if Sound(Insert(list, p)) {
      SoundHoldsOnce(Insert(list, p), x);
    }
  }

  /** The list after all claims. */
  function InsertAll(list: seq<Range>, ps: seq<Range>): seq<Range> {
    if ps == [] then list else Insert(InsertAll(list, ps[..|ps| - 1]), ps[|ps| - 1])
  }

  /** Every claim was clean when it was made. */
  predicate AllClean(list: seq<Range>, ps: seq<Range>) {
    forall k :: 0 <= k < |ps| ==> Clean(InsertAll(list, ps[..k]), ps[k])
  }

  lemma {:induction false} AllCleanNext(list: seq<Range>, ps: seq<Range>)
    requires ps != []
    ensures AllClean(list, ps) <==>
              AllClean(list, ps[..|ps| - 1]) && Clean(InsertAll(list, ps[..|ps| - 1]), ps[|ps| - 1])
  {
    hide Clean, InsertAll;
    var front := ps[..|ps| - 1];
    assert forall k :: 0 <= k < |front| ==> front[..k] == ps[..k] && front[k] == ps[k];
  }

  /** For any claims: in the end the ranges are disjoint if and only if every claim was clean when it
      was made. */
  lemma {:induction false} InsertAllExact(list: seq<Range>, ps: seq<Range>)
    requires Sound(list) && forall k :: 0 <= k < |ps| ==> ps[k].start <= ps[k].end
    ensures Sound(InsertAll(list, ps)) <==> AllClean(list, ps)
    decreases |ps|
  {
    hide Insert, Sound, Clean, AllClean;
    if ps == [] {
      NoClaims(list);
    } else {
      var front, last := ps[..|ps| - 1], ps[|ps| - 1];
      InsertAllExact(list, front);
      AllCleanNext(list, ps);
      if Sound(InsertAll(list, front)) {
        InsertExact(InsertAll(list, front), last);
      } else {
        NeverRecovers(InsertAll(list, front), last);
      }
    }
  }

  lemma {:induction false} NoClaims(list: seq<Range>)
    ensures AllClean(list, [])
  {
  }

  // ---------- dropping what is empty ----------

  function NonEmpty(list: seq<Range>): seq<Range> {
    if list == [] then []
    else NonEmpty(list[..|list| - 1]) + if Empty(list[|list| - 1]) then [] else [list[|list| - 1]]
  }

  lemma {:induction false} NonEmptyMembers(list: seq<Range>, r: Range)
    ensures r in NonEmpty(list) <==> r in list && !Empty(r)
  {
    if list != [] {
      var front, last := list[..|list| - 1], list[|list| - 1];
      NonEmptyMembers(front, r);
      assert list == front + [last];
    }
  }

  lemma {:induction false} NonEmptyOwner(list: seq<Range>, x: Paddr)
    ensures OwnerAt(NonEmpty(list), x) == OwnerAt(list, x)
  {
    if list != [] {
      var front, last := list[..|list| - 1], list[|list| - 1];
      NonEmptyOwner(front, x);
      assert list == front + [last];
      OwnerAtAppend(front, [last], x);
      OwnerAtFirst(last, [], x);
      assert [last] == [last] + [];
      if Empty(last) {
        assert NonEmpty(front) + [] == NonEmpty(front);
      } else {
        OwnerAtAppend(NonEmpty(front), [last], x);
      }
    }
  }

  lemma DisjointNext(a: seq<Range>, r: Range)
    ensures Disjoint(a + [r]) <==> Disjoint(a) && !Empty(r) && forall q :: q in a ==> Apart(q, r)
  {
    var b := a + [r];
    assert b[|a|] == r && forall i :: 0 <= i < |a| ==> b[i] == a[i];
    if Disjoint(b) {
      forall q | q in a ensures Apart(q, r) {
        var i :| 0 <= i < |a| && a[i] == q;
        assert Apart(b[i], b[|a|]);
      }
    }
  }

  lemma SoundNext(a: seq<Range>, r: Range)
    ensures Sound(a + [r]) <==> Sound(a) && (Empty(r) || forall q :: q in a ==> Empty(q) || Apart(q, r))
  {
    var b := a + [r];
    assert b[|a|] == r && forall i :: 0 <= i < |a| ==> b[i] == a[i];
    if Sound(b) && !Empty(r) {
      forall q | q in a ensures Empty(q) || Apart(q, r) {
        var i :| 0 <= i < |a| && a[i] == q;
        assert Empty(b[i]) || Apart(b[i], b[|a|]);
      }
    }
  }

  /** What is left of a list is disjoint exactly if no two ranges of the list share an address. */
  lemma {:induction false} NonEmptyDisjoint(list: seq<Range>)
    ensures Disjoint(NonEmpty(list)) <==> Sound(list)
  {
    if list != [] {
      var front, last := list[..|list| - 1], list[|list| - 1];
      NonEmptyDisjoint(front);
      assert list == front + [last];
      SoundNext(front, last);
      if Empty(last) {
        assert NonEmpty(front) + [] == NonEmpty(front);
      } else {
        DisjointNext(NonEmpty(front), last);
        forall q ensures q in NonEmpty(front) <==> q in front && !Empty(q) {
          NonEmptyMembers(front, q);
        }
      }
    }
  }
}
