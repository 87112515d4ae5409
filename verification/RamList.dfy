/** The list of free RAM: adding a stretch, finding room for an allocation and taking it out. */
module RamList {
  import opened Common

  /** Free addresses addr to addr + size - 1. */
  datatype Block = Block(addr: nat, size: nat)

  /** Addresses s to e - 1. */
  datatype Stretch = Stretch(s: nat, e: nat)

  /** A range no allocation may touch. */
  datatype Avoid = Avoid(start: nat, end: nat)

  type Alignment = n: nat | n > 0 witness 1

  predicate Holds(b: Block, x: int) { b.addr <= x < b.addr + b.size }

  /** The address is free. */
  ghost predicate Free(ram: seq<Block>, x: int) { exists i :: 0 <= i < |ram| && Holds(ram[i], x) }

  /** Blocks in ascending order, none empty, none touching the next. */
  predicate Tidy(ram: seq<Block>) {
    && (forall i :: 0 <= i < |ram| ==> ram[i].size > 0)
    && (forall i, j :: 0 <= i < j < |ram| ==> ram[i].addr + ram[i].size < ram[j].addr)
  }

  // ---------- rounding ----------

  function RoundTo(x: nat, align: Alignment): nat {
    if x % align == 0 then x else x - x % align + align
  }

  lemma Scale(a: nat, b: nat, k: nat)
    requires a <= b
    ensures a * k <= b * k
  {
  }

  lemma NextMultiple(q: nat, k: nat)
    ensures (q + 1) * k == q * k + k
  {
  }

  lemma NoRest(q: nat, align: Alignment)
    ensures q * align % align == 0
  {
    var d, t := q * align / align, q * align % align;
    assert q * align == d * align + t;
    NextMultiple(d, align);
    if d < q {
      Scale(d + 1, q, align);
    } else {
      Scale(q, d, align);
    }
  }

  /** The least multiple that is not below x. */
  lemma RoundIsLeast(x: nat, align: Alignment, m: nat)
    ensures x <= RoundTo(x, align) && RoundTo(x, align) % align == 0
    ensures m % align == 0 && x <= m ==> RoundTo(x, align) <= m
  {
    var q, k := x / align, m / align;
    assert x == q * align + x % align && m == k * align + m % align;
    NextMultiple(q, align);
    NoRest(q + 1, align);
    if k <= q {
      Scale(k, q, align);
    } else {
      Scale(q + 1, k, align);
    }
  }

  // ---------- finding room ----------

  /** What is left of a candidate when the range is avoided: of two pieces, the larger one. */
  function FixSize(x: Stretch, a: Avoid): Option<Stretch> {
    if x.s >= a.end || x.e <= a.start then Some(x)
    else if x.s >= a.start then (if x.e <= a.end then None else Some(Stretch(a.end, x.e)))
    else if x.e < a.end then Some(Stretch(x.s, a.start))
    else if a.start - x.s > x.e - a.end then Some(Stretch(x.s, a.start))
    else Some(Stretch(a.end, x.e))
  }

  function Trimmed(x: Stretch, avoid: seq<Avoid>): Option<Stretch>
    decreases |avoid|
  {
    if avoid == [] then Some(x)
    else
      match FixSize(x, avoid[0])
      case None => None
      case Some(y) => Trimmed(y, avoid[1..])
  }

  function Place(x: Stretch, size: nat, align: Alignment): Option<nat> {
    var addr := RoundTo(x.s, align);
    if addr < x.e && size <= x.e - addr then Some(addr) else None
  }

  function Whole(b: Block): Stretch { Stretch(b.addr, b.addr + b.size) }

  /** The place in one block. */
  function PlaceIn(b: Block, avoid: seq<Avoid>, size: nat, align: Alignment): Option<nat> {
    match Trimmed(Whole(b), avoid)
    case None => None
    case Some(x) => Place(x, size, align)
  }

  /** The first block with room. */
  function Search(ram: seq<Block>, avoid: seq<Avoid>, size: nat, align: Alignment): Option<nat> {
    if ram == [] then None
    else if PlaceIn(ram[0], avoid, size, align).Some? then PlaceIn(ram[0], avoid, size, align)
    else Search(ram[1..], avoid, size, align)
  }

  predicate Clear(avoid: seq<Avoid>, at: nat, size: nat) {
    forall i :: 0 <= i < |avoid| ==> at + size <= avoid[i].start || avoid[i].end <= at
  }

  /** An aligned stretch inside the block that touches nothing to be avoided. */
  predicate Fits(b: Block, avoid: seq<Avoid>, at: nat, size: nat, align: Alignment) {
    at % align == 0 && b.addr <= at && at + size <= b.addr + b.size && Clear(avoid, at, size)
  }

  predicate Proper(avoid: seq<Avoid>) { forall i :: 0 <= i < |avoid| ==> avoid[i].start <= avoid[i].end }

  /** Every range that meets the block reaches over one of its ends. */
  predicate AtTheEdges(b: Block, avoid: seq<Avoid>) {
    forall i :: 0 <= i < |avoid| ==>
      || avoid[i].end <= b.addr || b.addr + b.size <= avoid[i].start
      || avoid[i].start <= b.addr || b.addr + b.size <= avoid[i].end
  }

  /** Trimming only shrinks a candidate, away from everything to be avoided. */
  lemma {:induction false} TrimmedIsClear(x: Stretch, avoid: seq<Avoid>, at: nat, size: nat)
    requires Proper(avoid) && size > 0 && Trimmed(x, avoid).Some?
    ensures var y := Trimmed(x, avoid).value;
            x.s <= y.s && y.e <= x.e && (y.s <= at && at + size <= y.e ==> Clear(avoid, at, size))
    decreases |avoid|
  {
    if avoid != [] {
      var y := FixSize(x, avoid[0]).value;
      TrimmedIsClear(y, avoid[1..], at, size);
      var z := Trimmed(x, avoid).value;
      if z.s <= at && at + size <= z.e {
        forall i | 0 <= i < |avoid| ensures at + size <= avoid[i].start || avoid[i].end <= at {
          if i > 0 { assert avoid[i] == avoid[1..][i - 1]; }
        }
      }
    }
  }

  /** If no range to be avoided has room on both sides, trimming loses no stretch that is clear of all. */
  lemma {:induction false} TrimmedLosesNothing(x: Stretch, avoid: seq<Avoid>, at: nat, size: nat)
    requires forall i :: 0 <= i < |avoid| ==>
               avoid[i].end <= x.s || x.e <= avoid[i].start || avoid[i].start <= x.s || x.e <= avoid[i].end
    requires size > 0 && x.s <= at && at + size <= x.e && Clear(avoid, at, size)
    ensures Trimmed(x, avoid).Some? && Trimmed(x, avoid).value.s <= at && at + size <= Trimmed(x, avoid).value.e
    decreases |avoid|
  {
    if avoid != [] {
      assert at + size <= avoid[0].start || avoid[0].end <= at;
      var y := FixSize(x, avoid[0]).value;
      forall i | 0 <= i < |avoid[1..]|
        ensures var a := avoid[1..][i];
                && (a.end <= y.s || y.e <= a.start || a.start <= y.s || y.e <= a.end)
                && (at + size <= a.start || a.end <= at)
      {
        assert avoid[1..][i] == avoid[i + 1];
      }
      TrimmedLosesNothing(y, avoid[1..], at, size);
    }
  }

  lemma PlaceInFits(b: Block, avoid: seq<Avoid>, size: nat, align: Alignment)
    requires Proper(avoid) && size > 0 && PlaceIn(b, avoid, size, align).Some?
    ensures Fits(b, avoid, PlaceIn(b, avoid, size, align).value, size, align)
  {
    var at := PlaceIn(b, avoid, size, align).value;
    TrimmedIsClear(Whole(b), avoid, at, size);
    RoundIsLeast(Trimmed(Whole(b), avoid).value.s, align, at);
    hide Trimmed, RoundTo, Clear;
  }

  /** In a block without a range to be avoided in its middle, the place found is the lowest there is. */
  lemma PlaceInLowest(b: Block, avoid: seq<Avoid>, size: nat, align: Alignment, at: nat)
    requires AtTheEdges(b, avoid) && size > 0 && Fits(b, avoid, at, size, align)
    ensures PlaceIn(b, avoid, size, align).Some? && PlaceIn(b, avoid, size, align).value <= at
  {
    TrimmedLosesNothing(Whole(b), avoid, at, size);
    RoundIsLeast(Trimmed(Whole(b), avoid).value.s, align, at);
    hide Trimmed, RoundTo, Clear;
  }

  /** What is found lies in a free block, aligned, clear of everything to be avoided. */
  lemma {:induction false} SearchFits(ram: seq<Block>, avoid: seq<Avoid>, size: nat, align: Alignment)
    requires Proper(avoid) && size > 0 && Search(ram, avoid, size, align).Some?
    ensures exists i :: 0 <= i < |ram| && Fits(ram[i], avoid, Search(ram, avoid, size, align).value, size, align)
  {
    hide PlaceIn, Fits;
    if PlaceIn(ram[0], avoid, size, align).Some? {
      PlaceInFits(ram[0], avoid, size, align);
    } else {
      SearchFits(ram[1..], avoid, size, align);
      var i :| 0 <= i < |ram[1..]| && Fits(ram[1..][i], avoid, Search(ram, avoid, size, align).value, size, align);
      assert ram[i + 1] == ram[1..][i];
    }
  }

  /** Room in a block without a range to be avoided in its middle is not missed. */
  lemma {:induction false} SearchFinds(ram: seq<Block>, avoid: seq<Avoid>, size: nat, align: Alignment, i: nat, at: nat)
    requires size > 0 && i < |ram| && AtTheEdges(ram[i], avoid) && Fits(ram[i], avoid, at, size, align)
    ensures Search(ram, avoid, size, align).Some?
  {
    hide PlaceIn, Fits, AtTheEdges;
    if i == 0 {
      PlaceInLowest(ram[0], avoid, size, align, at);
    } else {
      SearchFinds(ram[1..], avoid, size, align, i - 1, at);
    }
  }

  /** If no block has a range to be avoided in its middle, the search fails exactly if there is no room. */
  lemma {:induction false} SearchExact(ram: seq<Block>, avoid: seq<Avoid>, size: nat, align: Alignment)
    requires Proper(avoid) && size > 0 && forall i :: 0 <= i < |ram| ==> AtTheEdges(ram[i], avoid)
    ensures Search(ram, avoid, size, align).Some? <==>
            exists i, at: nat :: 0 <= i < |ram| && Fits(ram[i], avoid, at, size, align)
  {
    hide Search, Fits, AtTheEdges;
    if Search(ram, avoid, size, align).Some? {
      SearchFits(ram, avoid, size, align);
    }
    if i, at: nat :| 0 <= i < |ram| && Fits(ram[i], avoid, at, size, align) {
      SearchFinds(ram, avoid, size, align, i, at);
    }
  }

  /** A failing input: the first range makes the search give up the upper piece, the second one most of
      the lower piece. */
  lemma {:induction false} RoomIsMissed()
    ensures var b, avoid := Block(0, 100), [Avoid(60, 61), Avoid(20, 40)];
            Search([b], avoid, 30, 1) == None && Fits(b, avoid, 61, 30, 1)
  {
    var b, avoid := Block(0, 100), [Avoid(60, 61), Avoid(20, 40)];
    assert FixSize(Whole(b), avoid[0]) == Some(Stretch(0, 60));
    assert FixSize(Stretch(0, 60), avoid[1]) == Some(Stretch(40, 60)) && avoid[1..] == [Avoid(20, 40)];
    assert avoid[1..][1..] == [] && Trimmed(Stretch(40, 60), []) == Some(Stretch(40, 60));
    assert Trimmed(Stretch(0, 60), avoid[1..]) == Some(Stretch(40, 60));
    assert Trimmed(Whole(b), avoid) == Some(Stretch(40, 60));
    assert [b][1..] == [];
  }

  // ---------- the list as a set of addresses ----------

  lemma FreeConcat(a: seq<Block>, b: seq<Block>, x: int)
    ensures Free(a + b, x) <==> Free(a, x) || Free(b, x)
  {
    var c := a + b;
    hide Holds;
    if i :| 0 <= i < |a| && Holds(a[i], x) { assert Holds(c[i], x); }
    if i :| 0 <= i < |b| && Holds(b[i], x) { assert Holds(c[|a| + i], x); }
    if i :| 0 <= i < |c| && Holds(c[i], x) {
      if i < |a| { assert Holds(a[i], x); } else { assert Holds(b[i - |a|], x); }
    }
  }

  lemma FreeOne(b: Block, x: int)
    ensures Free([b], x) <==> Holds(b, x)
  {
    if Holds(b, x) { assert Holds([b][0], x); }
  }

  /** Free addresses around position r. */
  lemma FreeAround(ram: seq<Block>, r: nat, b: Block, x: int)
    requires r <= |ram|
    ensures Free(ram[..r] + [b] + ram[r..], x) <==> Free(ram, x) || Holds(b, x)
    ensures r < |ram| ==> (Free(ram, x) <==> Free(ram[..r], x) || Holds(ram[r], x) || Free(ram[r + 1..], x))
    ensures r < |ram| ==> (Free(ram[r := b], x) <==> Free(ram[..r], x) || Holds(b, x) || Free(ram[r + 1..], x))
  {
    hide Free;
    FreeOne(b, x);
    FreeConcat(ram[..r] + [b], ram[r..], x);
    FreeConcat(ram[..r], [b], x);
    FreeConcat(ram[..r], ram[r..], x);
    assert ram == ram[..r] + ram[r..];
    if r < |ram| {
      FreeOne(ram[r], x);
      FreeConcat([ram[r]], ram[r + 1..], x);
      assert ram[r..] == [ram[r]] + ram[r + 1..];
      FreeConcat([b], ram[r + 1..], x);
      FreeConcat(ram[..r], [b] + ram[r + 1..], x);
      assert ram[r := b] == ram[..r] + ([b] + ram[r + 1..]);
    }
  }

  lemma FirstIsLeast(ram: seq<Block>, x: int)
    requires Tidy(ram) && Free(ram, x)
    ensures ram != [] && ram[0].addr <= x && (x < ram[0].addr + ram[0].size || ram[0].addr + ram[0].size < x)
  {
    var i :| 0 <= i < |ram| && Holds(ram[i], x);
  }

  lemma TailIsFree(ram: seq<Block>, x: int)
    requires Tidy(ram) && ram != []
    ensures Free(ram[1..], x) <==> Free(ram, x) && !Holds(ram[0], x)
  {
    FreeAround(ram, 0, ram[0], x);
    assert ram[..0] == [];
    if Free(ram[1..], x) {
      var i :| 0 <= i < |ram[1..]| && Holds(ram[1..][i], x);
      assert ram[1..][i] == ram[i + 1];
    }
  }

  lemma FirstIsFree(ram: seq<Block>)
    requires Tidy(ram)
    ensures ram != [] ==> Free(ram, ram[0].addr)
  {
    if ram != [] {
      assert Holds(ram[0], ram[0].addr);
    }
  }

  lemma FirstAgrees(a: seq<Block>, b: seq<Block>)
    requires Tidy(a) && Tidy(b) && a != [] && b != [] && forall x :: Free(a, x) <==> Free(b, x)
    ensures a[0] == b[0]
  {
    FirstIsFree(a);
    FirstIsFree(b);
    FirstIsLeast(a, b[0].addr);
    FirstIsLeast(b, a[0].addr);
    EndsTogether(a, b);
    EndsTogether(b, a);
    hide Free, Tidy;
  }

  /** A tidy list is determined by its free addresses. */
  lemma {:induction false} TidyIsUnique(a: seq<Block>, b: seq<Block>)
    requires Tidy(a) && Tidy(b) && forall x :: Free(a, x) <==> Free(b, x)
    ensures a == b
    decreases |a|
  {
    hide *;
    FirstIsFree(a);
    FirstIsFree(b);
    if a == [] || b == [] {
      NothingFree();
    } else {
      FirstAgrees(a, b);
      TidyTail(a);
      TidyTail(b);
      forall x ensures Free(a[1..], x) <==> Free(b[1..], x) {
        TailIsFree(a, x);
        TailIsFree(b, x);
      }
      TidyIsUnique(a[1..], b[1..]);
      assert a == [a[0]] + a[1..] && b == [b[0]] + b[1..];
    }
  }

  lemma TidyTail(ram: seq<Block>)
    requires Tidy(ram) && ram != []
    ensures Tidy(ram[1..])
  {
  }

  lemma EndsTogether(a: seq<Block>, b: seq<Block>)
    requires Tidy(a) && Tidy(b) && a != [] && b != [] && a[0].addr == b[0].addr
    requires forall x :: Free(b, x) ==> Free(a, x)
    ensures b[0].size <= a[0].size
  {
    var end := a[0].addr + a[0].size;
    if b[0].size > a[0].size {
      assert Holds(b[0], end);
      FirstIsLeast(a, end);
    }
  }

  class Ram {
    var blocks: seq<Block>
    var avoid: seq<Avoid>

    constructor (ranges: seq<Avoid>)
      ensures blocks == [] && avoid == ranges
    {
      blocks, avoid := [], ranges;
    }

    /** Both loops of the search. */
    method FindRam(size: nat, align: Alignment) returns (r: Option<nat>)
      ensures r == Search(blocks, avoid, size, align)
    {
      hide FixSize, Place;
      assert blocks[0..] == blocks;
      for i := 0 to |blocks|
        invariant Search(blocks[i..], avoid, size, align) == Search(blocks, avoid, size, align)
      {
        assert blocks[i..][0] == blocks[i] && blocks[i..][1..] == blocks[i + 1..];
        var x := Some(Whole(blocks[i]));
        assert avoid[0..] == avoid;
        for k := 0 to |avoid|
          invariant Trimmed(Whole(blocks[i]), avoid) == if x.Some? then Trimmed(x.value, avoid[k..]) else None
        {
          if x.None? { break; }
          assert avoid[k..][0] == avoid[k] && avoid[k..][1..] == avoid[k + 1..];
          x := FixSize(x.value, avoid[k]);
        }
        if x.Some? {
          var at := Place(x.value, size, align);
          if at.Some? {
            return at;
          }
        }
      }
      return None;
    }

    /** Puts a block at its place in the order. */
    method InsertBlock(b: Block)
      requires Tidy(blocks) && b.size > 0
      modifies `blocks
      ensures Sorted(blocks) && blocks != []
      ensures forall x :: Free(blocks, x) <==> Free(old(blocks), x) || Holds(b, x)
    {
      var r := 0;
      while r < |blocks| && blocks[r].addr <= b.addr
        invariant r <= |blocks| && forall i :: 0 <= i < r ==> blocks[i].addr <= b.addr
      {
        r := r + 1;
      }
      forall x ensures Free(blocks[..r] + [b] + blocks[r..], x) <==> Free(blocks, x) || Holds(b, x) {
        FreeAround(blocks, r, b, x);
      }
      hide Free;
      blocks := blocks[..r] + [b] + blocks[r..];
    }

    /** Adds a stretch and joins blocks that overlap or touch. */
    method AddMem(start: nat, size: nat)
      requires Tidy(blocks)
      modifies `blocks
      ensures Tidy(blocks)
      ensures forall x :: Free(blocks, x) <==> Free(old(blocks), x) || start <= x < start + size
    {
      hide Free, Tidy, Sorted;
      if size == 0 {
        return;
      }
      InsertBlock(Block(start, size));
      ghost var all := blocks;
      var r := 1;
      OneIsTidy(blocks);
      while r < |blocks|
        invariant 1 <= r <= |blocks| && Sorted(blocks) && Tidy(blocks[..r])
        invariant forall x :: Free(blocks, x) <==> Free(all, x)
        decreases |blocks| - r
      {
        if blocks[r].addr <= blocks[r - 1].addr + blocks[r - 1].size {
          JoinAt(r);
        } else {
          TidyNext(blocks, r);
          r := r + 1;
        }
      }
      assert blocks[..r] == blocks;
    }

    /** Joins block r with the one in front of it. */
    method JoinAt(r: nat)
      requires Sorted(blocks) && 0 < r < |blocks| && Tidy(blocks[..r])
      requires blocks[r].addr <= blocks[r - 1].addr + blocks[r - 1].size
      modifies `blocks
      ensures Sorted(blocks) && |blocks| == |old(blocks)| - 1 && Tidy(blocks[..r])
      ensures forall x :: Free(blocks, x) <==> Free(old(blocks), x)
    {
      var e := blocks[r - 1].addr + blocks[r - 1].size;
      if blocks[r].addr + blocks[r].size > e {
        e := blocks[r].addr + blocks[r].size;
      }
      Joined(blocks, r, e);
      hide Free, Tidy, Sorted;
      blocks := blocks[..r] + blocks[r + 1..];
      blocks := blocks[r - 1 := blocks[r - 1].(size := e - blocks[r - 1].addr)];
    }

    /** Takes a stretch out of the list: blocks inside it go, those that meet it shrink, and one around
        it is split. */
    method TakeOut(addr: nat, size: nat)
      requires Tidy(blocks)
      modifies `blocks
      ensures Tidy(blocks)
      ensures forall x :: Free(blocks, x) <==> Free(old(blocks), x) && !(addr <= x < addr + size)
    {
      hide Free, Tidy, Less, Past, Passed;
      var end := addr + size;
      var r := 0;
      ghost var split := false;
      NothingTaken(blocks, addr, end);
      while r < |blocks|
        invariant r <= |blocks| && Tidy(blocks) && Less(old(blocks), blocks, addr, end)
        invariant Passed(blocks, r, addr, end) && (split ==> Past(blocks, r, end))
        decreases !split, |blocks| - r
      {
        var s := blocks[r].addr;
        var e := s + blocks[r].size;
        ghost var was := blocks;
        if (addr <= s && end > s) || (addr >= s && addr < e) || (end >= s && end < e) {
          NotPast(blocks, r, addr, end);
          if end > e { e := end; }
          if addr < s { s := addr; }
          if addr == s && end == e {
            Dropped(blocks, r, addr, end);
            blocks := blocks[..r] + blocks[r + 1..];
          } else if addr == s {
            Shrunk(blocks, r, Block(end, e - end), addr, end);
            blocks := blocks[r := Block(end, e - end)];
            r := r + 1;
          } else {
            Shrunk(blocks, r, Block(s, addr - s), addr, end);
            blocks := blocks[r := blocks[r].(size := addr - s)];
            if e != end {
              ghost var shrunk := blocks;
              AddMem(end, e - end);
              Split(was, r, shrunk, blocks, addr, end);
              split := split || size > 0;
            }
            r := r + 1;
          }
          LessTwice(old(blocks), was, blocks, addr, end);
        } else {
          Skipped(blocks, r, addr, end);
          r := r + 1;
        }
      }
      AllPassed(old(blocks), blocks, addr, end);
    }

    /** Takes the stretch asked for, or the first aligned one that touches nothing to be avoided, out of
        the list. */
    method AllocRam(addr: Option<nat>, size: nat, align: Alignment) returns (r: Option<nat>)
      requires Tidy(blocks) && Proper(avoid)
      modifies `blocks
      ensures Tidy(blocks)
      ensures addr.Some? ==> r == addr
      ensures addr.None? ==> r == Search(old(blocks), avoid, size, align)
      ensures r.None? ==> blocks == old(blocks)
      ensures r.Some? ==> forall x :: Free(blocks, x) <==> Free(old(blocks), x) && !(r.value <= x < r.value + size)
      ensures addr.None? && r.Some? && size > 0 ==>
                && r.value % align == 0 && Clear(avoid, r.value, size)
                && forall x :: r.value <= x < r.value + size ==> Free(old(blocks), x)
    {
      hide Free, Tidy, Proper, Search, Clear;
      r := addr;
      if addr.None? {
        r := FindRam(size, align);
        if r.None? {
          return;
        }
        if size > 0 {
          FoundIsFree(blocks, avoid, size, align);
        }
      }
      TakeOut(r.value, size);
    }
  }

  lemma {:induction false} FoundIsFree(ram: seq<Block>, avoid: seq<Avoid>, size: nat, align: Alignment)
    requires Proper(avoid) && size > 0 && Search(ram, avoid, size, align).Some?
    ensures var at := Search(ram, avoid, size, align).value;
            && at % align == 0 && Clear(avoid, at, size)
            && forall x :: at <= x < at + size ==> Free(ram, x)
  {
    hide Search;
    SearchFits(ram, avoid, size, align);
    var at := Search(ram, avoid, size, align).value;
    var i :| 0 <= i < |ram| && Fits(ram[i], avoid, at, size, align);
    forall x | at <= x < at + size ensures Free(ram, x) {
      assert Holds(ram[i], x);
    }
  }

  /** From was to now, nothing outside addr to end - 1 was taken and nothing was freed. */
  ghost predicate Less(was: seq<Block>, now: seq<Block>, addr: nat, end: nat) {
    && (forall x :: Free(now, x) ==> Free(was, x))
    && (forall x :: !(addr <= x < end) && Free(was, x) ==> Free(now, x))
  }

  /** The first r blocks lie outside. */
  predicate Passed(ram: seq<Block>, r: nat, addr: nat, end: nat)
    requires r <= |ram|
  {
    forall j :: 0 <= j < r ==> ram[j].addr + ram[j].size <= addr || end <= ram[j].addr || addr == end
  }

  /** From r on the blocks lie behind. */
  predicate Past(ram: seq<Block>, r: nat, end: nat) { forall j :: r <= j < |ram| ==> end <= ram[j].addr }

  /** Ascending, none empty. */
  predicate Sorted(ram: seq<Block>) {
    && (forall i :: 0 <= i < |ram| ==> ram[i].size > 0)
    && (forall i, j :: 0 <= i < j < |ram| ==> ram[i].addr <= ram[j].addr)
  }

  /** Joining block r with the one in front of it frees nothing and takes nothing. */
  lemma Joined(ram: seq<Block>, r: nat, e: nat)
    requires Sorted(ram) && 0 < r < |ram| && Tidy(ram[..r])
    requires ram[r - 1].addr <= ram[r].addr <= ram[r - 1].addr + ram[r - 1].size && ram[r - 1].size > 0
    requires e == if ram[r].addr + ram[r].size > ram[r - 1].addr + ram[r - 1].size then ram[r].addr + ram[r].size
                  else ram[r - 1].addr + ram[r - 1].size
    ensures var without := ram[..r] + ram[r + 1..];
            var now := without[r - 1 := without[r - 1].(size := e - without[r - 1].addr)];
            && Sorted(now) && Tidy(now[..r])
            && forall x :: Free(now, x) <==> Free(ram, x)
  {
    hide *;
    var b := ram[r - 1].(size := e - ram[r - 1].addr);
    JoinedSeq(ram, r, b);
    JoinedShape(ram, r, b);
    forall x ensures Free(ram[..r - 1] + [b] + ram[r + 1..], x) <==> Free(ram, x) {
      FreeOfThree(ram[..r - 1], b, ram[r + 1..], x);
      FreeOfFour(ram[..r - 1], ram[r - 1], ram[r], ram[r + 1..], x);
      JoinedHolds(ram[r - 1], ram[r], b, x);
    }
  }

  lemma JoinedHolds(front: Block, back: Block, b: Block, x: int)
    requires front.addr <= back.addr <= front.addr + front.size && b.addr == front.addr
    requires b.size == if back.addr + back.size > front.addr + front.size then back.addr + back.size - front.addr
                       else front.size
    ensures Holds(b, x) <==> Holds(front, x) || Holds(back, x)
  {
  }

  lemma JoinedSeq(ram: seq<Block>, r: nat, b: Block)
    requires 0 < r < |ram|
    ensures ram[..r - 1] + [b] + ram[r + 1..] == (ram[..r] + ram[r + 1..])[r - 1 := b]
    ensures ram == ram[..r - 1] + [ram[r - 1]] + [ram[r]] + ram[r + 1..]
  {
  }

  lemma JoinedShape(ram: seq<Block>, r: nat, b: Block)
    requires Sorted(ram) && 0 < r < |ram| && Tidy(ram[..r]) && b.addr == ram[r - 1].addr && b.size > 0
    ensures Sorted(ram[..r - 1] + [b] + ram[r + 1..]) && Tidy((ram[..r - 1] + [b] + ram[r + 1..])[..r])
  {
    var now := ram[..r - 1] + [b] + ram[r + 1..];
    forall i | 0 <= i < |now| ensures now[i].size > 0 && now[i].addr == ram[if i < r then i else i + 1].addr {
    }
    forall i, j | 0 <= i < j < |now| ensures now[i].addr <= now[j].addr {
    }
    forall i, j | 0 <= i < j < r ensures now[..r][i].addr + now[..r][i].size < now[..r][j].addr {
      assert ram[..r][i] == now[i] && ram[..r][j].addr == now[j].addr;
    }
    assert forall i :: 0 <= i < r ==> now[..r][i] == now[i];
  }

  lemma FreeOfThree(pre: seq<Block>, b: Block, post: seq<Block>, x: int)
    ensures Free(pre + [b] + post, x) <==> Free(pre, x) || Holds(b, x) || Free(post, x)
  {
    hide Free;
    FreeConcat(pre + [b], post, x);
    FreeConcat(pre, [b], x);
    FreeOne(b, x);
  }

  lemma FreeOfFour(pre: seq<Block>, b: Block, c: Block, post: seq<Block>, x: int)
    ensures Free(pre + [b] + [c] + post, x) <==> Free(pre, x) || Holds(b, x) || Holds(c, x) || Free(post, x)
  {
    hide Free;
    FreeOfThree(pre + [b], c, post, x);
    FreeConcat(pre, [b], x);
    FreeOne(b, x);
  }

  // ---------- taking a stretch out ----------

  lemma NothingTaken(ram: seq<Block>, addr: nat, end: nat)
    ensures Less(ram, ram, addr, end) && Passed(ram, 0, addr, end)
  {
  }

  lemma LessTwice(a: seq<Block>, b: seq<Block>, c: seq<Block>, addr: nat, end: nat)
    requires Less(a, b, addr, end) && Less(b, c, addr, end)
    ensures Less(a, c, addr, end)
  {
    hide Free;
  }

  lemma AllPassed(was: seq<Block>, now: seq<Block>, addr: nat, end: nat)
    requires Less(was, now, addr, end) && Passed(now, |now|, addr, end)
    ensures forall x :: Free(now, x) <==> Free(was, x) && !(addr <= x < end)
  {
    forall x | Free(now, x) ensures !(addr <= x < end) {
      var i :| 0 <= i < |now| && Holds(now[i], x);
    }
  }

  lemma Skipped(ram: seq<Block>, r: nat, addr: nat, end: nat)
    requires Tidy(ram) && r < |ram| && addr <= end && Passed(ram, r, addr, end)
    requires var s, e := ram[r].addr, ram[r].addr + ram[r].size;
             !((addr <= s && end > s) || (addr >= s && addr < e) || (end >= s && end < e))
    ensures Passed(ram, r + 1, addr, end)
    ensures Past(ram, r, end) ==> Past(ram, r + 1, end)
  {
  }

  /** A block that meets the stretch is not behind it, or only touches it. */
  lemma NotPast(ram: seq<Block>, r: nat, addr: nat, end: nat)
    requires r < |ram|
    ensures Past(ram, r, end) ==> end <= ram[r].addr && Past(ram, r + 1, end)
  {
  }

  /** Replacing block r by blocks inside it. */
  lemma Replaced(ram: seq<Block>, r: nat, parts: seq<Block>)
    requires Tidy(ram) && r < |ram| && Tidy(parts)
    requires forall i :: 0 <= i < |parts| ==>
               ram[r].addr <= parts[i].addr && parts[i].addr + parts[i].size <= ram[r].addr + ram[r].size
    ensures Tidy(ram[..r] + parts + ram[r + 1..])
    ensures forall x :: Free(ram[..r] + parts + ram[r + 1..], x) <==>
                          Free(ram[..r], x) || Free(parts, x) || Free(ram[r + 1..], x)
    ensures forall x :: Free(ram, x) <==> Free(ram[..r], x) || Holds(ram[r], x) || Free(ram[r + 1..], x)
  {
    hide Free;
    forall x
      ensures Free(ram[..r] + parts + ram[r + 1..], x) <==> Free(ram[..r], x) || Free(parts, x) || Free(ram[r + 1..], x)
      ensures Free(ram, x) <==> Free(ram[..r], x) || Holds(ram[r], x) || Free(ram[r + 1..], x)
    {
      FreeConcat(ram[..r] + parts, ram[r + 1..], x);
      FreeConcat(ram[..r], parts, x);
      FreeAround(ram, r, ram[r], x);
    }
  }

  lemma NothingFree()
    ensures forall x :: !Free([], x)
  {
  }

  lemma Dropped(ram: seq<Block>, r: nat, addr: nat, end: nat)
    requires Tidy(ram) && r < |ram| && addr <= ram[r].addr && ram[r].addr + ram[r].size <= end
    requires Passed(ram, r, addr, end)
    ensures var now := ram[..r] + ram[r + 1..];
            Tidy(now) && Less(ram, now, addr, end) && Passed(now, r, addr, end) && (Past(ram, r, end) ==> Past(now, r, end))
  {
    var now := ram[..r] + ram[r + 1..];
    assert now == ram[..r] + [] + ram[r + 1..];
    Replaced(ram, r, []);
    hide Free, Tidy;
    NothingFree();
  }

  lemma Shrunk(ram: seq<Block>, r: nat, b: Block, addr: nat, end: nat)
    requires Tidy(ram) && r < |ram| && addr <= end && b.size > 0 && Passed(ram, r, addr, end)
    requires ram[r].addr <= b.addr && b.addr + b.size <= ram[r].addr + ram[r].size
    requires b.addr + b.size <= addr || end <= b.addr
    ensures var now := ram[r := b];
            && Tidy(now) && Passed(now, r + 1, addr, end) && (Past(ram, r + 1, end) ==> Past(now, r + 1, end))
            && (forall x :: Free(now, x) ==> Free(ram, x))
            && (forall x :: Free(ram, x) && !Holds(ram[r], x) ==> Free(now, x))
            && (forall x :: Holds(b, x) ==> Free(now, x))
            && ((forall x :: Holds(ram[r], x) && !(addr <= x < end) ==> Holds(b, x)) ==> Less(ram, now, addr, end))
  {
    var now := ram[r := b];
    assert now == ram[..r] + [b] + ram[r + 1..];
    Replaced(ram, r, [b]);
    hide Free, Tidy;
    forall x ensures Free([b], x) <==> Holds(b, x) { FreeOne(b, x); }
    assert forall x :: Holds(b, x) ==> Holds(ram[r], x);
    hide Holds;
  }

  /** Block r with the stretch taken out of its middle. */
  function SplitAround(ram: seq<Block>, r: nat, addr: nat, end: nat): seq<Block>
    requires r < |ram| && ram[r].addr < addr <= end < ram[r].addr + ram[r].size
  {
    if addr == end then ram
    else ram[..r] + [Block(ram[r].addr, addr - ram[r].addr)] + [Block(end, ram[r].addr + ram[r].size - end)] + ram[r + 1..]
  }

  /** A block around the stretch becomes two. */
  lemma Split(was: seq<Block>, r: nat, shrunk: seq<Block>, now: seq<Block>, addr: nat, end: nat)
    requires Tidy(was) && r < |was| && was[r].addr < addr <= end < was[r].addr + was[r].size && Passed(was, r, addr, end)
    requires shrunk == was[r := Block(was[r].addr, addr - was[r].addr)] && Tidy(now)
    requires forall x :: Free(now, x) <==> Free(shrunk, x) || end <= x < was[r].addr + was[r].size
    ensures r < |now| && Passed(now, r + 1, addr, end) && Less(was, now, addr, end)
    ensures if addr == end then now == was else |now| == |was| + 1 && Past(now, r + 1, end)
  {
    SplitIsTidy(was, r, addr, end);
    var expected := SplitAround(was, r, addr, end);
    hide Tidy, Free;
    forall x
      ensures Free(now, x) <==> Free(expected, x)
      ensures Free(now, x) ==> Free(was, x)
      ensures !(addr <= x < end) && Free(was, x) ==> Free(now, x)
    {
      SplitFree(was, r, addr, end, x);
    }
    TidyIsUnique(now, expected);
    SplitPlaces(was, r, addr, end);
  }

  lemma SplitIsTidy(ram: seq<Block>, r: nat, addr: nat, end: nat)
    requires Tidy(ram) && r < |ram| && ram[r].addr < addr <= end < ram[r].addr + ram[r].size
    ensures Tidy(SplitAround(ram, r, addr, end))
  {
    var lower, upper := Block(ram[r].addr, addr - ram[r].addr), Block(end, ram[r].addr + ram[r].size - end);
    if addr < end {
      Replaced(ram, r, [lower, upper]);
      assert SplitAround(ram, r, addr, end) == ram[..r] + [lower, upper] + ram[r + 1..];
    }
  }

  lemma SplitPlaces(ram: seq<Block>, r: nat, addr: nat, end: nat)
    requires Tidy(ram) && r < |ram| && ram[r].addr < addr <= end < ram[r].addr + ram[r].size && Passed(ram, r, addr, end)
    ensures var now := SplitAround(ram, r, addr, end);
            && r < |now| && Passed(now, r + 1, addr, end)
            && (addr < end ==> |now| == |ram| + 1 && Past(now, r + 1, end))
  {
  }

  lemma SplitFree(ram: seq<Block>, r: nat, addr: nat, end: nat, x: int)
    requires r < |ram| && ram[r].addr < addr <= end < ram[r].addr + ram[r].size
    ensures var shrunk := ram[r := Block(ram[r].addr, addr - ram[r].addr)];
            var now := SplitAround(ram, r, addr, end);
            && (Free(now, x) <==> Free(shrunk, x) || end <= x < ram[r].addr + ram[r].size)
            && (Free(now, x) ==> Free(ram, x))
            && (!(addr <= x < end) && Free(ram, x) ==> Free(now, x))
  {
    hide Free;
    var lower, upper := Block(ram[r].addr, addr - ram[r].addr), Block(end, ram[r].addr + ram[r].size - end);
    var pre, post := ram[..r], ram[r + 1..];
    FreeOfThree(pre, lower, post, x);
    FreeOfThree(pre, ram[r], post, x);
    FreeOfFour(pre, lower, upper, post, x);
    assert ram[r := lower] == pre + [lower] + post && ram == pre + [ram[r]] + post;
  }

  lemma OneIsTidy(ram: seq<Block>)
    requires Sorted(ram) && ram != []
    ensures Tidy(ram[..1])
  {
  }

  lemma TidyNext(ram: seq<Block>, r: nat)
    requires Sorted(ram) && 0 < r < |ram| && Tidy(ram[..r]) && ram[r - 1].addr + ram[r - 1].size < ram[r].addr
    ensures Tidy(ram[..r + 1])
  {
    var front, more := ram[..r], ram[..r + 1];
    assert front[r - 1] == ram[r - 1] && more == front + [ram[r]];
    assert forall i :: 0 <= i < r - 1 ==> front[i].addr + front[i].size < front[r - 1].addr;
  }
}
