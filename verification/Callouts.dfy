/** The kernel callouts: one pass over all sections sizes their code and read/write data, a later
    pass over the same sections copies the code and redirects the pointers. */
module Callouts {
  import opened Common

  /** A callout routine: bytes of code, and the key under which it shares read/write data. */
  datatype Rtn = Rtn(size: nat, rwKey: Option<nat>)

  /** A callout pointer: NULL, still the routine's description, or the kernel address of the copy. */
  datatype Slot = Empty | Routine(rtn: Rtn) | Placed(vaddr: nat)

  /** The sections that hold callouts, each with its output hook. */
  datatype Hook = Base | Cache | Intr | Smp

  /** Where one routine went. */
  datatype Placement = Placement(rtn: Rtn, codeOff: nat, rwOff: nat)

  /** A read/write area handed out by the sizing pass. */
  datatype RwArea = RwArea(key: nat, off: nat)

  /** ROUND to a 64-bit word and to a page. */
  function RoundWord(x: nat): (r: nat)
    ensures x <= r < x + 8 && r % 8 == 0
  {
    (x + 7) / 8 * 8
  }

  function RoundPage(x: nat): (r: nat)
    ensures x <= r < x + 0x1000 && r % 0x1000 == 0
  {
    (x + 0xFFF) / 0x1000 * 0x1000
  }

  lemma RoundPageMonotone(x: nat, y: nat)
    requires x <= y
    ensures RoundPage(x) <= RoundPage(y)
  {
  }

  function CodeTotal(rs: seq<Rtn>): nat {
    if rs == [] then 0 else CodeTotal(rs[..|rs| - 1]) + rs[|rs| - 1].size
  }

  /** The routines in a table, in order. */
  function Routines(slots: seq<Slot>): seq<Rtn> {
    if slots == [] then []
    else Routines(slots[..|slots| - 1]) +
         if slots[|slots| - 1].Routine? then [slots[|slots| - 1].rtn] else []
  }

  /** The routines the hook chain visits. */
  function Visited(chain: seq<Hook>, table: map<Hook, seq<Slot>>): seq<Rtn> {
    if chain == [] then []
    else Visited(chain[..|chain| - 1], table) +
         (if chain[|chain| - 1] in table then Routines(table[chain[|chain| - 1]]) else [])
  }

  function RwTotal(areas: seq<RwArea>, keySize: nat -> nat): nat {
    if areas == [] then 0 else keySize(areas[0].key) + RwTotal(areas[1..], keySize)
  }

  /** Each area starts where the ones handed out before it end; the newest is first. */
  predicate Stacked(areas: seq<RwArea>, keySize: nat -> nat) {
    areas == [] ||
    (areas[0].off == RwTotal(areas[1..], keySize) && Stacked(areas[1..], keySize))
  }

  predicate HasKey(areas: seq<RwArea>, key: nat) { exists i :: 0 <= i < |areas| && areas[i].key == key }

  predicate DistinctKeys(areas: seq<RwArea>) {
    forall i, j :: 0 <= i < j < |areas| ==> areas[i].key != areas[j].key
  }

  /** The offset of the first area with the key. */
  function OffsetOf(areas: seq<RwArea>, key: nat): nat
    requires HasKey(areas, key)
  {
    if areas[0].key == key then areas[0].off
    else
      assert HasKey(areas[1..], key) by {
        var i :| 0 <= i < |areas| && areas[i].key == key;
        assert areas[1..][i - 1] == areas[i];
      }
      OffsetOf(areas[1..], key)
  }

  /** Every key the routines use has one area. */
  predicate KeysCovered(areas: seq<RwArea>, rs: seq<Rtn>) {
    && (forall r :: r in rs && r.rwKey.Some? ==> HasKey(areas, r.rwKey.value))
    && DistinctKeys(areas)
  }

  predicate UsesKey(rs: seq<Rtn>, key: nat) { exists i :: 0 <= i < |rs| && rs[i].rwKey == Some(key) }

  /** The areas are exactly those of the keys the routines use. */
  predicate KeysOf(areas: seq<RwArea>, rs: seq<Rtn>) {
    && KeysCovered(areas, rs)
    && forall i :: 0 <= i < |areas| ==> UsesKey(rs, areas[i].key)
  }

  lemma {:induction false} AreaFits(areas: seq<RwArea>, keySize: nat -> nat, i: nat)
    requires Stacked(areas, keySize) && i < |areas|
    ensures areas[i].off + keySize(areas[i].key) <= RwTotal(areas, keySize)
  {
    if i > 0 {
      AreaFits(areas[1..], keySize, i - 1);
    }
  }

  lemma {:induction false} AreasApart(areas: seq<RwArea>, keySize: nat -> nat, i: nat, j: nat)
    requires Stacked(areas, keySize) && i < j < |areas|
    ensures areas[j].off + keySize(areas[j].key) <= areas[i].off
  {
    if i == 0 {
      AreaFits(areas[1..], keySize, j - 1);
    } else {
      AreasApart(areas[1..], keySize, i - 1, j - 1);
    }
  }

  lemma {:induction false} OffsetOfAt(areas: seq<RwArea>, key: nat)
    requires HasKey(areas, key)
    ensures exists i :: 0 <= i < |areas| && areas[i].key == key && areas[i].off == OffsetOf(areas, key)
  {
    if areas[0].key == key {
      assert areas[0].off == OffsetOf(areas, key);
    } else {
      var k :| 0 <= k < |areas| && areas[k].key == key;
      assert areas[1..][k - 1] == areas[k];
      OffsetOfAt(areas[1..], key);
      var i :| 0 <= i < |areas[1..]| && areas[1..][i].key == key && areas[1..][i].off == OffsetOf(areas[1..], key);
      assert areas[i + 1] == areas[1..][i];
    }
  }

  lemma {:induction false} OwnOffset(areas: seq<RwArea>, i: nat)
    requires DistinctKeys(areas) && i < |areas|
    ensures HasKey(areas, areas[i].key) && OffsetOf(areas, areas[i].key) == areas[i].off
  {
    assert HasKey(areas, areas[i].key);
    OffsetOfAt(areas, areas[i].key);
    hide OffsetOf, HasKey;
    var k :| 0 <= k < |areas| && areas[k].key == areas[i].key && areas[k].off == OffsetOf(areas, areas[i].key);
    assert k == i;
  }

  /** Different keys never share a byte, and every area lies inside the reported size. */
  lemma {:induction false} AreasAreDisjoint(areas: seq<RwArea>, keySize: nat -> nat, a: nat, b: nat)
    requires Stacked(areas, keySize) && HasKey(areas, a) && HasKey(areas, b)
    ensures OffsetOf(areas, a) + keySize(a) <= RwTotal(areas, keySize)
    ensures a != b ==> OffsetOf(areas, a) + keySize(a) <= OffsetOf(areas, b)
                       || OffsetOf(areas, b) + keySize(b) <= OffsetOf(areas, a)
  {
    OffsetOfAt(areas, a);
    OffsetOfAt(areas, b);
    var i :| 0 <= i < |areas| && areas[i].key == a && areas[i].off == OffsetOf(areas, a);
    var j :| 0 <= j < |areas| && areas[j].key == b && areas[j].off == OffsetOf(areas, b);
    AreaFits(areas, keySize, i);
    if i < j {
      AreasApart(areas, keySize, i, j);
    } else if j < i {
      AreasApart(areas, keySize, j, i);
    }
  }

  /** The routines' code lies back to back from base on. */
  ghost predicate Laid(placed: seq<Placement>, rs: seq<Rtn>, base: nat) {
    && |placed| == |rs|
    && forall i :: 0 <= i < |rs| ==> placed[i].rtn == rs[i] && placed[i].codeOff == base + CodeTotal(rs[..i])
  }

  lemma {:induction false} LaidNext(placed: seq<Placement>, rs: seq<Rtn>, base: nat, p: Placement)
    requires Laid(placed, rs, base) && p.codeOff == base + CodeTotal(rs)
    ensures Laid(placed + [p], rs + [p.rtn], base)
  {
    hide CodeTotal;
    var longer := rs + [p.rtn];
    forall i | 0 <= i < |longer| ensures longer[..i] == if i < |rs| then rs[..i] else rs {
    }
  }

  function PrevOf(h: Hook, cache: Option<Hook>, intr: Option<Hook>, smp: Option<Hook>): Option<Hook> {
    match h
    case Base => None
    case Cache => cache
    case Intr => intr
    case Smp => smp
  }

  /** Following the hooks from the head visits each installed section once, the base last. */
  ghost predicate IsChain(chain: seq<Hook>, head: Hook, cache: Option<Hook>, intr: Option<Hook>, smp: Option<Hook>) {
    && chain != [] && chain[0] == head && chain[|chain| - 1] == Base
    && (forall i :: 0 <= i < |chain| - 1 ==> PrevOf(chain[i], cache, intr, smp) == Some(chain[i + 1]))
    && (forall i, j :: 0 <= i < j < |chain| ==> chain[i] != chain[j])
    && (forall h :: h in chain <==> h == Base || PrevOf(h, cache, intr, smp).Some?)
  }

  /** A section that becomes the head and calls the old head next extends the chain. */
  lemma LinkKeepsChain(h: Hook, chain: seq<Hook>, head: Hook,
                       cache': Option<Hook>, intr': Option<Hook>, smp': Option<Hook>,
                       cache: Option<Hook>, intr: Option<Hook>, smp: Option<Hook>)
    requires IsChain(chain, head, cache, intr, smp) && h != Base && PrevOf(h, cache, intr, smp).None?
    requires forall k :: PrevOf(k, cache', intr', smp') ==
                           if k == h then Some(head) else PrevOf(k, cache, intr, smp)
    ensures IsChain([h] + chain, h, cache', intr', smp') && h !in chain
  {
    hide PrevOf;
    var longer := [h] + chain;
    assert h !in chain;
    forall i | 0 <= i < |longer| - 1
      ensures PrevOf(longer[i], cache', intr', smp') == Some(longer[i + 1])
    {
      if i > 0 {
        assert longer[i] == chain[i - 1] && longer[i + 1] == chain[i];
        assert chain[i - 1] in chain;
      }
    }
    forall k ensures k in longer <==> k == Base || PrevOf(k, cache', intr', smp').Some? {
      assert k in longer <==> k == h || k in chain;
    }
    forall i, j | 0 <= i < j < |longer| ensures longer[i] != longer[j] {
      if i == 0 {
        assert longer[j] == chain[j - 1] && chain[j - 1] in chain;
      } else {
        assert longer[i] == chain[i - 1] && longer[j] == chain[j - 1];
      }
    }
  }

  class Output {
    // static variables of the pass
    var rtnSize: nat
    var rwSize: nat
    var rwAddrs: seq<RwArea>
    // the hooks: the head of the chain and what each section calls next
    var head: Hook
    var cachePrev: Option<Hook>
    var intrPrev: Option<Hook>
    var smpPrev: Option<Hook>
    // the sections, the size of the system page, and where the kernel will see it
    var table: map<Hook, seq<Slot>>
    var totalSize: nat
    const kernBase: nat
    const keySize: nat -> nat
    // history
    ghost var chain: seq<Hook>
    ghost var placed: seq<Placement>

    constructor (kernel: nat, sizes: nat -> nat, systemPage: nat)
      ensures ChainOk() && chain == [Base] && rtnSize == 0 && rwSize == 0 && rwAddrs == []
      ensures kernBase == kernel && keySize == sizes && totalSize == systemPage && placed == []
      ensures table == map[Base := [], Cache := [], Intr := [], Smp := []]
    {
      kernBase, keySize, totalSize := kernel, sizes, systemPage;
      rtnSize, rwSize, rwAddrs := 0, 0, [];
      head, cachePrev, intrPrev, smpPrev := Base, None, None, None;
      table := map[Base := [], Cache := [], Intr := [], Smp := []];
      chain, placed := [Base], [];
    }

    // ---------- the hook chain ----------

    function Prev(h: Hook): Option<Hook>
      reads `cachePrev, `intrPrev, `smpPrev
    {
      PrevOf(h, cachePrev, intrPrev, smpPrev)
    }

    ghost predicate ChainOk()
      reads `head, `cachePrev, `intrPrev, `smpPrev, `chain
    {
      IsChain(chain, head, cachePrev, intrPrev, smpPrev)
    }

    /** What add_cache_ways, add_interrupt and init_smp do to the chain. The first two install
        their hook once; init_smp relies on being called once. */
    method Install(h: Hook)
      requires ChainOk() && h != Base && (h == Smp ==> smpPrev.None?)
      modifies `head, `cachePrev, `intrPrev, `smpPrev, `chain
      ensures ChainOk()
      ensures chain == if h in old(chain) then old(chain) else [h] + old(chain)
    {
      match h
      case Base =>
      case Cache =>
        if cachePrev.None? {
          LinkKeepsChain(Cache, chain, head, Some(head), intrPrev, smpPrev, cachePrev, intrPrev, smpPrev);
          cachePrev, head, chain := Some(head), Cache, [Cache] + chain;
        }
      case Intr =>
        if intrPrev.None? {
          LinkKeepsChain(Intr, chain, head, cachePrev, Some(head), smpPrev, cachePrev, intrPrev, smpPrev);
          intrPrev, head, chain := Some(head), Intr, [Intr] + chain;
        }
      case Smp =>
        LinkKeepsChain(Smp, chain, head, cachePrev, intrPrev, Some(head), cachePrev, intrPrev, smpPrev);
        smpPrev, head, chain := Some(head), Smp, [Smp] + chain;
    }

    // ---------- one callout ----------

    /** The sizing pass has counted the routines rs. */
    ghost predicate Sized(rs: seq<Rtn>)
      reads `rtnSize, `rwSize, `rwAddrs
    {
      && rtnSize == CodeTotal(rs) && Areas(rs) && rwSize == RwTotal(rwAddrs, keySize)
    }

    ghost predicate Areas(rs: seq<Rtn>)
      reads `rwAddrs
    {
      Stacked(rwAddrs, keySize) && KeysOf(rwAddrs, rs)
    }

    /** Where the code copies start. */
    ghost function CodeBase(): nat
      reads `totalSize, `rwSize
    {
      RoundPage(totalSize + rwSize)
    }

    ghost function RwOffset(r: Rtn): nat
      reads `totalSize, `rwAddrs
    {
      totalSize + if r.rwKey.Some? && HasKey(rwAddrs, r.rwKey.value) then OffsetOf(rwAddrs, r.rwKey.value) else 0
    }

    /** The emitting pass has placed the routines rs: code consecutively from the base on, each with
        the read/write area of its key. */
    ghost predicate Emitted(rs: seq<Rtn>)
      reads `rtnSize, `rwSize, `rwAddrs, `totalSize, `placed
    {
      && rtnSize == (if rs == [] then 0 else CodeBase() + CodeTotal(rs))
      && Laid(placed, rs, CodeBase())
      && forall i :: 0 <= i < |placed| ==> placed[i].rwOff == RwOffset(placed[i].rtn)
    }

    /** Sizing one routine. */
    method SizeOne(r: Rtn, ghost rs: seq<Rtn>)
      requires Sized(rs)
      modifies `rtnSize, `rwSize, `rwAddrs
      ensures Sized(rs + [r])
    {
      assert (rs + [r])[..|rs|] == rs;
      rtnSize := rtnSize + r.size;
      if r.rwKey.Some? {
        var key := r.rwKey.value;
        var i := 0;
        while i < |rwAddrs|
          invariant i <= |rwAddrs| && rtnSize == CodeTotal(rs + [r])
          invariant forall j :: 0 <= j < i ==> rwAddrs[j].key != key
          invariant Areas(rs) && rwSize == RwTotal(rwAddrs, keySize)
        {
          if rwAddrs[i].key == key {
            KeysKept(rwAddrs, rs, r);
            return;
          }
          i := i + 1;
        }
        var area := RwArea(key, rwSize);
        ghost var before := rwAddrs;
        rwAddrs := [area] + rwAddrs;
        assert rwAddrs[1..] == before;
        rwSize := rwSize + keySize(key);
        KeysExtended(before, area, rs, r);
      } else {
        KeysKept(rwAddrs, rs, r);
      }
    }

    /** Emitting one routine; its new address in kernel space. */
    method EmitOne(r: Rtn, ghost rs: seq<Rtn>) returns (vaddr: nat)
      requires Emitted(rs) && totalSize > 0 && (r.rwKey.Some? ==> HasKey(rwAddrs, r.rwKey.value))
      modifies `rtnSize, `placed
      ensures Emitted(rs + [r])
      ensures vaddr == kernBase + CodeBase() + CodeTotal(rs)
    {
      CodeTotalNext(rs, r);
      ghost var base := CodeBase();
      hide CodeTotal, OffsetOf, HasKey, Laid;
      var rwOff := totalSize;
      if rtnSize == 0 {
        rtnSize := RoundPage(rwOff + rwSize);
      }
      if r.rwKey.Some? {
        var off := FindArea(r.rwKey.value);
        rwOff := rwOff + off;
      }
      LaidNext(placed, rs, base, Placement(r, rtnSize, rwOff));
      placed := placed + [Placement(r, rtnSize, rwOff)];
      vaddr := kernBase + rtnSize;
      rtnSize := rtnSize + r.size;
    }

    /** The walk along the list of areas. */
    method FindArea(key: nat) returns (off: nat)
      requires HasKey(rwAddrs, key)
      ensures off == OffsetOf(rwAddrs, key)
    {
      var i := 0;
      while rwAddrs[i].key != key
        invariant i < |rwAddrs| && HasKey(rwAddrs[i..], key)
        invariant OffsetOf(rwAddrs[i..], key) == OffsetOf(rwAddrs, key)
        decreases |rwAddrs| - i
      {
        var j :| 0 <= j < |rwAddrs[i..]| && rwAddrs[i..][j].key == key;
        assert rwAddrs[i + 1..][j - 1].key == key;
        assert rwAddrs[i..][1..] == rwAddrs[i + 1..];
        i := i + 1;
      }
      off := rwAddrs[i].off;
    }

    // ---------- one section ----------

    method SizeSection(h: Hook, ghost rs: seq<Rtn>)
      requires h in table && Sized(rs)
      modifies `rtnSize, `rwSize, `rwAddrs
      ensures Sized(rs + Routines(table[h]))
    {
      hide Sized, Routines;
      var slots := table[h];
      NoRoutines();
      assert rs + [] == rs;
      for i := 0 to |slots|
        invariant Sized(rs + Routines(slots[..i]))
      {
        RoutinesNext(slots, i, rs);
        if slots[i].Routine? {
          SizeOne(slots[i].rtn, rs + Routines(slots[..i]));
        } else {
          assert rs + Routines(slots[..i]) + [] == rs + Routines(slots[..i]);
        }
      }
      assert slots[..|slots|] == slots;
    }

    /** The pointers of a section after it was emitted behind the routines rs. */
    ghost predicate Redirected(before: seq<Slot>, after: seq<Slot>, rs: seq<Rtn>, count: nat)
      reads `totalSize, `rwSize
    {
      && |after| == |before| && count <= |before|
      && forall i :: 0 <= i < |before| ==>
           after[i] == if i < count && before[i].Routine?
                       then Placed(kernBase + CodeBase() + CodeTotal(rs + Routines(before[..i])))
                       else before[i]
    }

    lemma {:induction false} NoneRedirected(slots: seq<Slot>, rs: seq<Rtn>)
      ensures Redirected(slots, slots, rs, 0)
    {
    }

    /** Redirecting the next pointer, if it is one. */
    lemma {:induction false} SlotRedirected(before: seq<Slot>, now: seq<Slot>, rs: seq<Rtn>, i: nat)
      requires Redirected(before, now, rs, i) && i < |before|
      ensures |now| == |before| && now[i] == before[i]
      ensures Redirected(before, now[i := if before[i].Routine?
                                          then Placed(kernBase + CodeBase() + CodeTotal(rs + Routines(before[..i])))
                                          else before[i]], rs, i + 1)
    {
      hide CodeBase, CodeTotal, Routines;
    }

    method EmitSlot(h: Hook, i: nat, ghost rs: seq<Rtn>)
      requires h in table && i < |table[h]| && Emitted(rs) && totalSize > 0
      requires table[h][i].Routine? && table[h][i].rtn.rwKey.Some? ==> HasKey(rwAddrs, table[h][i].rtn.rwKey.value)
      modifies `rtnSize, `placed, `table
      ensures var slot := old(table)[h][i];
              && Emitted(rs + if slot.Routine? then [slot.rtn] else [])
              && table == old(table)[h := old(table)[h][i :=
                   if slot.Routine? then Placed(kernBase + CodeBase() + CodeTotal(rs)) else slot]]
    {
      hide Emitted, CodeBase;
      assert rs + [] == rs;
      var slot := table[h][i];
      if slot.Routine? {
        var vaddr := EmitOne(slot.rtn, rs);
        table := table[h := table[h][i := Placed(vaddr)]];
      } else {
        assert table[h][i := slot] == table[h];
      }
    }

    method EmitSection(h: Hook, ghost rs: seq<Rtn>)
      requires h in table && Emitted(rs) && totalSize > 0
      requires KeysCovered(rwAddrs, rs + Routines(table[h]))
      modifies `rtnSize, `placed, `table
      ensures Emitted(rs + Routines(old(table[h])))
      ensures table.Keys == old(table.Keys) && (forall k :: k in table && k != h ==> table[k] == old(table[k]))
      ensures Redirected(old(table[h]), table[h], rs, |old(table[h])|)
    {
      hide Emitted, CodeBase, Routines, CodeTotal, KeysCovered, HasKey, Redirected;
      ghost var slots := table[h];
      NoneRedirected(slots, rs);
      NoRoutines();
      assert rs + [] == rs;
      var n := |table[h]|;
      for i := 0 to n
        invariant h in table && table.Keys == old(table.Keys)
        invariant forall k :: k in table && k != h ==> table[k] == old(table[k])
        invariant Redirected(slots, table[h], rs, i)
        invariant Emitted(rs + Routines(slots[..i]))
      {
        RoutinesNext(slots, i, rs);
        if slots[i].Routine? {
          KeyPresent(rwAddrs, rs, slots, i);
        }
        SlotRedirected(slots, table[h], rs, i);
        EmitSlot(h, i, rs + Routines(slots[..i]));
      }
      assert slots[..|slots|] == slots;
    }

    // ---------- the two passes ----------

    ghost function All(): seq<Rtn>
      reads `chain, `table
    {
      Visited(chain, table)
    }

    /** output_callouts(&rwsize): the bytes of code and of read/write data to reserve. */
    method SizingPass() returns (size: nat, rwsize: nat)
      requires ChainOk() && (forall h :: h in chain ==> h in table)
      requires rtnSize == 0 && rwSize == 0 && rwAddrs == []
      modifies `rtnSize, `rwSize, `rwAddrs
      ensures rtnSize == 0 && rwSize == rwsize && Areas(All())
      ensures size == RoundWord(CodeTotal(All()))
      ensures rwsize == RoundWord(RwTotal(rwAddrs, keySize))
    {
      hide Sized, Routines, Visited, Prev;
      var h := head;
      ghost var i := 0;
      NothingSized();
      while true
        invariant i < |chain| && h == chain[i] && Sized(Visited(chain[..i], table))
        decreases |chain| - i
      {
        VisitNext(chain, table, i);
        SizeSection(h, Visited(chain[..i], table));
        i := i + 1;
        var next := Prev(h);
        if next.None? {
          LastIsBase(i);
          break;
        }
        NextInChain(i);
        h := next.value;
      }
      SizedMeans(All());
      rwSize := RoundWord(rwSize);
      size := RoundWord(rtnSize);
      rtnSize := 0;
      rwsize := rwSize;
    }

    lemma NothingSized()
      requires rtnSize == 0 && rwSize == 0 && rwAddrs == [] && chain != []
      ensures forall t :: Sized(Visited(chain[..0], t))
    {
    }

    lemma {:induction false} SizedMeans(rs: seq<Rtn>)
      requires Sized(rs)
      ensures rtnSize == CodeTotal(rs) && Areas(rs) && rwSize == RwTotal(rwAddrs, keySize)
    {
    }

    /** output_callouts(NULL): copies the code and redirects every pointer. */
    method EmittingPass()
      requires ChainOk() && (forall h :: h in chain ==> h in table)
      requires rtnSize == 0 && placed == [] && totalSize > 0 && Areas(All())
      requires rwSize % 8 == 0
      modifies `rtnSize, `rwSize, `placed, `table
      ensures rwSize == old(rwSize) && Emitted(Visited(chain, old(table)))
      ensures AllRedirected(old(table), table, |chain|)
    {
      hide CodeTotal, Visited, Routines, OffsetOf;
      EmitSections();
      rwSize := RoundWord(rwSize);
    }

    /** The first n sections of the chain have been redirected, the others not. */
    ghost predicate AllRedirected(before: map<Hook, seq<Slot>>, after: map<Hook, seq<Slot>>, n: nat)
      reads `totalSize, `rwSize, `chain
    {
      && n <= |chain| && after.Keys == before.Keys
      && (forall j :: 0 <= j < |chain| ==> chain[j] in before)
      && (forall j :: 0 <= j < n ==>
            Redirected(before[chain[j]], after[chain[j]], Visited(chain[..j], before), |before[chain[j]]|))
      && (forall j :: n <= j < |chain| ==> after[chain[j]] == before[chain[j]])
    }

    lemma {:induction false} NextRedirected(before: map<Hook, seq<Slot>>, now: map<Hook, seq<Slot>>,
                                            after: map<Hook, seq<Slot>>, i: nat)
      requires ChainOk() && AllRedirected(before, now, i) && i < |chain|
      requires after.Keys == now.Keys
      requires forall k :: k in now && k != chain[i] ==> after[k] == now[k]
      requires Redirected(before[chain[i]], after[chain[i]], Visited(chain[..i], before), |before[chain[i]]|)
      ensures AllRedirected(before, after, i + 1)
    {
      hide Redirected, Visited, PrevOf;
      forall j | 0 <= j < |chain| && j != i ensures after[chain[j]] == now[chain[j]] {
        assert chain[j] != chain[i];
      }
    }

    method EmitSections()
      requires ChainOk() && (forall h :: h in chain ==> h in table)
      requires rtnSize == 0 && placed == [] && totalSize > 0 && Areas(All())
      modifies `rtnSize, `placed, `table
      ensures Emitted(Visited(chain, old(table))) && AllRedirected(old(table), table, |chain|)
    {
      hide Emitted, Redirected, Routines, Visited, Prev, KeysOf, KeysCovered, Stacked;
      ghost var table0 := table;
      var h := head;
      ghost var i := 0;
      NothingEmitted();
      while true
        invariant i < |chain| && h == chain[i] && Emitted(Visited(chain[..i], table0))
        invariant AllRedirected(table0, table, i) && Areas(Visited(chain, table0))
        decreases |chain| - i
      {
        VisitNext(chain, table0, i);
        VisitedPrefix(chain, table0, i + 1);
        KeysOfFewer(rwAddrs, Visited(chain, table0), Visited(chain[..i + 1], table0));
        ghost var now := table;
        EmitSection(h, Visited(chain[..i], table0));
        NextRedirected(table0, now, table, i);
        i := i + 1;
        var next := Prev(h);
        if next.None? {
          LastIsBase(i);
          break;
        }
        NextInChain(i);
        h := next.value;
      }
    }

    /** Both passes around the allocation, during which the system page may grow into the slack. */
    method AllocateAndWrite(slack: nat, grown: nat) returns (size: nat, rwsize: nat)
      requires ChainOk() && (forall h :: h in chain ==> h in table)
      requires rtnSize == 0 && rwSize == 0 && rwAddrs == [] && placed == []
      requires totalSize > 0 && grown <= slack
      modifies `rtnSize, `rwSize, `rwAddrs, `placed, `table, `totalSize
      ensures var rs := Visited(chain, old(table));
              && Emitted(rs) && Areas(rs) && AllRedirected(old(table), table, |chain|)
              && size == RoundWord(CodeTotal(rs)) && rwsize == RoundWord(RwTotal(rwAddrs, keySize)) == rwSize
              && CodeBase() + CodeTotal(rs) <=
                   RoundPage(old(totalSize) + rwsize + slack) + RoundPage(size)
    {
      hide Visited, Emitted, Areas, AllRedirected, Redirected, CodeTotal, RwTotal, RoundPage;
      ghost var rs := All();
      size, rwsize := SizingPass();
      totalSize := totalSize + grown;
      ReservationSuffices(totalSize - grown, totalSize, slack, rwsize, CodeTotal(rs), size);
      EmittingPass();
    }

    lemma NothingEmitted()
      requires rtnSize == 0 && placed == [] && chain != []
      ensures forall t :: Emitted(Visited(chain[..0], t))
    {
    }

    lemma LastIsBase(i: nat)
      requires ChainOk() && 0 < i <= |chain| && Prev(chain[i - 1]).None?
      ensures i == |chain| && chain[..i] == chain
    {
    }

    lemma NextInChain(i: nat)
      requires ChainOk() && 0 < i <= |chain| && Prev(chain[i - 1]).Some?
      ensures i < |chain| && Prev(chain[i - 1]).value == chain[i]
    {
    }
  }

  lemma NoRoutines()
    ensures forall slots: seq<Slot> :: Routines(slots[..0]) == []
  {
  }

  lemma RoutinesNext(slots: seq<Slot>, i: nat, rs: seq<Rtn>)
    requires i < |slots|
    ensures rs + Routines(slots[..i + 1]) ==
              rs + Routines(slots[..i]) + if slots[i].Routine? then [slots[i].rtn] else []
  {
    assert slots[..i + 1][..i] == slots[..i];
  }

  lemma {:induction false} CodeTotalMonotone(rs: seq<Rtn>, i: nat, j: nat)
    requires i < j <= |rs|
    ensures CodeTotal(rs[..i]) + rs[i].size <= CodeTotal(rs[..j])
    decreases j
  {
    assert rs[..j][..j - 1] == rs[..j - 1];
    if i < j - 1 {
      CodeTotalMonotone(rs, i, j - 1);
    }
  }

  /** What the emitting pass guarantees about any two routines (or one), in terms of what the sizing
      pass promised: code copies do not overlap and stay inside the promised size, behind the
      read/write region; equal keys share one area, different keys never share a byte, and every area
      lies inside the promised region behind the system page. */
  lemma {:induction false} EmittedAsPromised(o: Output, rs: seq<Rtn>, i: nat, j: nat)
    requires o.Emitted(rs) && o.Areas(rs) && i <= j < |rs|
    requires RwTotal(o.rwAddrs, o.keySize) <= o.rwSize
    ensures i < j ==> o.placed[i].codeOff + rs[i].size <= o.placed[j].codeOff
    ensures o.totalSize + o.rwSize <= o.placed[i].codeOff
    ensures o.placed[j].codeOff + rs[j].size <= o.CodeBase() + RoundWord(CodeTotal(rs))
    ensures rs[i].rwKey.Some? ==>
              o.totalSize <= o.placed[i].rwOff && o.placed[i].rwOff + o.keySize(rs[i].rwKey.value) <= o.totalSize + o.rwSize
    ensures rs[i].rwKey.Some? && rs[i].rwKey == rs[j].rwKey ==> o.placed[i].rwOff == o.placed[j].rwOff
    ensures rs[i].rwKey.Some? && rs[j].rwKey.Some? && rs[i].rwKey != rs[j].rwKey ==>
              o.placed[i].rwOff + o.keySize(rs[i].rwKey.value) <= o.placed[j].rwOff ||
              o.placed[j].rwOff + o.keySize(rs[j].rwKey.value) <= o.placed[i].rwOff
  {
    if i < j {
      CodeTotalMonotone(rs, i, j);
    }
    CodeTotalMonotone(rs, j, |rs|);
    assert rs[..|rs|] == rs;
    assert rs[i] in rs && rs[j] in rs;
    hide CodeTotal, OffsetOf, HasKey, RwTotal, Stacked, UsesKey;
    if rs[i].rwKey.Some? {
      AreasAreDisjoint(o.rwAddrs, o.keySize, rs[i].rwKey.value, rs[i].rwKey.value);
      if rs[j].rwKey.Some? {
        AreasAreDisjoint(o.rwAddrs, o.keySize, rs[i].rwKey.value, rs[j].rwKey.value);
      }
    }
  }

  /** No read/write area is reserved for nothing. */
  lemma {:induction false} EveryAreaIsUsed(o: Output, rs: seq<Rtn>, i: nat)
    requires o.Emitted(rs) && o.Areas(rs) && i < |o.rwAddrs|
    ensures exists j :: 0 <= j < |rs| && rs[j].rwKey == Some(o.rwAddrs[i].key) &&
                        o.placed[j].rwOff == o.totalSize + o.rwAddrs[i].off
  {
    var key := o.rwAddrs[i].key;
    OwnOffset(o.rwAddrs, i);
    assert UsesKey(rs, key);
    hide OffsetOf, HasKey, CodeTotal, RwTotal, Stacked, DistinctKeys;
    var j :| 0 <= j < |rs| && rs[j].rwKey == Some(key);
    assert o.placed[j].rtn == rs[j];
    assert o.placed[j].rwOff == o.RwOffset(rs[j]);
  }

  /** The memory reserved from the sizing pass holds everything the emitting pass writes, even if
      the system page has grown by up to the slack since. */
  lemma ReservationSuffices(sizedTotal: nat, total: nat, slack: nat, rwsize: nat, code: nat, size: nat)
    requires total <= sizedTotal + slack && size == RoundWord(code)
    ensures RoundPage(total + rwsize) + code <= RoundPage(sizedTotal + rwsize + slack) + RoundPage(size)
  {
    RoundPageMonotone(total + rwsize, sizedTotal + rwsize + slack);
  }

  lemma {:induction false} RoutineListed(slots: seq<Slot>, i: nat)
    requires i < |slots| && slots[i].Routine?
    ensures slots[i].rtn in Routines(slots)
    decreases |slots|
  {
    if i < |slots| - 1 {
      assert slots[..|slots| - 1][i] == slots[i];
      RoutineListed(slots[..|slots| - 1], i);
    }
  }

  lemma {:induction false} KeyPresent(areas: seq<RwArea>, rs: seq<Rtn>, slots: seq<Slot>, i: nat)
    requires KeysCovered(areas, rs + Routines(slots)) && i < |slots| && slots[i].Routine?
    ensures slots[i].rtn.rwKey.Some? ==> HasKey(areas, slots[i].rtn.rwKey.value)
  {
    RoutineListed(slots, i);
    assert slots[i].rtn in rs + Routines(slots);
  }

  lemma {:induction false} VisitNext(chain: seq<Hook>, table: map<Hook, seq<Slot>>, i: nat)
    requires i < |chain| && chain[i] in table
    ensures Visited(chain[..i + 1], table) == Visited(chain[..i], table) + Routines(table[chain[i]])
  {
    assert chain[..i + 1][..i] == chain[..i];
  }

  lemma {:induction false} VisitedPrefix(chain: seq<Hook>, table: map<Hook, seq<Slot>>, n: nat)
    requires n <= |chain|
    ensures Visited(chain[..n], table) <= Visited(chain, table)
    decreases |chain|
  {
    if n == |chain| {
      assert chain[..n] == chain;
    } else {
      var shorter := chain[..|chain| - 1];
      VisitedPrefix(shorter, table, n);
      assert shorter[..n] == chain[..n];
    }
  }

  lemma KeysOfFewer(areas: seq<RwArea>, rs: seq<Rtn>, fewer: seq<Rtn>)
    requires KeysOf(areas, rs) && fewer <= rs
    ensures KeysCovered(areas, fewer)
  {
    hide UsesKey, HasKey;
    forall r | r in fewer && r.rwKey.Some? ensures HasKey(areas, r.rwKey.value) {
      assert r in rs;
    }
  }

  lemma {:induction false} CodeTotalNext(rs: seq<Rtn>, r: Rtn)
    ensures CodeTotal([]) == 0 && CodeTotal(rs + [r]) == CodeTotal(rs) + r.size
  {
    assert (rs + [r])[..|rs|] == rs;
  }

  lemma UsedStays(rs: seq<Rtn>, r: Rtn, key: nat)
    requires UsesKey(rs, key)
    ensures UsesKey(rs + [r], key)
  {
    var i :| 0 <= i < |rs| && rs[i].rwKey == Some(key);
    assert (rs + [r])[i] == rs[i];
  }

  lemma KeysKept(areas: seq<RwArea>, rs: seq<Rtn>, r: Rtn)
    requires KeysOf(areas, rs) && (r.rwKey.Some? ==> HasKey(areas, r.rwKey.value))
    ensures KeysOf(areas, rs + [r])
  {
    hide HasKey, UsesKey;
    forall i | 0 <= i < |areas| ensures UsesKey(rs + [r], areas[i].key) {
      UsedStays(rs, r, areas[i].key);
    }
  }

  lemma KeysExtended(areas: seq<RwArea>, area: RwArea, rs: seq<Rtn>, r: Rtn)
    requires KeysOf(areas, rs) && r.rwKey == Some(area.key)
    requires forall j :: 0 <= j < |areas| ==> areas[j].key != area.key
    ensures KeysOf([area] + areas, rs + [r])
  {
    var out := [area] + areas;
    assert out[0].key == area.key && HasKey(out, area.key);
    forall q | q in rs + [r] && q.rwKey.Some? ensures HasKey(out, q.rwKey.value) {
      if q in rs {
        var i :| 0 <= i < |areas| && areas[i].key == q.rwKey.value;
        assert out[i + 1] == areas[i];
      }
    }
    UsedLast(rs, r);
    hide UsesKey, HasKey;
    forall i | 0 <= i < |out| ensures UsesKey(rs + [r], out[i].key) {
      if i > 0 {
        UsedStays(rs, r, areas[i - 1].key);
      }
    }
  }

  lemma UsedLast(rs: seq<Rtn>, r: Rtn)
    ensures r.rwKey.Some? ==> UsesKey(rs + [r], r.rwKey.value)
  {
    assert (rs + [r])[|rs|] == r;
  }
}
