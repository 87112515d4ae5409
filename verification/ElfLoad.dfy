/** Loading the program segments of a bootstrap executable for a kernel that runs
  * with the MMU on: pages of the boot image are mapped where they lie, and what
  * cannot be shared with the image is copied into fresh RAM.
  */
module ElfLoad {
  import opened Common

  type PageSize = n: nat | n > 0 witness 4096

  /** The page size is fixed when the processor starts; nothing here depends on its value. */
  const PAGE: PageSize

  // ----- Page arithmetic -----

  function Off(x: nat): nat {
    x % PAGE
  }

  function Trunc(x: nat): nat {
    x - x % PAGE
  }

  function Round(x: nat): nat {
    Trunc(x + PAGE - 1)
  }

  predicate Aligned(x: nat) {
    x % PAGE == 0
  }

  lemma {:induction false} Climb(q: nat, p: nat)
    requires q < p
    ensures q * PAGE + PAGE <= p * PAGE
  {
    assert p * PAGE == (p - 1) * PAGE + PAGE;
    if q + 1 < p {
      Climb(q, p - 1);
    }
  }

  /** A number splits into a page count and an offset in one way. */
  lemma Unique(q: nat, p: nat, r: nat, s: nat)
    requires r < PAGE && s < PAGE && q * PAGE + r == p * PAGE + s
    ensures q == p && r == s
  {
    if q < p {
      Climb(q, p);
    } else if p < q {
      Climb(p, q);
    }
  }

  lemma Distribute(x: nat, y: nat)
    ensures (x + y) * PAGE == x * PAGE + y * PAGE
  {
  }

  lemma Quotient(x: nat) returns (q: nat)
    ensures x == q * PAGE + Off(x) && Off(x) < PAGE && Trunc(x) == q * PAGE
    ensures Aligned(x) <==> Off(x) == 0
  {
    q := x / PAGE;
  }

  lemma Shift(a: nat, b: nat)
    requires Aligned(a)
    ensures Off(a + b) == Off(b) && Trunc(a + b) == a + Trunc(b)
    ensures Aligned(b) ==> Aligned(a + b)
  {
    hide Off, Trunc, Aligned;
    var qa := Quotient(a);
    var qb := Quotient(b);
    var qc := Quotient(a + b);
    Distribute(qa, qb);
    Unique(qa + qb, qc, Off(b), Off(a + b));
  }

  lemma Split(x: nat)
    ensures Aligned(Trunc(x)) && x == Trunc(x) + Off(x) && 0 <= Off(x) < PAGE
    ensures Aligned(x) <==> Trunc(x) == x
  {
    hide Off, Trunc, Aligned;
    var q := Quotient(x);
    var p := Quotient(Trunc(x));
    Unique(q, p, 0, Off(Trunc(x)));
  }

  /** Page boundaries are at least a page apart. */
  lemma Apart(a: nat, b: nat)
    requires Aligned(a) && Aligned(b) && a < b
    ensures a + PAGE <= b && Aligned(b - a)
  {
    hide Off, Trunc, Aligned;
    var qa := Quotient(a);
    var qb := Quotient(b);
    if qb < qa {
      Climb(qb, qa);
    } else {
      Climb(qa, qb);
    }
    Shift(a, b - a);
    var q := Quotient(b - a);
  }

  lemma Ordered(x: nat, y: nat)
    requires x <= y
    ensures Trunc(x) <= Trunc(y)
  {
    Split(x);
    Split(y);
    hide Off, Trunc, Aligned;
    if Trunc(y) < Trunc(x) {
      Apart(Trunc(y), Trunc(x));
    }
  }

  lemma RoundUp(x: nat)
    ensures Aligned(Round(x)) && x <= Round(x) < x + PAGE
    ensures Aligned(x) ==> Round(x) == x
  {
    Split(x + PAGE - 1);
    if Aligned(x) {
      Shift(x, PAGE - 1);
      Split(PAGE - 1);
      Unique(0, (PAGE - 1) / PAGE, PAGE - 1, (PAGE - 1) % PAGE);
    }
  }

  // ----- The machine -----

  /** A program header. `load` is p_type == PT_LOAD, `writable` is PF_W. */
  datatype Phdr = Phdr(load: bool, writable: bool, offset: nat, vaddr: nat, paddr: nat, filesz: nat, memsz: nat)

  predicate Covers(start: nat, size: nat, a: nat) {
    start <= a < start + size
  }

  /** The table after mapping size bytes (whole pages) at vaddr to paddr. */
  ghost predicate Mapped(before: map<nat, nat>, after: map<nat, nat>, vaddr: nat, paddr: nat, size: nat) {
    && (forall a: nat :: a in after <==> a in before || (Aligned(a) && Covers(vaddr, size, a)))
    && (forall a: nat :: a in after ==>
                           after[a] == if Aligned(a) && Covers(vaddr, size, a) then paddr + (a - vaddr) else before[a])
  }

  lemma MapOne(before: map<nat, nat>, mid: map<nat, nat>, after: map<nat, nat>, vaddr: nat, paddr: nat, size: nat)
    requires Aligned(vaddr + size) && Mapped(before, mid, vaddr, paddr, size)
    requires after == mid[vaddr + size := paddr + size]
    ensures Mapped(before, after, vaddr, paddr, size + PAGE)
  {
    forall a: nat | Aligned(a) && Covers(vaddr, size + PAGE, a) && !Covers(vaddr, size, a)
      ensures a == vaddr + size
    {
      if a > vaddr + size {
        Apart(vaddr + size, a);
      }
    }
  }

  /** Where the byte at virtual address v lies, if its page is mapped. */
  predicate Resident(pages: map<nat, nat>, v: nat) {
    Trunc(v) in pages
  }

  function Physical(pages: map<nat, nat>, v: nat): nat
    requires Resident(pages, v)
  {
    pages[Trunc(v)] + Off(v)
  }

  lemma MappedAt(before: map<nat, nat>, after: map<nat, nat>, vaddr: nat, paddr: nat, size: nat, v: nat)
    requires Mapped(before, after, vaddr, paddr, size) && Aligned(vaddr) && Aligned(size)
    ensures Covers(vaddr, size, v) ==>
              && Resident(after, v)
              && Physical(after, v) == paddr + (v - vaddr)
    ensures !Covers(vaddr, size, v) ==>
              && (Resident(before, v) ==> Resident(after, v))
              && (Resident(before, v) ==> Physical(after, v) == Physical(before, v))
  {
    Split(v);
    Shift(vaddr, size);
    if Covers(vaddr, size, v) {
      Ordered(vaddr, v);
      Split(vaddr);
    } else if v >= vaddr + size {
      Ordered(vaddr + size, v);
      Split(vaddr + size);
    }
  }

  // ----- What loading a segment promises -----

  /** Address of the image byte that belongs at the start of the segment's first page. */
  function Start(addr: nat, ph: Phdr): int {
    if ph.paddr != 0 then Trunc(ph.paddr) else addr + ph.offset - Off(ph.vaddr)
  }

  /** Whole pages of virtual space from the segment's first page. */
  function Span(ph: Phdr): nat {
    Round(ph.memsz + Off(ph.vaddr))
  }

  /** A physical address that no later allocation can overwrite. */
  predicate Held(length: nat, used: set<nat>, a: int) {
    0 <= a < length && Trunc(a) in used
  }

  predicate FilePart(addr: nat, ph: Phdr, a: int) {
    0 <= a - Start(addr, ph) - Off(ph.vaddr) < ph.filesz
  }

  /** The segment is no longer in the file than in memory, and the file part lies
    * in memory that is kept out of the allocator's reach. */
  ghost predicate Available(addr: nat, ph: Phdr, length: nat, used: set<nat>) {
    && ph.filesz <= ph.memsz
    && 0 <= Start(addr, ph) && Start(addr, ph) + Off(ph.vaddr) + ph.filesz <= length
    && (ph.paddr == 0 ==> Start(addr, ph) + Round(Off(ph.vaddr) + ph.filesz) <= length)
    && forall a :: FilePart(addr, ph, a) ==> Held(length, used, a)
  }

  /** Physical address a is held and has the value of byte i of the segment. */
  predicate Backed(addr: nat, ph: Phdr, image: seq<Byte>, mem: seq<Byte>, used: set<nat>, a: int, i: nat) {
    && Held(|mem|, used, a)
    && if i < ph.filesz then
         var from := Start(addr, ph) + Off(ph.vaddr) + i;
         0 <= from < |image| && mem[a] == image[from]
       else
         mem[a] == 0
  }

  /** Byte i of the segment: its file contents, or zero past the end of the file part. */
  predicate ByteLoaded(addr: nat, ph: Phdr, image: seq<Byte>, mem: seq<Byte>, pages: map<nat, nat>, used: set<nat>, i: nat)
  {
    && Resident(pages, ph.vaddr + i)
    && Backed(addr, ph, image, mem, used, Physical(pages, ph.vaddr + i), i)
  }

  ghost predicate Loaded(addr: nat, ph: Phdr, image: seq<Byte>, mem: seq<Byte>, pages: map<nat, nat>, used: set<nat>) {
    forall i: nat :: i < ph.memsz ==> ByteLoaded(addr, ph, image, mem, pages, used, i)
  }

  /** The sizes after the first page's offset has been added and, when a read-only
    * segment is all file, rounded to pages. */
  predicate Sizes(ph: Phdr, filesz: nat, memsz: nat) {
    || (filesz == ph.filesz + Off(ph.vaddr) && memsz == ph.memsz + Off(ph.vaddr))
    || (ph.filesz == ph.memsz && filesz == memsz == Round(ph.filesz + Off(ph.vaddr)))
  }

  /** Memory in use stays in use and keeps its contents. */
  ghost predicate Kept(used0: set<nat>, used1: set<nat>, mem0: seq<Byte>, mem1: seq<Byte>) {
    && used0 <= used1
    && |mem0| == |mem1|
    && forall a :: Held(|mem0|, used0, a) ==> mem1[a] == mem0[a]
  }

  ghost predicate Untouched(vaddr: nat, size: nat, before: map<nat, nat>, after: map<nat, nat>) {
    forall v: nat :: !Covers(vaddr, size, v) && Resident(before, v) ==>
                       Resident(after, v) && Physical(after, v) == Physical(before, v)
  }

  /** What loading one segment does: its bytes are in place, memory in use keeps its
    * contents, and virtual addresses outside its pages keep their mapping. */
  ghost predicate Step(addr: nat, ph: Phdr, mem0: seq<Byte>, mem1: seq<Byte>, used0: set<nat>, used1: set<nat>,
                       pages0: map<nat, nat>, pages1: map<nat, nat>) {
    && Loaded(addr, ph, mem0, mem1, pages1, used1)
    && Kept(used0, used1, mem0, mem1)
    && Untouched(Trunc(ph.vaddr), Span(ph), pages0, pages1)
  }

  /** A stretch of whole pages that nothing uses. */
  predicate Room(length: nat, used: set<nat>, at: nat, size: nat) {
    Aligned(at) && at + size <= length && forall a: nat | at <= a < at + size :: Trunc(a) !in used
  }

  ghost predicate HasRoom(length: nat, used: set<nat>, size: nat) {
    exists at: nat :: Room(length, used, at, size)
  }

  /** The RAM a segment asks for: all of it, or what lies behind the whole pages of its file part. */
  function RamNeeded(ph: Phdr): nat
    requires ph.filesz <= ph.memsz
  {
    if ph.paddr == 0 then Span(ph)
    else if ph.memsz == ph.filesz then 0
    else Round(ph.memsz + Off(ph.vaddr) - Trunc(ph.filesz + Off(ph.vaddr)))
  }

  /** memset to zero. */
  function Zeroed(mem: seq<Byte>, at: nat, size: nat): seq<Byte> {
    seq(|mem|, a requires 0 <= a < |mem| => if Covers(at, size, a) then 0 else mem[a])
  }

  const FOUR_GIB := 0x1_0000_0000

  predicate AllZero(mem: seq<Byte>, at: nat, size: nat) {
    forall a: nat :: a < |mem| && Covers(at, size, a) ==> mem[a] == 0
  }

  /** Zeroing through an address cut to 32 bits does what it should if and only if the address fits, or
      the RAM meant and the RAM hit held zeros already. */
  lemma {:induction false} ClearedInPlace(mem: seq<Byte>, daddr: nat, size: nat)
    requires daddr + size <= |mem| && size <= FOUR_GIB
    ensures Zeroed(mem, daddr % FOUR_GIB, size) == Zeroed(mem, daddr, size)
            <==> daddr < FOUR_GIB || (AllZero(mem, daddr, size) && AllZero(mem, daddr % FOUR_GIB, size))
  {
    if daddr >= FOUR_GIB {
      var low := daddr % FOUR_GIB;
      assert low + FOUR_GIB <= daddr;
      var hit, meant := Zeroed(mem, low, size), Zeroed(mem, daddr, size);
      if hit == meant {
        forall a: nat | a < |mem| && (Covers(low, size, a) || Covers(daddr, size, a)) ensures mem[a] == 0 {
          assert hit[a] == meant[a];
        }
      }
    }
  }

  /** memmove. */
  function Moved(mem: seq<Byte>, dst: nat, src: nat, len: nat): seq<Byte>
    requires src + len <= |mem|
  {
    seq(|mem|, a requires 0 <= a < |mem| => if Covers(dst, len, a) then mem[src + (a - dst)] else mem[a])
  }

  /** The memory after size bytes of fresh RAM at daddr were zeroed and then given
    * a copy of len bytes from src. */
  ghost predicate Copied(mem0: seq<Byte>, mem1: seq<Byte>, used0: set<nat>, used1: set<nat>,
                         daddr: nat, size: nat, src: nat, len: nat) {
    && |mem0| == |mem1| && used0 <= used1
    && daddr + size <= |mem0| && len <= size && (len > 0 ==> src + len <= |mem0|)
    && (forall a: nat :: a < |mem0| && !Covers(daddr, size, a) ==> mem1[a] == mem0[a])
    && (forall a: nat :: Covers(daddr, size, a) ==> Trunc(a) !in used0 && Trunc(a) in used1)
    && (forall a: nat :: Covers(daddr, size, a) && a - daddr >= len ==> mem1[a] == 0)
    && (forall a: nat :: Covers(daddr, size, a) && a - daddr < len && Trunc(src + (a - daddr)) in used0 ==>
                           mem1[a] == mem0[src + (a - daddr)])
  }

  lemma FilledRam(mem0: seq<Byte>, clear: seq<Byte>, mem1: seq<Byte>, used0: set<nat>, used1: set<nat>,
                  daddr: nat, size: nat, src: nat, len: nat)
    requires daddr + size <= |mem0| && len <= size && src + len <= |mem0| && used0 <= used1
    requires forall a: nat :: Covers(daddr, size, a) ==> Trunc(a) !in used0 && Trunc(a) in used1
    requires clear == Zeroed(mem0, daddr, size) && mem1 == Moved(clear, daddr, src, len)
    ensures Copied(mem0, mem1, used0, used1, daddr, size, src, len)
  {
    hide Trunc;
  }

  lemma CopyKeeps(mem0: seq<Byte>, mem1: seq<Byte>, used0: set<nat>, used1: set<nat>,
                  daddr: nat, size: nat, src: nat, len: nat)
    requires Copied(mem0, mem1, used0, used1, daddr, size, src, len)
    ensures Kept(used0, used1, mem0, mem1)
  {
  }

  lemma CopyBacks(addr: nat, ph: Phdr, mem0: seq<Byte>, mem1: seq<Byte>, used0: set<nat>, used1: set<nat>,
                  daddr: nat, size: nat, src: nat, len: nat, k: nat, i: nat)
    requires Available(addr, ph, |mem0|, used0)
    requires Copied(mem0, mem1, used0, used1, daddr, size, src, len) && k < size
    requires i < ph.filesz ==> k < len && src + k == Start(addr, ph) + Off(ph.vaddr) + i
    requires i >= ph.filesz ==> k >= len
    ensures Backed(addr, ph, mem0, mem1, used1, daddr + k, i)
  {
    var a := daddr + k;
    assert Covers(daddr, size, a) && a - daddr == k;
    if i < ph.filesz {
      assert FilePart(addr, ph, src + k);
    } else {
      assert mem1[a] == 0;
    }
  }

  /** One byte of a segment whose first pages are image pages and whose later pages are RAM. */
  lemma ByteInPlace(addr: nat, ph: Phdr, image: seq<Byte>, mem: seq<Byte>, used0: set<nat>, used1: set<nat>,
                    pages0: map<nat, nat>, pages1: map<nat, nat>, pages2: map<nat, nat>,
                    whole: nat, daddr: nat, size: nat, i: nat)
    requires ph.paddr != 0 && Available(addr, ph, |image|, used0) && Kept(used0, used1, image, mem)
    requires Aligned(whole) && Mapped(pages0, pages1, Trunc(ph.vaddr), Trunc(ph.paddr), whole)
    requires Aligned(size) && Mapped(pages1, pages2, Trunc(ph.vaddr) + whole, daddr, size)
    requires Off(ph.vaddr) + i < whole ==> i < ph.filesz
    requires Off(ph.vaddr) + i >= whole ==>
               && Off(ph.vaddr) + i < whole + size
               && Backed(addr, ph, image, mem, used1, daddr + (Off(ph.vaddr) + i - whole), i)
    ensures ByteLoaded(addr, ph, image, mem, pages2, used1, i)
  {
    var v := ph.vaddr + i;
    Split(ph.vaddr);
    Shift(Trunc(ph.vaddr), whole);
    MappedAt(pages0, pages1, Trunc(ph.vaddr), Trunc(ph.paddr), whole, v);
    MappedAt(pages1, pages2, Trunc(ph.vaddr) + whole, daddr, size, v);
    if Off(ph.vaddr) + i < whole {
      assert FilePart(addr, ph, Start(addr, ph) + Off(ph.vaddr) + i);
    }
  }

  /** Rounding commutes with taking whole pages off the front. */
  lemma RoundAfter(whole: nat, x: nat)
    requires Aligned(whole) && whole <= x
    ensures whole + Round(x - whole) == Round(x)
  {
    Shift(whole, x - whole + PAGE - 1);
  }

  /** The sizes with which the rest of a segment in place is backed by RAM. */
  predicate Divided(ph: Phdr, filesz: nat, size: nat) {
    if ph.memsz == ph.filesz then
      filesz == Span(ph) && size == 0
    else
      filesz == ph.filesz + Off(ph.vaddr) <= ph.memsz + Off(ph.vaddr)
      && size == Round(ph.memsz + Off(ph.vaddr) - Trunc(filesz))
  }

  lemma DividedSpan(ph: Phdr, filesz: nat, size: nat)
    requires Divided(ph, filesz, size)
    ensures Aligned(Trunc(filesz)) && Aligned(size) && Trunc(filesz) + size == Span(ph) && Off(filesz) <= size
    ensures ph.memsz + Off(ph.vaddr) <= Span(ph)
    ensures size == 0 ==> ph.memsz == ph.filesz
  {
    var m := ph.memsz + Off(ph.vaddr);
    RoundUp(m);
    Split(filesz);
    if ph.memsz != ph.filesz {
      RoundAfter(Trunc(filesz), m);
      RoundUp(m - Trunc(filesz));
    } else {
      Split(0);
    }
  }

  lemma MapTwice(pages0: map<nat, nat>, pages1: map<nat, nat>, pages2: map<nat, nat>,
                 vaddr: nat, paddr: nat, whole: nat, daddr: nat, size: nat)
    requires Aligned(vaddr) && Aligned(whole) && Aligned(size)
    requires Mapped(pages0, pages1, vaddr, paddr, whole) && Mapped(pages1, pages2, vaddr + whole, daddr, size)
    ensures Untouched(vaddr, whole + size, pages0, pages2)
  {
    Shift(vaddr, whole);
    forall v: nat | !Covers(vaddr, whole + size, v) && Resident(pages0, v)
      ensures Resident(pages2, v) && Physical(pages2, v) == Physical(pages0, v)
    {
      MappedAt(pages0, pages1, vaddr, paddr, whole, v);
      MappedAt(pages1, pages2, vaddr + whole, daddr, size, v);
    }
  }

  lemma EachInPlace(addr: nat, ph: Phdr, mem0: seq<Byte>, mem1: seq<Byte>, used0: set<nat>, used1: set<nat>,
                    pages0: map<nat, nat>, pages1: map<nat, nat>, pages2: map<nat, nat>,
                    filesz: nat, daddr: nat, size: nat, i: nat)
    requires ph.paddr != 0 && Available(addr, ph, |mem0|, used0) && Divided(ph, filesz, size) && i < ph.memsz
    requires Mapped(pages0, pages1, Trunc(ph.vaddr), Trunc(ph.paddr), Trunc(filesz))
    requires Mapped(pages1, pages2, Trunc(ph.vaddr) + Trunc(filesz), daddr, size)
    requires Copied(mem0, mem1, used0, used1, daddr, size, Trunc(ph.paddr) + Trunc(filesz), Off(filesz))
    ensures ByteLoaded(addr, ph, mem0, mem1, pages2, used1, i)
  {
    hide Mapped, Copied, Kept, Round, Aligned, ByteLoaded, Backed, Trunc, Off, Span;
    var whole, src, o := Trunc(filesz), Trunc(ph.paddr) + Trunc(filesz), Off(ph.vaddr) + i;
    DividedSpan(ph, filesz, size);
    Split(filesz);
    CopyKeeps(mem0, mem1, used0, used1, daddr, size, src, Off(filesz));
    if o >= whole {
      CopyBacks(addr, ph, mem0, mem1, used0, used1, daddr, size, src, Off(filesz), o - whole, i);
    }
    ByteInPlace(addr, ph, mem0, mem1, used0, used1, pages0, pages1, pages2, whole, daddr, size, i);
  }

  lemma InPlace(addr: nat, ph: Phdr, mem0: seq<Byte>, mem1: seq<Byte>, used0: set<nat>, used1: set<nat>,
                pages0: map<nat, nat>, pages1: map<nat, nat>, pages2: map<nat, nat>,
                filesz: nat, daddr: nat, size: nat)
    requires ph.paddr != 0 && Available(addr, ph, |mem0|, used0) && Divided(ph, filesz, size)
    requires Mapped(pages0, pages1, Trunc(ph.vaddr), Trunc(ph.paddr), Trunc(filesz))
    requires Mapped(pages1, pages2, Trunc(ph.vaddr) + Trunc(filesz), daddr, size)
    requires Copied(mem0, mem1, used0, used1, daddr, size, Trunc(ph.paddr) + Trunc(filesz), Off(filesz))
    ensures Step(addr, ph, mem0, mem1, used0, used1, pages0, pages2)
  {
    var whole, src := Trunc(filesz), Trunc(ph.paddr) + Trunc(filesz);
    hide Mapped, Copied, Kept, Available, Untouched, Round, Aligned, ByteLoaded, Backed, Trunc, Off, Span, Divided, Start;
    DividedSpan(ph, filesz, size);
    Split(ph.vaddr);
    CopyKeeps(mem0, mem1, used0, used1, daddr, size, src, Off(filesz));
    MapTwice(pages0, pages1, pages2, Trunc(ph.vaddr), Trunc(ph.paddr), whole, daddr, size);
    forall i: nat | i < ph.memsz ensures ByteLoaded(addr, ph, mem0, mem1, pages2, used1, i) {
      EachInPlace(addr, ph, mem0, mem1, used0, used1, pages0, pages1, pages2, filesz, daddr, size, i);
    }
  }

  lemma SizesDivide(ph: Phdr, filesz: nat, memsz: nat)
    requires Sizes(ph, filesz, memsz) && ph.filesz <= ph.memsz
    ensures ph.memsz == ph.filesz ==> Divided(ph, Round(filesz), Round(Round(filesz) - Trunc(Round(filesz))))
    ensures ph.memsz != ph.filesz ==> memsz >= Trunc(filesz) && Divided(ph, filesz, Round(memsz - Trunc(filesz)))
    ensures filesz <= memsz
  {
    RoundUp(ph.filesz + Off(ph.vaddr));
    RoundUp(Span(ph));
    RoundUp(0);
    Split(Span(ph));
    Split(0);
  }

  lemma NeedsTail(ph: Phdr, filesz: nat, size: nat)
    requires ph.paddr != 0 && ph.filesz <= ph.memsz && Divided(ph, filesz, size)
    ensures size == 0 || size == RamNeeded(ph)
  {
  }

  /** Whole pages at vaddr and behind them size bytes, of which len come from behind the pages at paddr. */
  predicate Planned(vaddr: nat, paddr: nat, whole: nat, size: nat, len: nat, length: nat) {
    && Aligned(vaddr) && Aligned(paddr) && Aligned(vaddr + whole) && Round(whole) == whole
    && Round(size) == size && len <= size && (size != 0 ==> paddr + whole + len <= length)
  }

  lemma PlanInPlace(addr: nat, ph: Phdr, filesz: nat, size: nat, length: nat, used: set<nat>)
    requires ph.paddr != 0 && Available(addr, ph, length, used) && Divided(ph, filesz, size)
    ensures Planned(Trunc(ph.vaddr), Trunc(ph.paddr), Trunc(filesz), size, Off(filesz), length)
  {
    DividedSpan(ph, filesz, size);
    Split(ph.vaddr);
    Split(ph.paddr);
    Split(filesz);
    Shift(Trunc(ph.vaddr), Trunc(filesz));
    RoundUp(Trunc(filesz));
    RoundUp(size);
  }

  lemma Nothing(pages: map<nat, nat>, mem: seq<Byte>, used: set<nat>, vaddr: nat, src: nat)
    ensures Mapped(pages, pages, vaddr, 0, 0) && Copied(mem, mem, used, used, 0, 0, src, 0)
  {
  }

  lemma SizesRound(ph: Phdr, filesz: nat, memsz: nat)
    requires Sizes(ph, filesz, memsz) && ph.filesz <= ph.memsz
    ensures Round(memsz) == Span(ph) && filesz <= memsz
    ensures ph.memsz + Off(ph.vaddr) <= Span(ph)
    ensures ph.filesz + Off(ph.vaddr) <= filesz <= Round(ph.filesz + Off(ph.vaddr))
    ensures ph.filesz < ph.memsz ==> filesz == ph.filesz + Off(ph.vaddr)
  {
    RoundUp(ph.filesz + Off(ph.vaddr));
    RoundUp(ph.memsz + Off(ph.vaddr));
    RoundUp(Span(ph));
  }

  lemma EachCopied(addr: nat, ph: Phdr, mem0: seq<Byte>, mem1: seq<Byte>, used0: set<nat>, used1: set<nat>,
                   pages0: map<nat, nat>, pages1: map<nat, nat>, filesz: nat, memsz: nat, daddr: nat, i: nat)
    requires ph.paddr == 0 && Available(addr, ph, |mem0|, used0) && Sizes(ph, filesz, memsz) && i < ph.memsz
    requires Copied(mem0, mem1, used0, used1, daddr, Round(memsz), Start(addr, ph), filesz)
    requires Mapped(pages0, pages1, Trunc(ph.vaddr), daddr, Round(memsz))
    ensures ByteLoaded(addr, ph, mem0, mem1, pages1, used1, i)
  {
    hide Copied, Mapped, Round, Backed, Trunc, Off, Aligned, Span, Physical;
    SizesRound(ph, filesz, memsz);
    Split(ph.vaddr);
    RoundUp(memsz);
    MappedAt(pages0, pages1, Trunc(ph.vaddr), daddr, Round(memsz), ph.vaddr + i);
    CopyBacks(addr, ph, mem0, mem1, used0, used1, daddr, Round(memsz), Start(addr, ph), filesz, Off(ph.vaddr) + i, i);
  }

  lemma CopiedOut(addr: nat, ph: Phdr, mem0: seq<Byte>, mem1: seq<Byte>, used0: set<nat>, used1: set<nat>,
                  pages0: map<nat, nat>, pages1: map<nat, nat>, filesz: nat, memsz: nat, daddr: nat)
    requires ph.paddr == 0 && Available(addr, ph, |mem0|, used0) && Sizes(ph, filesz, memsz)
    requires Copied(mem0, mem1, used0, used1, daddr, Round(memsz), Start(addr, ph), filesz)
    requires Mapped(pages0, pages1, Trunc(ph.vaddr), daddr, Round(memsz))
    ensures Step(addr, ph, mem0, mem1, used0, used1, pages0, pages1)
  {
    CopyKeeps(mem0, mem1, used0, used1, daddr, Round(memsz), Start(addr, ph), filesz);
    SizesRound(ph, filesz, memsz);
    Split(ph.vaddr);
    RoundUp(memsz);
    hide Copied, Kept, Mapped, Round, Span, ByteLoaded, Available, Sizes, Start, Trunc, Off;
    forall i: nat | i < ph.memsz ensures ByteLoaded(addr, ph, mem0, mem1, pages1, used1, i) {
      EachCopied(addr, ph, mem0, mem1, used0, used1, pages0, pages1, filesz, memsz, daddr, i);
    }
    forall v: nat | !Covers(Trunc(ph.vaddr), Span(ph), v) && Resident(pages0, v)
      ensures Resident(pages1, v) && Physical(pages1, v) == Physical(pages0, v)
    {
      MappedAt(pages0, pages1, Trunc(ph.vaddr), daddr, Round(memsz), v);
    }
  }

  // ----- The bounds of the bootstrap -----

  function NextBase(base: nat, page: nat): nat {
    if base == 0 || base > page then page else base
  }

  function NextEnd(end: nat, ph: Phdr): nat {
    if end < ph.vaddr + ph.memsz then ph.vaddr + ph.memsz else end
  }

  function Base(base: nat, phdrs: seq<Phdr>): nat {
    if phdrs == [] then base
    else
      var before, last := Base(base, phdrs[..|phdrs| - 1]), phdrs[|phdrs| - 1];
      if last.load then NextBase(before, Trunc(last.vaddr)) else before
  }

  function End(end: nat, phdrs: seq<Phdr>): nat {
    if phdrs == [] then end
    else
      var before, last := End(end, phdrs[..|phdrs| - 1]), phdrs[|phdrs| - 1];
      if last.load then NextEnd(before, last) else before
  }

  // ----- Several segments -----

  predicate Apiece(a: Phdr, b: Phdr) {
    Trunc(a.vaddr) + Span(a) <= Trunc(b.vaddr) || Trunc(b.vaddr) + Span(b) <= Trunc(a.vaddr)
  }

  /** No two segments share a page of virtual space. */
  predicate Separate(phdrs: seq<Phdr>) {
    forall i, j :: 0 <= i < j < |phdrs| && phdrs[i].load && phdrs[j].load ==> Apiece(phdrs[i], phdrs[j])
  }

  lemma KeptSelf(used: set<nat>, mem: seq<Byte>)
    ensures Kept(used, used, mem, mem)
  {
  }

  lemma KeptOn(used0: set<nat>, used1: set<nat>, used2: set<nat>, mem0: seq<Byte>, mem1: seq<Byte>, mem2: seq<Byte>)
    requires Kept(used0, used1, mem0, mem1) && Kept(used1, used2, mem1, mem2)
    ensures Kept(used0, used2, mem0, mem2)
  {
  }

  lemma StillAvailable(addr: nat, ph: Phdr, mem0: seq<Byte>, mem1: seq<Byte>, used0: set<nat>, used1: set<nat>)
    requires Available(addr, ph, |mem0|, used0) && Kept(used0, used1, mem0, mem1)
    ensures Available(addr, ph, |mem1|, used1)
  {
  }

  /** The file part of a later segment is still what it was before the first was loaded. */
  lemma FromTheImage(addr: nat, ph: Phdr, image: seq<Byte>, mem1: seq<Byte>, mem2: seq<Byte>, used0: set<nat>,
                     used1: set<nat>, pages: map<nat, nat>, used2: set<nat>)
    requires Available(addr, ph, |image|, used0) && Kept(used0, used1, image, mem1)
    requires Loaded(addr, ph, mem1, mem2, pages, used2)
    ensures Loaded(addr, ph, image, mem2, pages, used2)
  {
    forall i: nat | i < ph.memsz ensures ByteLoaded(addr, ph, image, mem2, pages, used2, i) {
      assert ByteLoaded(addr, ph, mem1, mem2, pages, used2, i);
      if i < ph.filesz {
        assert FilePart(addr, ph, Start(addr, ph) + Off(ph.vaddr) + i);
      }
    }
  }

  /** A later segment maps the page of this address again. */
  predicate Remapped(later: seq<Phdr>, v: nat) {
    exists j :: 0 <= j < |later| && later[j].load && Covers(Trunc(later[j].vaddr), Span(later[j]), v)
  }

  /** Every byte is in place except where a later segment maps its page again. */
  ghost predicate LoadedBut(addr: nat, ph: Phdr, image: seq<Byte>, mem: seq<Byte>, pages: map<nat, nat>, used: set<nat>,
                            later: seq<Phdr>) {
    forall i: nat :: i < ph.memsz && !Remapped(later, ph.vaddr + i) ==> ByteLoaded(addr, ph, image, mem, pages, used, i)
  }

  /** Loading another segment leaves the rest of a loaded one as it was. */
  lemma Persists(addr: nat, ph: Phdr, later: seq<Phdr>, other: Phdr, image: seq<Byte>, mem1: seq<Byte>, mem2: seq<Byte>,
                 used1: set<nat>, used2: set<nat>, pages1: map<nat, nat>, pages2: map<nat, nat>)
    requires LoadedBut(addr, ph, image, mem1, pages1, used1, later) && other.load
    requires Kept(used1, used2, mem1, mem2)
    requires Untouched(Trunc(other.vaddr), Span(other), pages1, pages2)
    ensures LoadedBut(addr, ph, image, mem2, pages2, used2, later + [other])
  {
    var longer := later + [other];
    assert longer[|later|] == other && forall j :: 0 <= j < |later| ==> longer[j] == later[j];
    forall i: nat | i < ph.memsz && !Remapped(longer, ph.vaddr + i)
      ensures ByteLoaded(addr, ph, image, mem2, pages2, used2, i)
    {
      NotRemapped(later, other, ph.vaddr + i);
      assert ByteLoaded(addr, ph, image, mem1, pages1, used1, i);
    }
  }

  lemma NotRemapped(later: seq<Phdr>, other: Phdr, v: nat)
    requires !Remapped(later + [other], v)
    ensures !Remapped(later, v)
    ensures other.load ==> !Covers(Trunc(other.vaddr), Span(other), v)
  {
    hide Covers, Trunc, Span;
    var longer := later + [other];
    assert longer[|later|] == other && forall j :: 0 <= j < |later| ==> longer[j] == later[j];
  }

  /** A header that is not loaded changes nothing. */
  lemma SkipsHeader(addr: nat, ph: Phdr, later: seq<Phdr>, other: Phdr, image: seq<Byte>, mem: seq<Byte>,
                    pages: map<nat, nat>, used: set<nat>)
    requires LoadedBut(addr, ph, image, mem, pages, used, later)
    ensures LoadedBut(addr, ph, image, mem, pages, used, later + [other])
  {
    hide ByteLoaded, Remapped;
    forall i: nat | i < ph.memsz && !Remapped(later + [other], ph.vaddr + i)
      ensures ByteLoaded(addr, ph, image, mem, pages, used, i)
    {
      NotRemapped(later, other, ph.vaddr + i);
    }
  }

  lemma JustLoaded(addr: nat, ph: Phdr, image: seq<Byte>, mem: seq<Byte>, pages: map<nat, nat>, used: set<nat>)
    requires Loaded(addr, ph, image, mem, pages, used)
    ensures LoadedBut(addr, ph, image, mem, pages, used, [])
  {
  }

  /** If no two segments share a page, each one is loaded as a whole. */
  lemma SeparateLoaded(addr: nat, phdrs: seq<Phdr>, i: nat, image: seq<Byte>, mem: seq<Byte>, pages: map<nat, nat>,
                       used: set<nat>)
    requires Separate(phdrs) && i < |phdrs| && phdrs[i].load
    requires LoadedBut(addr, phdrs[i], image, mem, pages, used, phdrs[i + 1..])
    ensures Loaded(addr, phdrs[i], image, mem, pages, used)
  {
    hide Remapped, ByteLoaded, Separate;
    var ph := phdrs[i];
    forall k: nat | k < ph.memsz ensures ByteLoaded(addr, ph, image, mem, pages, used, k) {
      NeverRemapped(phdrs, i, k);
    }
  }

  lemma NeverRemapped(phdrs: seq<Phdr>, i: nat, k: nat)
    requires Separate(phdrs) && i < |phdrs| && phdrs[i].load && k < phdrs[i].memsz
    ensures !Remapped(phdrs[i + 1..], phdrs[i].vaddr + k)
  {
    hide Trunc, Off, Span, Round;
    var ph, later := phdrs[i], phdrs[i + 1..];
    InSpan(ph, k);
    forall j | 0 <= j < |later| && later[j].load
      ensures !Covers(Trunc(later[j].vaddr), Span(later[j]), ph.vaddr + k)
    {
      assert later[j] == phdrs[i + 1 + j];
      assert Apiece(ph, later[j]);
    }
  }

  lemma InSpan(ph: Phdr, k: nat)
    requires k < ph.memsz
    ensures Covers(Trunc(ph.vaddr), Span(ph), ph.vaddr + k)
  {
    RoundUp(ph.memsz + Off(ph.vaddr));
    Split(ph.vaddr);
  }

  // ----- What the contract means -----

  /** Where the program header says the file part of the segment lies. */
  function FileAddress(addr: nat, ph: Phdr): nat {
    if ph.paddr != 0 then ph.paddr else addr + ph.offset
  }

  predicate Congruent(ph: Phdr) {
    ph.paddr != 0 ==> Off(ph.vaddr) == Off(ph.paddr)
  }

  /** The loader takes the file part from where the header says exactly when the
    * virtual and a nonzero physical address agree modulo the page. */
  lemma TakenFromFile(addr: nat, ph: Phdr)
    ensures Start(addr, ph) + Off(ph.vaddr) == FileAddress(addr, ph) <==> Congruent(ph)
  {
    Split(ph.paddr);
  }

  /** A loaded segment reads as the System V ABI prescribes: the file part, then zeros. */
  lemma SegmentReads(addr: nat, ph: Phdr, image: seq<Byte>, mem: seq<Byte>, pages: map<nat, nat>, used: set<nat>, i: nat)
    requires Loaded(addr, ph, image, mem, pages, used) && Congruent(ph) && i < ph.memsz
    ensures Resident(pages, ph.vaddr + i) && Physical(pages, ph.vaddr + i) < |mem|
    ensures i < ph.filesz ==>
              && FileAddress(addr, ph) + i < |image|
              && mem[Physical(pages, ph.vaddr + i)] == image[FileAddress(addr, ph) + i]
    ensures i >= ph.filesz ==> mem[Physical(pages, ph.vaddr + i)] == 0
  {
    TakenFromFile(addr, ph);
    assert ByteLoaded(addr, ph, image, mem, pages, used, i);
  }

  /** First page of the last PT_LOAD segment, 0 if there is none. */
  function LastPage(phdrs: seq<Phdr>): nat {
    if phdrs == [] then 0
    else
      var last := phdrs[|phdrs| - 1];
      if last.load then Trunc(last.vaddr) else LastPage(phdrs[..|phdrs| - 1])
  }

  predicate NonePageZero(phdrs: seq<Phdr>) {
    forall i :: 0 <= i < |phdrs| && phdrs[i].load ==> Trunc(phdrs[i].vaddr) > 0
  }

  predicate NoneLoaded(phdrs: seq<Phdr>) {
    forall i :: 0 <= i < |phdrs| ==> !phdrs[i].load
  }

  predicate BelowAll(base: nat, phdrs: seq<Phdr>) {
    forall i :: 0 <= i < |phdrs| && phdrs[i].load ==> base <= Trunc(phdrs[i].vaddr)
  }

  lemma Snoc(init: seq<Phdr>, last: Phdr, base: nat)
    ensures NonePageZero(init + [last]) <==> NonePageZero(init) && (last.load ==> Trunc(last.vaddr) > 0)
    ensures BelowAll(base, init + [last]) <==> BelowAll(base, init) && (last.load ==> base <= Trunc(last.vaddr))
  {
    hide Trunc;
    var all := init + [last];
    assert all[|init|] == last;
    assert forall i :: 0 <= i < |init| ==> all[i] == init[i];
  }

  lemma Lower(base: nat, lower: nat, phdrs: seq<Phdr>)
    requires BelowAll(base, phdrs)
    ensures lower <= base ==> BelowAll(lower, phdrs)
    ensures NoneLoaded(phdrs) ==> BelowAll(lower, phdrs)
  {
  }

  lemma {:induction false} BaseSteps(phdrs: seq<Phdr>)
    ensures Base(0, phdrs) == 0 <==> LastPage(phdrs) == 0
    ensures NonePageZero(phdrs) ==> BelowAll(Base(0, phdrs), phdrs)
    ensures NonePageZero(phdrs) && LastPage(phdrs) == 0 ==> NoneLoaded(phdrs)
  {
    hide Trunc;
    if phdrs != [] {
      var init, last := phdrs[..|phdrs| - 1], phdrs[|phdrs| - 1];
      BaseSteps(init);
      Snoc(init, last, Base(0, init));
      Snoc(init, last, Base(0, phdrs));
      assert phdrs == init + [last];
      if NonePageZero(phdrs) && BelowAll(Base(0, init), init) {
        Lower(Base(0, init), Base(0, phdrs), init);
      }
    }
  }

  /** Since 0 also stands for "not set yet", the recorded base is the lowest page of
    * the bootstrap exactly if no segment starts in page 0, or the last one does. */
  lemma {:induction false} BaseIsLeast(phdrs: seq<Phdr>)
    ensures BelowAll(Base(0, phdrs), phdrs) <==> NonePageZero(phdrs) || LastPage(phdrs) == 0
  {
    BaseSteps(phdrs);
  }

  class Loader {
    var mem: seq<Byte>
    var pages: map<nat, nat>
    var used: set<nat>
    var bootBase: nat
    var bootEnd: nat
    /** A secure system, on which the allocator zeroes all RAM it hands out. */
    const secure: bool
    /** No range to be avoided lies in the middle of free RAM, so the allocator finds room where there is
        some (RamList.SearchExact). */
    const plain: bool

    /** Why a segment may be left unloaded. */
    ghost predicate Excused(size: nat)
      reads `mem, `used
    {
      secure || !plain || !HasRoom(|mem|, used, size)
    }

    /** Map whole pages, as elf_map does through aarch64_map. */
    method ElfMap(vaddr: nat, paddr: nat, size: nat)
      requires Aligned(vaddr) && Aligned(paddr)
      modifies this`pages
      ensures Mapped(old(pages), pages, vaddr, paddr, Round(size))
    {
      var va := vaddr;
      var pa := paddr;
      var end := va + Round(size);
      RoundUp(size);
      Shift(vaddr, Round(size));
      while va < end
        invariant vaddr <= va <= end && pa == paddr + (va - vaddr)
        invariant Aligned(va)
        invariant Mapped(old(pages), pages, vaddr, paddr, va - vaddr)
      {
        Apart(va, end);
        ghost var before := pages;
        pages := pages[va := pa];
        MapOne(old(pages), before, pages, vaddr, paddr, va - vaddr);
        Shift(va, PAGE);
        va := va + PAGE;
        pa := pa + PAGE;
      }
    }

    /** RAM in whole pages that nothing uses, wherever the allocator finds it, and zeroed: here, or on a
        secure system by the allocator, which cuts the address to 32 bits first. With ranges to avoid
        the allocator may miss the room there is. */
    method CallocRam(size: nat) returns (ok: bool, daddr: nat)
      requires Aligned(size)
      modifies this`mem, this`used
      ensures ok ==> Aligned(daddr) && daddr + size <= |old(mem)|
      ensures ok ==> forall a: nat :: Covers(daddr, size, a) ==> Trunc(a) !in old(used) && Trunc(a) in used
      ensures ok ==> old(used) <= used && mem == Zeroed(old(mem), if secure then daddr % FOUR_GIB else daddr, size)
      ensures !ok ==> Excused(size) && mem == old(mem) && used == old(used)
    {
      hide Trunc, Aligned;
      var missed: bool := *;
      ok, daddr := false, 0;
      if plain || !missed {
        if at: nat :| at <= |mem| && Room(|mem|, used, at, size) {
          ok, daddr := true, at;
          used := used + set a: nat | daddr <= a < daddr + size :: Trunc(a);
          if secure {
            mem := Zeroed(mem, daddr % FOUR_GIB, size);
          } else {
            mem := Zeroed(mem, daddr, size);
          }
        }
      }
    }

    method CopyMemory(dst: nat, src: nat, len: nat)
      requires dst + len <= |mem| && src + len <= |mem|
      modifies this`mem
      ensures mem == Moved(old(mem), dst, src, len)
    {
      mem := Moved(mem, dst, src, len);
    }

    /** Give size bytes at vaddr RAM of their own that starts with a copy of memory. */
    method MapCopy(vaddr: nat, size: nat, src: nat, len: nat) returns (ok: bool, daddr: nat)
      requires Aligned(vaddr) && len <= Round(size) && src + len <= |mem|
      modifies this`mem, this`pages, this`used
      ensures ok ==> Copied(old(mem), mem, old(used), used, daddr, Round(size), src, len)
      ensures ok ==> Mapped(old(pages), pages, vaddr, daddr, Round(size))
      ensures ok || Excused(Round(size))
    {
      hide *;
      RoundUp(size);
      ok, daddr := CallocRam(Round(size));
      if ok {
        FillRam(daddr, Round(size), src, len, old(mem), old(used));
        ElfMap(vaddr, daddr, size);
        // where other RAM was zeroed instead, nothing is claimed
        ok := ClearedHere(daddr);
        SecureIsExcused(Round(size), daddr);
      }
    }

    lemma SecureIsExcused(size: nat, daddr: nat)
      ensures ClearedHere(daddr) || Excused(size)
    {
    }

    /** The RAM handed out at daddr is the RAM that was zeroed. */
    predicate ClearedHere(daddr: nat) { !secure || daddr < FOUR_GIB }

    /** The copy into RAM that CallocRam has handed out. */
    method FillRam(daddr: nat, size: nat, src: nat, len: nat, ghost mem0: seq<Byte>, ghost used0: set<nat>)
      requires daddr + size <= |mem0| && len <= size && src + len <= |mem0| && used0 <= used
      requires forall a: nat :: Covers(daddr, size, a) ==> Trunc(a) !in used0 && Trunc(a) in used
      requires mem == Zeroed(mem0, if secure then daddr % FOUR_GIB else daddr, size)
      modifies this`mem
      ensures ClearedHere(daddr) ==> Copied(mem0, mem, used0, used, daddr, size, src, len)
    {
      hide Trunc, Covers, Copied;
      ghost var clear := mem;
      CopyMemory(daddr, src, len);
      if ClearedHere(daddr) {
        FilledRam(mem0, clear, mem, used0, used, daddr, size, src, len);
      }
    }

    method MapTail(vaddr: nat, size: nat, src: nat, len: nat) returns (ok: bool, daddr: nat)
      requires Aligned(vaddr) && Round(size) == size && len <= size && (size != 0 ==> src + len <= |mem|)
      modifies this`mem, this`pages, this`used
      ensures ok ==> Copied(old(mem), mem, old(used), used, daddr, size, src, len)
      ensures ok ==> Mapped(old(pages), pages, vaddr, daddr, size)
      ensures ok || (size != 0 && Excused(size))
    {
      hide *;
      ok, daddr := true, 0;
      if size != 0 {
        ok, daddr := MapCopy(vaddr, size, src, len);
      } else {
        Nothing(pages, mem, used, vaddr, src);
      }
    }

    /** Two adjacent stretches of whole pages: the first mapped where it lies, the second backed by RAM. */
    method MapParts(vaddr: nat, paddr: nat, whole: nat, size: nat, len: nat)
      returns (ok: bool, daddr: nat, ghost between: map<nat, nat>)
      requires Planned(vaddr, paddr, whole, size, len, |mem|)
      modifies this`mem, this`pages, this`used
      ensures Mapped(old(pages), between, vaddr, paddr, whole)
      ensures ok ==> Mapped(between, pages, vaddr + whole, daddr, size)
      ensures ok ==> Copied(old(mem), mem, old(used), used, daddr, size, paddr + whole, len)
      ensures ok || (size != 0 && Excused(size))
    {
      assert && Aligned(vaddr) && Aligned(paddr) && Aligned(vaddr + whole) && Round(whole) == whole
             && Round(size) == size && len <= size && (size != 0 ==> paddr + whole + len <= |mem|);
      hide *;
      ElfMap(vaddr, paddr, whole);
      between := pages;
      ok, daddr := MapTail(vaddr + whole, size, paddr + whole, len);
    }

    /** Map the whole pages of the file part where they lie; the rest gets RAM of its own. */
    method MapThenCopy(addr: nat, ph: Phdr, filesz: nat, memsz: nat) returns (ok: bool)
      requires ph.paddr != 0 && Available(addr, ph, |mem|, used)
      requires memsz >= Trunc(filesz) && Divided(ph, filesz, Round(memsz - Trunc(filesz)))
      modifies this`mem, this`pages, this`used
      ensures ok ==> Step(addr, ph, old(mem), mem, old(used), used, old(pages), pages)
      ensures ok || (Round(memsz - Trunc(filesz)) != 0 && Excused(Round(memsz - Trunc(filesz))))
    {
      hide *;
      var vaddr, paddr, whole := Trunc(ph.vaddr), Trunc(ph.paddr), Trunc(filesz);
      var size := Round(memsz - whole);
      PlanInPlace(addr, ph, filesz, size, |mem|, used);
      var daddr;
      ghost var between;
      ok, daddr, between := MapParts(vaddr, paddr, whole, size, Off(filesz));
      if ok {
        InPlace(addr, ph, old(mem), mem, old(used), used, old(pages), between, pages, filesz, daddr, size);
      }
    }

    /** A segment the image holds in place. One without a bss was padded out to whole pages. */
    method MapInPlace(addr: nat, ph: Phdr, filesz0: nat, memsz0: nat) returns (ok: bool)
      requires ph.paddr != 0 && Available(addr, ph, |mem|, used)
      requires Sizes(ph, filesz0, memsz0)
      modifies this`mem, this`pages, this`used
      ensures ok ==> Step(addr, ph, old(mem), mem, old(used), used, old(pages), pages)
      ensures ok || Excused(RamNeeded(ph))
    {
      assert ph.filesz <= ph.memsz;
      hide *;
      SizesDivide(ph, filesz0, memsz0);
      var filesz, memsz := filesz0, memsz0;
      if ph.memsz == ph.filesz {
        filesz := Round(filesz);
        memsz := filesz;
        Split(filesz);
      }
      NeedsTail(ph, filesz, Round(memsz - Trunc(filesz)));
      ok := MapThenCopy(addr, ph, filesz, memsz);
    }

    /** A segment that has no place of its own: all of it gets RAM. */
    method MapOut(addr: nat, ph: Phdr, filesz: nat, memsz: nat) returns (ok: bool)
      requires ph.paddr == 0 && Available(addr, ph, |mem|, used)
      requires Sizes(ph, filesz, memsz)
      modifies this`mem, this`pages, this`used
      ensures ok ==> Step(addr, ph, old(mem), mem, old(used), used, old(pages), pages)
      ensures ok || Excused(RamNeeded(ph))
    {
      SizesRound(ph, filesz, memsz);
      RoundUp(memsz);
      Split(ph.vaddr);
      var start, vaddr := addr + ph.offset - Off(ph.vaddr), Trunc(ph.vaddr);
      assert start == Start(addr, ph) && start + filesz <= |mem|;
      hide *;
      var daddr;
      ok, daddr := MapCopy(vaddr, memsz, start, filesz);
      if ok {
        CopiedOut(addr, ph, old(mem), mem, old(used), used, old(pages), pages, filesz, memsz, daddr);
      }
    }

    /** One PT_LOAD segment. */
    method LoadSegment(addr: nat, ph: Phdr) returns (ok: bool)
      requires Available(addr, ph, |mem|, used)
      modifies this
      ensures ok ==> Step(addr, ph, old(mem), mem, old(used), used, old(pages), pages)
      ensures ok || Excused(RamNeeded(ph))
      ensures bootBase == NextBase(old(bootBase), Trunc(ph.vaddr))
      ensures bootEnd == NextEnd(old(bootEnd), ph)
    {
      var memsz := ph.memsz + Off(ph.vaddr);
      var filesz := ph.filesz + Off(ph.vaddr);
      var vaddr := Trunc(ph.vaddr);
      if bootBase == 0 || bootBase > vaddr {
        bootBase := vaddr;
      }
      if bootEnd < vaddr + memsz {
        bootEnd := vaddr + memsz;
      }
      if !ph.writable && memsz == filesz {
        filesz := Round(filesz);
        memsz := filesz;
      }
      assert Sizes(ph, filesz, memsz);
      if ph.paddr != 0 {
        ok := MapInPlace(addr, ph, filesz, memsz);
      } else {
        ok := MapOut(addr, ph, filesz, memsz);
      }
    }

    /** Every PT_LOAD segment in turn. */
    method LoadElf(addr: nat, phdrs: seq<Phdr>) returns (ok: bool)
      requires forall i :: 0 <= i < |phdrs| && phdrs[i].load ==> Available(addr, phdrs[i], |mem|, used)
      modifies this
      ensures ok ==> forall i :: 0 <= i < |phdrs| && phdrs[i].load ==>
                                   LoadedBut(addr, phdrs[i], old(mem), mem, pages, used, phdrs[i + 1..])
      ensures ok && Separate(phdrs) ==> forall i :: 0 <= i < |phdrs| && phdrs[i].load ==>
                                                      Loaded(addr, phdrs[i], old(mem), mem, pages, used)
      ensures ok ==> Kept(old(used), used, old(mem), mem)
      ensures ok || exists i :: 0 <= i < |phdrs| && phdrs[i].load && phdrs[i].filesz <= phdrs[i].memsz &&
                                Excused(RamNeeded(phdrs[i]))
      ensures ok ==> bootBase == Base(old(bootBase), phdrs) && bootEnd == End(old(bootEnd), phdrs)
    {
      hide Available, Loaded, LoadedBut, Kept, Untouched, NextBase, NextEnd, Separate;
      KeptSelf(used, mem);
      for i := 0 to |phdrs|
        invariant Kept(old(used), used, old(mem), mem)
        invariant forall j :: 0 <= j < i && phdrs[j].load ==>
                                LoadedBut(addr, phdrs[j], old(mem), mem, pages, used, phdrs[j + 1..i])
        invariant bootBase == Base(old(bootBase), phdrs[..i]) && bootEnd == End(old(bootEnd), phdrs[..i])
      {
        assert phdrs[..i + 1] == phdrs[..i] + [phdrs[i]];
        var ph := phdrs[i];
        ghost var mem1, used1, pages1 := mem, used, pages;
        if ph.load {
          StillAvailable(addr, ph, old(mem), mem1, old(used), used1);
          ok := LoadSegment(addr, ph);
          if !ok {
            return;
          }
          KeptOn(old(used), used1, used, old(mem), mem1, mem);
          FromTheImage(addr, ph, old(mem), mem1, mem, old(used), used1, pages, used);
          JustLoaded(addr, ph, old(mem), mem, pages, used);
        }
        forall j | 0 <= j <= i && phdrs[j].load
          ensures LoadedBut(addr, phdrs[j], old(mem), mem, pages, used, phdrs[j + 1..i + 1])
        {
          if j == i {
            assert phdrs[i + 1..i + 1] == [];
          } else {
            assert phdrs[j + 1..i + 1] == phdrs[j + 1..i] + [ph];
            if ph.load {
              Persists(addr, phdrs[j], phdrs[j + 1..i], ph, old(mem), mem1, mem, used1, used, pages1, pages);
            } else {
              SkipsHeader(addr, phdrs[j], phdrs[j + 1..i], ph, old(mem), mem, pages, used);
            }
          }
        }
      }
      assert phdrs[..|phdrs|] == phdrs;
      ok := true;
      forall i | 0 <= i < |phdrs| && phdrs[i].load
        ensures LoadedBut(addr, phdrs[i], old(mem), mem, pages, used, phdrs[i + 1..])
        ensures Separate(phdrs) ==> Loaded(addr, phdrs[i], old(mem), mem, pages, used)
      {
        assert phdrs[i + 1..|phdrs|] == phdrs[i + 1..];
        if Separate(phdrs) {
          SeparateLoaded(addr, phdrs, i, old(mem), mem, pages, used);
        }
      }
    }
  }
}
