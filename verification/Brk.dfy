/** What the memory system calls do to one address space when memory suffices: the pages mapped, the
    break and the list of areas. */
module Brk {
  import opened Pmm

  datatype Vma = Vma(start: nat, end: nat, flags: nat)

  datatype Space = Space(startBrk: nat, brk: nat, pages: set<nat>, vmas: seq<Vma>)

  datatype Call =
    | SetBrk(arg: nat)                              // SYS_brk
    | MmapAny(len: nat, flags: nat)                 // SYS_mmap with address 0
    | MmapAt(addr: nat, len: nat, flags: nat)       // SYS_mmap with an address
    | Unmap(addr: nat, len: nat)                    // SYS_munmap

  function Up(x: nat): (r: nat)
    ensures r % 4096 == 0 && x <= r < x + 4096
    ensures x % 4096 == 0 ==> r == x
  {
    (x + 4095) / 4096 * 4096
  }

  /** VM_READ | VM_WRITE, the flags of the area that brk adds. */
  const BRK_FLAGS: nat := 3

  /** The areas that munmap keeps: those that do not meet [addr, end). */
  function Disjoint(vmas: seq<Vma>, addr: nat, end: nat): (r: seq<Vma>)
    ensures forall a | a in r :: a in vmas && (a.end <= addr || a.start >= end)
    ensures forall a | a in vmas && (a.end <= addr || a.start >= end) :: a in r
    ensures |r| <= |vmas|
  {
    if vmas == [] then []
    else
      var a := vmas[|vmas| - 1];
      var front := Disjoint(vmas[..|vmas| - 1], addr, end);
      assert vmas == vmas[..|vmas| - 1] + [a];
      if a.end <= addr || a.start >= end then front + [a] else front
  }

  /** What mm_find_vma finds: the first area holding the address, if any. */
  function FirstArea(vmas: seq<Vma>, x: nat): seq<Vma> {
    if vmas == [] then []
    else if vmas[0].start <= x < vmas[0].end then [vmas[0]]
    else FirstArea(vmas[1..], x)
  }

  lemma {:induction false} FirstOfConcat(a: seq<Vma>, b: seq<Vma>, x: nat)
    ensures FirstArea(a + b, x) == if FirstArea(a, x) != [] then FirstArea(a, x) else FirstArea(b, x)
  {
    if a == [] {
      assert a + b == b;
    } else {
      assert (a + b)[1..] == a[1..] + b;
      FirstOfConcat(a[1..], b, x);
    }
  }

  /** An area that munmap does not meet answers for its addresses as before. */
  lemma {:induction false} AreaStays(vmas: seq<Vma>, addr: nat, end: nat, x: nat, a: Vma)
    requires FirstArea(vmas, x) == [a] && (a.end <= addr || a.start >= end)
    ensures FirstArea(Disjoint(vmas, addr, end), x) == [a]
  {
    if vmas != [] {
      var front, last := vmas[..|vmas| - 1], vmas[|vmas| - 1];
      assert vmas == front + [last];
      FirstOfConcat(front, [last], x);
      FirstOfConcat(Disjoint(front, addr, end), [last], x);
      if FirstArea(front, x) != [] { AreaStays(front, addr, end, x, a); } else { NoAreaStays(front, addr, end, x); }
    }
  }

  lemma {:induction false} NoAreaStays(vmas: seq<Vma>, addr: nat, end: nat, x: nat)
    requires FirstArea(vmas, x) == []
    ensures FirstArea(Disjoint(vmas, addr, end), x) == []
  {
    if vmas != [] {
      var front, last := vmas[..|vmas| - 1], vmas[|vmas| - 1];
      assert vmas == front + [last];
      FirstOfConcat(front, [last], x);
      FirstOfConcat(Disjoint(front, addr, end), [last], x);
      NoAreaStays(front, addr, end, x);
    }
  }

  ghost function Mapped(s: Space, addr: nat, len: nat, flags: nat): Space {
    s.(pages := s.pages + Range(addr / 4096, (addr + Up(len)) / 4096), vmas := s.vmas + [Vma(addr, addr + Up(len), flags)])
  }

  ghost function Unmapped(s: Space, addr: nat, len: nat): Space {
    s.(pages := s.pages - Range(addr / 4096, (addr + Up(len)) / 4096), vmas := Disjoint(s.vmas, addr, addr + Up(len)))
  }

  /** mm_brk. */
  ghost function MmBrk(s: Space, arg: nat): Space {
    var b := Up(arg);
    if b < s.startBrk then s
    else if b > s.brk then Mapped(s, s.brk, b - s.brk, BRK_FLAGS).(brk := b)
    else if b < s.brk then Unmapped(s, b, s.brk - b).(brk := b)
    else s.(brk := b)
  }

  ghost function Apply(s: Space, c: Call): Space {
    match c
    case SetBrk(arg) => MmBrk(s, if arg == 0 then s.brk else arg)
    case MmapAny(len, flags) => Mapped(s.(brk := s.brk + Up(len)), s.brk, len, flags)
    case MmapAt(addr, len, flags) => Mapped(s, addr, len, flags)
    case Unmap(addr, len) => Unmapped(s, addr, len)
  }

  // ---------------------------------------------------------------------------------------------
  // Runs of brk and address-0 mmap
  // ---------------------------------------------------------------------------------------------

  /** A break that moves only over pages the program and the stack do not use. */
  ghost predicate Fits(s: Space, c: Call, program: set<nat>) {
    match c
    case SetBrk(arg) => Range(s.startBrk / 4096, Up(arg) / 4096) !! program
    case MmapAny(len, flags) => Range(s.startBrk / 4096, (s.brk + Up(len)) / 4096) !! program
    case _ => false
  }

  /** Outside program and stack the mapped pages are exactly [start_brk, brk). */
  ghost predicate HeapExact(s: Space, program: set<nat>) {
    && s.startBrk % 4096 == 0 && s.brk % 4096 == 0 && s.startBrk <= s.brk
    && s.pages == program + Range(s.startBrk / 4096, s.brk / 4096)
    && program !! Range(s.startBrk / 4096, s.brk / 4096)
  }

  lemma RangeJoin(a: nat, b: nat, c: nat)
    requires a <= b <= c
    ensures Range(a, c) == Range(a, b) + Range(b, c)
    ensures Range(a, c) - Range(b, c) == Range(a, b)
  {
  }

  lemma RangeKeep(a: nat, b: nat, c: nat, program: set<nat>)
    requires a <= b <= c && program !! Range(a, c)
    ensures program + Range(a, c) - Range(b, c) == program + Range(a, b) && program !! Range(a, b)
    ensures program + Range(a, b) + Range(b, c) == program + Range(a, c)
  {
    RangeJoin(a, b, c);
  }

  lemma GrowKeeps(s: Space, len: nat, flags: nat, program: set<nat>)
    requires HeapExact(s, program) && Range(s.startBrk / 4096, (s.brk + Up(len)) / 4096) !! program
    ensures HeapExact(Mapped(s, s.brk, len, flags).(brk := s.brk + Up(len)), program)
  {
    RangeKeep(s.startBrk / 4096, s.brk / 4096, (s.brk + Up(len)) / 4096, program);
    hide Range;
  }

  lemma ShrinkKeeps(s: Space, b: nat, program: set<nat>)
    requires HeapExact(s, program) && b % 4096 == 0 && s.startBrk <= b < s.brk
    ensures HeapExact(Unmapped(s, b, s.brk - b).(brk := b), program)
  {
    RangeKeep(s.startBrk / 4096, b / 4096, s.brk / 4096, program);
    hide Range;
    assert b + Up(s.brk - b) == s.brk;
  }

  lemma CallKeepsHeap(s: Space, c: Call, program: set<nat>)
    requires HeapExact(s, program) && Fits(s, c, program)
    ensures HeapExact(Apply(s, c), program) && Apply(s, c).startBrk == s.startBrk
  {
    match c
    case SetBrk(arg) =>
      var b := Up(if arg == 0 then s.brk else arg);
      if b > s.brk {
        assert s.brk + Up(b - s.brk) == b;
        GrowKeeps(s, b - s.brk, BRK_FLAGS, program);
      } else if s.startBrk <= b < s.brk {
        ShrinkKeeps(s, b, program);
      }
    case MmapAny(len, flags) => GrowKeeps(s, len, flags, program);
  }

  ghost predicate IsRun(run: seq<Space>, calls: seq<Call>, program: set<nat>) {
    && |run| == |calls| + 1
    && forall i | 0 <= i < |calls| :: Fits(run[i], calls[i], program) && run[i + 1] == Apply(run[i], calls[i])
  }

  lemma {:induction false} HeapInEveryRun(run: seq<Space>, calls: seq<Call>, program: set<nat>, k: nat)
    requires IsRun(run, calls, program) && HeapExact(run[0], program) && k <= |calls|
    ensures HeapExact(run[k], program) && run[k].startBrk == run[0].startBrk
  {
    if k > 0 {
      HeapInEveryRun(run, calls, program, k - 1);
      CallKeepsHeap(run[k - 1], calls[k - 1], program);
    }
  }

  /** The pages a call maps are [NewFrom, NewTo). */
  function NewFrom(s: Space, c: Call): nat {
    match c
    case MmapAt(addr, _, _) => addr / 4096
    case _ => s.brk / 4096
  }

  function NewTo(s: Space, c: Call): nat {
    match c
    case SetBrk(arg) => if Up(arg) > s.brk && Up(arg) >= s.startBrk then Up(arg) / 4096 else s.brk / 4096
    case MmapAny(len, _) => (s.brk + Up(len)) / 4096
    case MmapAt(addr, len, _) => (addr + Up(len)) / 4096
    case Unmap(_, _) => s.brk / 4096
  }

  /** In such a run no call, brk or mmap, maps a page that is already mapped. */
  lemma NothingDisplaced(s: Space, c: Call, program: set<nat>)
    requires HeapExact(s, program) && Fits(s, c, program)
    ensures Range(NewFrom(s, c), NewTo(s, c)) !! s.pages
  {
    if NewFrom(s, c) <= NewTo(s, c) { RangeJoin(s.startBrk / 4096, s.brk / 4096, NewTo(s, c)); }
  }

  /** The (s32) cast: the same 32 bits, read as a signed number. */
  function Signed(x: nat): (r: int)
    requires x < 0x1_0000_0000
    ensures -0x8000_0000 <= r < 0x8000_0000 && r % 0x1_0000_0000 == x
  {
    if x < 0x8000_0000 then x else x - 0x1_0000_0000
  }

  /** The address a successful call reports. */
  ghost function Reported(s: Space, c: Call): nat {
    match c
    case SetBrk(_) => Apply(s, c).brk
    case MmapAny(_, _) => s.brk
    case MmapAt(addr, _, _) => addr
    case Unmap(_, _) => 0
  }

  /** An address below the kernel half is never taken for an error number, nor an error number for an address. */
  lemma NoErrorAddress(x: nat, error: int)
    requires x < 0xC000_0000 && 0 < error < 4096
    ensures Signed(x) != -error
  {
  }

  /** What address-0 mmap reports is where its pages are: exactly these are mapped afterwards and were not before. */
  lemma ReportedIsNew(s: Space, c: Call, program: set<nat>)
    requires HeapExact(s, program) && Fits(s, c, program) && c.MmapAny? && Reported(s, c) < 0x1_0000_0000
    ensures var a := Signed(Reported(s, c)) % 0x1_0000_0000;
      a % 4096 == 0 && Apply(s, c).pages - s.pages == Range(a / 4096, (a + Up(c.len)) / 4096)
  {
    NothingDisplaced(s, c, program);
    hide Range, Up;
  }

  /** What brk reports is the end of the heap: behind the program exactly the pages below it are mapped. */
  lemma ReportedIsEnd(s: Space, c: Call, program: set<nat>)
    requires HeapExact(s, program) && Fits(s, c, program) && c.SetBrk? && Reported(s, c) < 0x1_0000_0000
    ensures var a := Signed(Reported(s, c)) % 0x1_0000_0000;
      Apply(s, c).pages - program == Range(s.startBrk / 4096, a / 4096)
    ensures c.arg != 0 && Up(c.arg) >= s.startBrk ==> c.arg <= Signed(Reported(s, c)) % 0x1_0000_0000 < c.arg + 4096
  {
    CallKeepsHeap(s, c, program);
    hide Range;
  }

  /** Two results of address-0 mmap, as 32-bit addresses, are at least the first length apart, as long as the break did
      not shrink in between. */
  lemma {:induction false} ResultsApart(run: seq<Space>, calls: seq<Call>, program: set<nat>, i: nat, j: nat)
    requires IsRun(run, calls, program) && HeapExact(run[0], program)
    requires i < j < |calls| && calls[i].MmapAny? && calls[j].MmapAny?
    requires forall k | i <= k < j :: run[k].brk <= run[k + 1].brk
    ensures run[i].brk + Up(calls[i].len) <= run[j].brk
    ensures Reported(run[i], calls[i]) < 0x1_0000_0000 && Reported(run[j], calls[j]) < 0x1_0000_0000 ==>
              var a, b := Signed(Reported(run[i], calls[i])), Signed(Reported(run[j], calls[j]));
              a % 0x1_0000_0000 + Up(calls[i].len) <= b % 0x1_0000_0000
  {
    assert run[i + 1] == Apply(run[i], calls[i]);
    BreakRises(run, calls, i + 1, j);
  }

  lemma {:induction false} BreakRises(run: seq<Space>, calls: seq<Call>, i: nat, j: nat)
    requires |run| == |calls| + 1 && i <= j <= |calls|
    requires forall k | i <= k < j :: run[k].brk <= run[k + 1].brk
    ensures run[i].brk <= run[j].brk
  {
    if i < j { BreakRises(run, calls, i, j - 1); }
  }

  // ---------------------------------------------------------------------------------------------
  // Runs of any calls
  // ---------------------------------------------------------------------------------------------

  /** Every page of every area is mapped. */
  ghost predicate AreasMapped(s: Space) {
    forall a, v: nat | a in s.vmas && a.start <= 4096 * v < a.end :: v in s.pages
  }

  lemma MappedKeepsAreas(s: Space, addr: nat, len: nat, flags: nat)
    requires AreasMapped(s) && addr % 4096 == 0
    ensures AreasMapped(Mapped(s, addr, len, flags))
  {
    var n := Mapped(s, addr, len, flags);
    forall a, v: nat | a in n.vmas && a.start <= 4096 * v < a.end ensures v in n.pages {
      if a !in s.vmas { assert Within(addr / 4096, v, (addr + Up(len)) / 4096); }
    }
  }

  lemma UnmappedKeepsAreas(s: Space, addr: nat, len: nat)
    requires AreasMapped(s) && addr % 4096 == 0
    ensures AreasMapped(Unmapped(s, addr, len))
  {
    var n := Unmapped(s, addr, len);
    forall a, v: nat | a in n.vmas && a.start <= 4096 * v < a.end ensures v in n.pages {
      assert !Within(addr / 4096, v, (addr + Up(len)) / 4096);
    }
  }

  ghost predicate Aligned(c: Call) {
    (c.MmapAt? || c.Unmap?) ==> c.addr % 4096 == 0
  }

  lemma CallKeepsAreas(s: Space, c: Call)
    requires AreasMapped(s) && s.brk % 4096 == 0 && Aligned(c)
    ensures AreasMapped(Apply(s, c)) && Apply(s, c).brk % 4096 == 0
  {
    hide AreasMapped, Disjoint, Range;
    match c
    case SetBrk(arg) =>
      var b := Up(if arg == 0 then s.brk else arg);
      if b > s.brk { MappedKeepsAreas(s, s.brk, b - s.brk, BRK_FLAGS); }
      else if b < s.brk { UnmappedKeepsAreas(s, b, s.brk - b); }
      SameAreas(Apply(s, c), s.brk);
      SameAreas(Apply(s, c), b);
    case MmapAny(len, flags) =>
      SameAreas(s, s.brk + Up(len));
      MappedKeepsAreas(s.(brk := s.brk + Up(len)), s.brk, len, flags);
    case MmapAt(addr, len, flags) => MappedKeepsAreas(s, addr, len, flags);
    case Unmap(addr, len) => UnmappedKeepsAreas(s, addr, len);
  }

  lemma SameAreas(s: Space, b: nat)
    ensures AreasMapped(s.(brk := b)) <==> AreasMapped(s)
  {
  }

  /** munmap drops every area it touches, so what remains listed remains mapped, whatever the order
      of brk, mmap and munmap. */
  lemma {:induction false} AreasInEveryRun(run: seq<Space>, calls: seq<Call>, k: nat)
    requires |run| == |calls| + 1 && AreasMapped(run[0]) && run[0].brk % 4096 == 0 && k <= |calls|
    requires forall i | 0 <= i < |calls| :: Aligned(calls[i]) && run[i + 1] == Apply(run[i], calls[i])
    ensures AreasMapped(run[k]) && run[k].brk % 4096 == 0
  {
    hide AreasMapped, Apply, Aligned;
    if k > 0 {
      AreasInEveryRun(run, calls, k - 1);
      CallKeepsAreas(run[k - 1], calls[k - 1]);
    }
  }
}
