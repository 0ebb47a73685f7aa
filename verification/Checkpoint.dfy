/**
 Checkpoints of the machine: a header with the saved registers and one record for every page of
 memory that is not zero. Loading a checkpoint writes back exactly these pages.
 */
module Checkpoint {
  import opened Bits
  import opened Privilege

  const N_PAGES := 0x10_0000
  const PAGE_SIZE := 4096
  const MEM_SIZE := 0x1_0000_0000
  const MAGIC_NUM := 0x6464f5f5beefd005

  datatype Page = Page(va: nat, data: seq<byte>)

  function PageOf(m: seq<byte>, p: nat): (data: seq<byte>)
    requires |m| == MEM_SIZE && p < N_PAGES
    ensures |data| == PAGE_SIZE
  {
    m[p * 4096..p * 4096 + 4096]
  }

  predicate IsZero(s: seq<byte>) {
    forall i | 0 <= i < |s| :: s[i] == 0
  }

  function LittleEndian(s: seq<byte>): nat {
    if s == [] then 0 else s[0] as nat + 256 * LittleEndian(s[1..])
  }

  lemma {:induction false} ZeroWord(s: seq<byte>)
    ensures LittleEndian(s) == 0 <==> IsZero(s)
  {
    if s != [] {
      ZeroWord(s[1..]);
      if IsZero(s[1..]) && s[0] == 0 {
        assert forall i | 0 < i < |s| :: s[i] == s[1..][i - 1];
      }
    }
  }

  /** The q-th 64-bit word of page p. */
  function PageWord(m: seq<byte>, p: nat, q: nat): nat
    requires |m| == MEM_SIZE && p < N_PAGES && q < 512
  {
    LittleEndian(m[8 * (p * 512 + q)..8 * (p * 512 + q) + 8])
  }

  lemma PageWordZero(m: seq<byte>, p: nat, q: nat)
    requires |m| == MEM_SIZE && p < N_PAGES && q < 512
    ensures PageWord(m, p, q) == 0 <==> forall i | 8 * q <= i < 8 * q + 8 :: PageOf(m, p)[i] == 0
  {
    var word := m[8 * (p * 512 + q)..8 * (p * 512 + q) + 8];
    ZeroWord(word);
    forall i | 8 * q <= i < 8 * q + 8
      ensures PageOf(m, p)[i] == m[p * 4096 + i] == word[i - 8 * q]
    {
    }
    forall j | 0 <= j < 8
      ensures word[j] == m[p * 4096 + (8 * q + j)] == PageOf(m, p)[8 * q + j]
    {
    }
  }

  /** A page is zero when its 512 words are. */
  lemma ZeroPage(m: seq<byte>, p: nat)
    requires |m| == MEM_SIZE && p < N_PAGES
    ensures IsZero(PageOf(m, p)) <==> forall q | 0 <= q < 512 :: PageWord(m, p, q) == 0
  {
    forall q | 0 <= q < 512
      ensures PageWord(m, p, q) == 0 <==> forall i | 8 * q <= i < 8 * q + 8 :: PageOf(m, p)[i] == 0
    {
      PageWordZero(m, p, q);
    }
    if forall q | 0 <= q < 512 :: PageWord(m, p, q) == 0 {
      forall i | 0 <= i < 4096
        ensures PageOf(m, p)[i] == 0
      {
        assert PageWord(m, p, i / 8) == 0;
      }
    }
  }

  function RecordOf(m: seq<byte>, p: nat): Page
    requires |m| == MEM_SIZE && p < N_PAGES
  {
    Page(p * 4096, PageOf(m, p))
  }

  /** One record for each page below n that is not zero, in order. */
  function PagesBelow(m: seq<byte>, n: nat): seq<Page>
    requires |m| == MEM_SIZE && n <= N_PAGES
  {
    if n == 0 then []
    else if IsZero(PageOf(m, n - 1)) then PagesBelow(m, n - 1)
    else PagesBelow(m, n - 1) + [RecordOf(m, n - 1)]
  }

  /** Memory with a page of data written at va. */
  function Splice(m: seq<byte>, page: Page): (m': seq<byte>)
    requires page.va + |page.data| <= |m|
    ensures |m'| == |m|
  {
    m[..page.va] + page.data + m[page.va + |page.data|..]
  }

  /** Each record describes one page of memory. */
  predicate Placed(pages: seq<Page>) {
    forall k | 0 <= k < |pages| :: pages[k].va + 4096 <= MEM_SIZE && |pages[k].data| == 4096
  }

  /** Memory after the first k records have been written to it. */
  function Restore(m: seq<byte>, pages: seq<Page>, k: nat): (m': seq<byte>)
    requires |m| == MEM_SIZE && Placed(pages) && k <= |pages|
    ensures |m'| == MEM_SIZE
  {
    if k == 0 then m else Splice(Restore(m, pages, k - 1), pages[k - 1])
  }

  lemma {:induction false} PagesPlaced(m: seq<byte>, n: nat)
    requires |m| == MEM_SIZE && n <= N_PAGES
    ensures Placed(PagesBelow(m, n)) && |PagesBelow(m, n)| <= n
  {
    if n > 0 {
      PagesPlaced(m, n - 1);
    }
  }

  /** The record describes one of the pages below n, which is not zero. */
  predicate IsRecord(m: seq<byte>, n: nat, page: Page)
    requires |m| == MEM_SIZE && n <= N_PAGES
  {
    var p := page.va / 4096;
    p < n && !IsZero(PageOf(m, p)) && page == RecordOf(m, p)
  }

  /** Records are in strictly ascending order of pages, one for every page that is not zero. */
  lemma {:induction false} OneRecordPerPage(m: seq<byte>, n: nat)
    requires |m| == MEM_SIZE && n <= N_PAGES
    ensures var pages := PagesBelow(m, n);
      && (forall i, j | 0 <= i < j < |pages| :: pages[i].va < pages[j].va)
      && (forall k | 0 <= k < |pages| :: IsRecord(m, n, pages[k]))
      && (forall p: nat | p < n && !IsZero(PageOf(m, p)) :: RecordOf(m, p) in pages)
  {
    if n > 0 {
      OneRecordPerPage(m, n - 1);
      var before, pages := PagesBelow(m, n - 1), PagesBelow(m, n);
      forall k | 0 <= k < |before|
        ensures IsRecord(m, n, before[k]) && before[k].va < (n - 1) * 4096
      {
        assert IsRecord(m, n - 1, before[k]);
      }
      if !IsZero(PageOf(m, n - 1)) {
        assert pages == before + [RecordOf(m, n - 1)];
        assert IsRecord(m, n, RecordOf(m, n - 1));
        assert pages[|before|] == RecordOf(m, n - 1);
      }
    }
  }

  /** Memory m0 after the pages of m below n that are not zero have been written to it. */
  function Overlay(m: seq<byte>, m0: seq<byte>, n: nat): (m': seq<byte>)
    requires |m| == |m0| == MEM_SIZE && n <= N_PAGES
    ensures |m'| == MEM_SIZE
  {
    if n == 0 then m0
    else if IsZero(PageOf(m, n - 1)) then Overlay(m, m0, n - 1)
    else Splice(Overlay(m, m0, n - 1), RecordOf(m, n - 1))
  }

  /** What this does to every page. */
  lemma {:induction false} OverlaidPage(m: seq<byte>, m0: seq<byte>, n: nat, p: nat)
    requires |m| == |m0| == MEM_SIZE && n <= N_PAGES && p < N_PAGES
    ensures PageOf(Overlay(m, m0, n), p) == if p < n && !IsZero(PageOf(m, p)) then PageOf(m, p) else PageOf(m0, p)
  {
    if n > 0 {
      OverlaidPage(m, m0, n - 1, p);
      OverlayStep(m, m0, n, p);
    }
  }

  lemma OverlayStep(m: seq<byte>, m0: seq<byte>, n: nat, p: nat)
    requires |m| == |m0| == MEM_SIZE && 0 < n <= N_PAGES && p < N_PAGES
    ensures PageOf(Overlay(m, m0, n), p)
         == if p == n - 1 && !IsZero(PageOf(m, p)) then PageOf(m, p) else PageOf(Overlay(m, m0, n - 1), p)
  {
    if !IsZero(PageOf(m, n - 1)) {
      SplicedPage(Overlay(m, m0, n - 1), RecordOf(m, n - 1), n - 1, p);
    }
  }

  /** Restoring the records is this overlay. */
  lemma {:induction false} RestoreIsOverlay(m: seq<byte>, m0: seq<byte>, n: nat)
    requires |m| == |m0| == MEM_SIZE && n <= N_PAGES
    ensures Placed(PagesBelow(m, n))
    ensures Restore(m0, PagesBelow(m, n), |PagesBelow(m, n)|) == Overlay(m, m0, n)
  {
    PagesPlaced(m, n);
    if n > 0 {
      RestoreIsOverlay(m, m0, n - 1);
      if !IsZero(PageOf(m, n - 1)) {
        PagesPlaced(m, n - 1);
        RestoreLast(m0, PagesBelow(m, n - 1), RecordOf(m, n - 1));
      }
    }
  }

  lemma RestoreLast(m0: seq<byte>, pages: seq<Page>, page: Page)
    requires |m0| == MEM_SIZE && Placed(pages) && Placed(pages + [page])
    requires page.va + |page.data| <= MEM_SIZE
    ensures Restore(m0, pages + [page], |pages + [page]|) == Splice(Restore(m0, pages, |pages|), page)
  {
    RestorePrefix(m0, pages, page, |pages|);
  }

  /** Records behind the first k make no difference to these. */
  lemma {:induction false} RestorePrefix(m0: seq<byte>, pages: seq<Page>, page: Page, k: nat)
    requires |m0| == MEM_SIZE && Placed(pages + [page]) && Placed(pages) && k <= |pages|
    ensures Restore(m0, pages + [page], k) == Restore(m0, pages, k)
  {
    if k > 0 {
      RestorePrefix(m0, pages, page, k - 1);
    }
  }

  lemma SplicedPage(m: seq<byte>, page: Page, q: nat, p: nat)
    requires |m| == MEM_SIZE && q < N_PAGES && p < N_PAGES
    requires page.va == q * 4096 && |page.data| == 4096
    ensures PageOf(Splice(m, page), p) == if p == q then page.data else PageOf(m, p)
  {
    var m' := Splice(m, page);
    forall i | 0 <= i < 4096
      ensures PageOf(m', p)[i] == m'[p * 4096 + i] == if p == q then page.data[i] else PageOf(m, p)[i]
    {
      assert PageOf(m, p)[i] == m[p * 4096 + i];
    }
  }

  /** Memories with the same pages are the same. */
  lemma SamePages(m: seq<byte>, m': seq<byte>)
    requires |m| == |m'| == MEM_SIZE
    requires forall p: nat | p < N_PAGES :: PageOf(m, p) == PageOf(m', p)
    ensures m == m'
  {
    forall i | 0 <= i < MEM_SIZE
      ensures m[i] == m'[i]
    {
      var p := i / 4096;
      assert PageOf(m, p) == PageOf(m', p);
      assert PageOf(m, p)[i - 4096 * p] == m[i];
      assert PageOf(m', p)[i - 4096 * p] == m'[i];
    }
  }

  /**
   Loading the records of m into m0 gives m back exactly when every page that is zero in m is zero
   in m0 too; so always into zeroed memory.
   */
  lemma {:induction false} RestoresExactly(m: seq<byte>, m0: seq<byte>)
    requires |m| == |m0| == MEM_SIZE
    ensures Placed(PagesBelow(m, N_PAGES))
    ensures Restore(m0, PagesBelow(m, N_PAGES), |PagesBelow(m, N_PAGES)|) == m
         <==> forall p: nat | p < N_PAGES && IsZero(PageOf(m, p)) :: IsZero(PageOf(m0, p))
  {
    RestoreIsOverlay(m, m0, N_PAGES);
    var m' := Overlay(m, m0, N_PAGES);
    forall p: nat | p < N_PAGES
      ensures PageOf(m', p) == if IsZero(PageOf(m, p)) then PageOf(m0, p) else PageOf(m, p)
    {
      OverlaidPage(m, m0, N_PAGES, p);
    }
    if forall p: nat | p < N_PAGES && IsZero(PageOf(m, p)) :: IsZero(PageOf(m0, p)) {
      forall p: nat | p < N_PAGES
        ensures PageOf(m', p) == PageOf(m, p)
      {
        if IsZero(PageOf(m, p)) {
          ZeroPagesEqual(PageOf(m, p), PageOf(m0, p));
        }
      }
      SamePages(m', m);
    } else {
      var p: nat :| p < N_PAGES && IsZero(PageOf(m, p)) && !IsZero(PageOf(m0, p));
      assert PageOf(m', p) == PageOf(m0, p);
    }
  }

  lemma ZeroPagesEqual(s: seq<byte>, t: seq<byte>)
    requires IsZero(s) && IsZero(t) && |s| == |t|
    ensures s == t
  {
  }

  // The machine and its methods.

  /** The header of a checkpoint. */
  datatype Header = Header(
    magic: nat, pc: nat, gpr: seq<int>, icnt: nat, numNzPages: nat, tohostAddr: nat, fromhostAddr: nat,
    priv: int,
    mstatus: int, misa: int, mideleg: int, medeleg: int, mscratch: int, mhartid: int, mtvec: int,
    mcounteren: int, mie: int, mip: int, mcause: int, mepc: int, mtval: int, sscratch: int, scause: int,
    stvec: int, sepc: int, sip: int, stval: int, satp: int, scounteren: int, pmpaddr0: int, pmpaddr1: int,
    pmpaddr2: int, pmpaddr3: int, pmpcfg0: int, mtimecmp: int)

  /** A checkpoint file: the header and the page records that follow it. */
  datatype Image = Image(header: Header, pages: seq<Page>)

  class State {
    var pc: nat
    var gpr: seq<int>
    var icnt: nat
    const mem: array<byte>
    var priv: Priv
    var mstatus: int
    var misa: int
    var mideleg: int
    var medeleg: int
    var mscratch: int
    var mhartid: int
    var mtvec: int
    var mcounteren: int
    var mie: int
    var mip: int
    var mcause: int
    var mepc: int
    var mtval: int
    var sscratch: int
    var scause: int
    var stvec: int
    var sepc: int
    var sip: int
    var stval: int
    var satp: int
    var scounteren: int
    var pmpaddr0: int
    var pmpaddr1: int
    var pmpaddr2: int
    var pmpaddr3: int
    var pmpcfg0: int
    var mtimecmp: int

    constructor (mem: array<byte>)
      requires mem.Length == MEM_SIZE
      ensures this.mem == mem
    {
      this.mem := mem;
    }

    /** Every register has the value in the header. */
    predicate Holds(h: Header)
      reads this
    {
      HoldsGeneral(h) && HoldsMachine(h) && HoldsSupervisor(h)
    }

    predicate HoldsGeneral(h: Header)
      reads this`pc, this`gpr, this`icnt, this`priv
    {
      pc == h.pc && gpr == h.gpr && icnt == h.icnt && Rank(priv) == h.priv % 4
    }

    predicate HoldsMachine(h: Header)
      reads this`mstatus, this`misa, this`mideleg, this`medeleg, this`mscratch, this`mhartid, this`mtvec,
            this`mcounteren, this`mie, this`mip, this`mcause, this`mepc, this`mtval
    {
      && mstatus == h.mstatus
      && misa == h.misa
      && mideleg == h.mideleg
      && medeleg == h.medeleg
      && mscratch == h.mscratch
      && mhartid == h.mhartid
      && mtvec == h.mtvec
      && mcounteren == h.mcounteren
      && mie == h.mie
      && mip == h.mip
      && mcause == h.mcause
      && mepc == h.mepc
      && mtval == h.mtval
    }

    predicate HoldsSupervisor(h: Header)
      reads this`sscratch, this`scause, this`stvec, this`sepc, this`sip, this`stval, this`satp,
            this`scounteren, this`pmpaddr0, this`pmpaddr1, this`pmpaddr2, this`pmpaddr3, this`pmpcfg0,
            this`mtimecmp
    {
      && sscratch == h.sscratch
      && scause == h.scause
      && stvec == h.stvec
      && sepc == h.sepc
      && sip == h.sip
      && stval == h.stval
      && satp == h.satp
      && scounteren == h.scounteren
      && pmpaddr0 == h.pmpaddr0
      && pmpaddr1 == h.pmpaddr1
      && pmpaddr2 == h.pmpaddr2
      && pmpaddr3 == h.pmpaddr3
      && pmpcfg0 == h.pmpcfg0
      && mtimecmp == h.mtimecmp
    }

    predicate Sized() {
      mem.Length == MEM_SIZE
    }

    /** Mark the pages in which some 64-bit word is not zero. */
    method MarkNonZero() returns (nzPages: array<bool>)
      requires Sized()
      ensures fresh(nzPages) && nzPages.Length == N_PAGES
      ensures forall p | 0 <= p < N_PAGES :: nzPages[p] == !IsZero(PageOf(mem[..], p))
    {
      nzPages := new bool[N_PAGES](_ => false);
      for p := 0 to N_PAGES
        invariant forall k | 0 <= k < p :: nzPages[k] == !IsZero(PageOf(mem[..], k))
        invariant forall k | p <= k < N_PAGES :: !nzPages[k]
      {
        var nonZero := HasNonZeroWord(p);
        if nonZero {
          nzPages[p] := true;
        }
      }
    }

    method HasNonZeroWord(p: nat) returns (nonZero: bool)
      requires Sized() && p < N_PAGES
      ensures nonZero == !IsZero(PageOf(mem[..], p))
    {
      ghost var m := mem[..];
      ZeroPage(m, p);
      nonZero := false;
      for pp := 0 to 512
        invariant forall q | 0 <= q < pp :: PageWord(m, p, q) == 0
        invariant !nonZero
      {
        var at := 8 * (p * 512 + pp);
        assert m[at..at + 8] == mem[at..at + 8];
        if LittleEndian(mem[at..at + 8]) != 0 {
          assert PageWord(m, p, pp) != 0;
          nonZero := true;
          break;
        }
      }
    }

    /** Write the header and the records of the pages that are not zero. */
    method DumpState(tohost: nat, fromhost: nat) returns (image: Image)
      requires Sized()
      ensures image.pages == PagesBelow(mem[..], N_PAGES)
      ensures Holds(image.header) && image.header.priv == Rank(priv) && image.header.magic == MAGIC_NUM
      ensures image.header.numNzPages == |image.pages| <= N_PAGES
    {
      ghost var m := mem[..];
      var nzPages := MarkNonZero();
      var count := CountMarked(nzPages);
      var h := Header(MAGIC_NUM, pc, gpr, icnt, count, tohost, fromhost, Rank(priv),
                      mstatus, misa, mideleg, medeleg, mscratch, mhartid, mtvec, mcounteren, mie, mip, mcause,
                      mepc, mtval, sscratch, scause, stvec, sepc, sip, stval, satp, scounteren, pmpaddr0,
                      pmpaddr1, pmpaddr2, pmpaddr3, pmpcfg0, mtimecmp);
      var pages := WritePages(nzPages);
      CountIsRecords(m, nzPages[..], N_PAGES);
      assert nzPages[..][..N_PAGES] == nzPages[..];
      PagesPlaced(m, N_PAGES);
      image := Image(h, pages);
    }

    method WritePages(nzPages: array<bool>) returns (pages: seq<Page>)
      requires Sized() && nzPages.Length == N_PAGES
      requires forall p | 0 <= p < N_PAGES :: nzPages[p] == !IsZero(PageOf(mem[..], p))
      ensures pages == PagesBelow(mem[..], N_PAGES)
    {
      ghost var m := mem[..];
      pages := [];
      var i := FindFrom(nzPages, 0);
      PagesSkip(m, 0, i);
      while i != N_PAGES
        invariant i <= N_PAGES && (i < N_PAGES ==> nzPages[i])
        invariant pages == PagesBelow(m, i)
        decreases N_PAGES - i
      {
        var record := Page(i * 4096, mem[i * 4096..i * 4096 + 4096]);
        assert record.data == PageOf(m, i);
        pages := pages + [record];
        var next := FindFrom(nzPages, i + 1);
        PagesSkip(m, i + 1, next);
        i := next;
      }
    }

    /** Set the registers from the header and the pages from the records. */
    method LoadState(image: Image)
      requires Sized() && Placed(image.pages) && |image.pages| >= image.header.numNzPages
      modifies this, mem
      ensures mem[..] == Restore(old(mem[..]), image.pages, image.header.numNzPages)
      ensures Holds(image.header)
    {
      LoadPages(image.pages, image.header.numNzPages);
      LoadRegisters(image.header);
    }

    method LoadRegisters(h: Header)
      modifies this
      ensures Holds(h)
    {
      LoadMachineLevel(h);
      LoadSupervisor(h);
    }

    method LoadMachineLevel(h: Header)
      modifies this
      ensures HoldsGeneral(h) && HoldsMachine(h)
    {
      LoadGeneral(h);
      LoadMachine(h);
    }

    method LoadGeneral(h: Header)
      modifies this`pc, this`gpr, this`icnt, this`priv
      ensures HoldsGeneral(h)
    {
      pc := h.pc;
      gpr := h.gpr;
      icnt := h.icnt;
      priv := match h.priv % 4 case 0 => User case 1 => Supervisor case 2 => Hypervisor case _ => Machine;
    }

    method LoadMachine(h: Header)
      modifies this`mstatus, this`misa, this`mideleg, this`medeleg, this`mscratch, this`mhartid, this`mtvec,
               this`mcounteren, this`mie, this`mip, this`mcause, this`mepc, this`mtval
      ensures HoldsMachine(h)
    {
      mstatus := h.mstatus;
      misa := h.misa;
      mideleg := h.mideleg;
      medeleg := h.medeleg;
      mscratch := h.mscratch;
      mhartid := h.mhartid;
      mtvec := h.mtvec;
      mcounteren := h.mcounteren;
      mie := h.mie;
      mip := h.mip;
      mcause := h.mcause;
      mepc := h.mepc;
      mtval := h.mtval;
    }

    method LoadSupervisor(h: Header)
      modifies this`sscratch, this`scause, this`stvec, this`sepc, this`sip, this`stval, this`satp,
               this`scounteren, this`pmpaddr0, this`pmpaddr1, this`pmpaddr2, this`pmpaddr3, this`pmpcfg0,
               this`mtimecmp
      ensures HoldsSupervisor(h)
    {
      sscratch := h.sscratch;
      scause := h.scause;
      stvec := h.stvec;
      sepc := h.sepc;
      sip := h.sip;
      stval := h.stval;
      satp := h.satp;
      scounteren := h.scounteren;
      pmpaddr0 := h.pmpaddr0;
      pmpaddr1 := h.pmpaddr1;
      pmpaddr2 := h.pmpaddr2;
      pmpaddr3 := h.pmpaddr3;
      pmpcfg0 := h.pmpcfg0;
      mtimecmp := h.mtimecmp;
    }

    method LoadPages(pages: seq<Page>, n: nat)
      requires Sized() && Placed(pages) && n <= |pages|
      modifies mem
      ensures mem[..] == Restore(old(mem[..]), pages, n)
    {
      for i := 0 to n
        invariant mem[..] == Restore(old(mem[..]), pages, i)
      {
        CopyPage(pages[i]);
      }
    }

    method CopyPage(page: Page)
      requires Sized() && page.va + |page.data| <= MEM_SIZE
      modifies mem
      ensures mem[..] == Splice(old(mem[..]), page)
    {
      for k := 0 to |page.data|
        invariant mem[..page.va] == old(mem[..page.va])
        invariant mem[page.va..page.va + k] == page.data[..k]
        invariant mem[page.va + k..] == old(mem[page.va + k..])
      {
        mem[page.va + k] := page.data[k];
        assert mem[page.va..page.va + k + 1] == mem[page.va..page.va + k] + [page.data[k]];
      }
      var end := page.va + |page.data|;
      assert mem[..] == mem[..page.va] + mem[page.va..end] + mem[end..];
    }
  }

  function Count(marks: seq<bool>): nat {
    if marks == [] then 0 else Count(marks[..|marks| - 1]) + if marks[|marks| - 1] then 1 else 0
  }

  method CountMarked(marks: array<bool>) returns (n: nat)
    ensures n == Count(marks[..])
  {
    n := 0;
    for i := 0 to marks.Length
      invariant n == Count(marks[..i])
    {
      assert marks[..i + 1][..i] == marks[..i];
      if marks[i] {
        n := n + 1;
      }
    }
    assert marks[..marks.Length] == marks[..];
  }

  /** The first mark from position i on, or the length. */
  method FindFrom(marks: array<bool>, i: nat) returns (j: nat)
    requires i <= marks.Length
    ensures i <= j <= marks.Length && (j < marks.Length ==> marks[j])
    ensures forall k | i <= k < j :: !marks[k]
  {
    j := i;
    while j < marks.Length && !marks[j]
      invariant i <= j <= marks.Length && forall k | i <= k < j :: !marks[k]
    {
      j := j + 1;
    }
  }

  lemma {:induction false} PagesSkip(m: seq<byte>, a: nat, b: nat)
    requires |m| == MEM_SIZE && a <= b <= N_PAGES
    requires forall p: nat | a <= p < b :: IsZero(PageOf(m, p))
    ensures PagesBelow(m, b) == PagesBelow(m, a)
    decreases b
  {
    if a < b {
      PagesSkip(m, a, b - 1);
    }
  }

  /** The bit count of the marks is the number of records. */
  lemma {:induction false} CountIsRecords(m: seq<byte>, marks: seq<bool>, n: nat)
    requires |m| == MEM_SIZE && n <= |marks| == N_PAGES
    requires forall p | 0 <= p < N_PAGES :: marks[p] == !IsZero(PageOf(m, p))
    ensures Count(marks[..n]) == |PagesBelow(m, n)|
  {
    if n > 0 {
      assert marks[..n][..n - 1] == marks[..n - 1];
      CountIsRecords(m, marks, n - 1);
    }
  }

  /** Both machines have the same values in all registers that a checkpoint keeps. */
  ghost predicate SameRegisters(s: State, t: State)
    reads s, t
  {
    exists h: Header :: h.priv == Rank(s.priv) && s.Holds(h) && t.Holds(h)
  }

  /**
   Dumping one machine and loading the checkpoint into another: the registers are always carried
   over; memory is exactly when no page that is zero in s holds anything in t.
   */
  method RoundTrip(s: State, t: State, tohost: nat, fromhost: nat)
    requires s.Sized() && t.Sized() && s != t && s.mem != t.mem
    modifies t, t.mem
    ensures SameRegisters(s, t) && t.priv == s.priv
    ensures t.mem[..] == s.mem[..]
         <==> forall p: nat | p < N_PAGES && IsZero(PageOf(s.mem[..], p)) :: IsZero(PageOf(old(t.mem[..]), p))
  {
    var image := s.DumpState(tohost, fromhost);
    RestoresExactly(s.mem[..], t.mem[..]);
    t.LoadState(image);
    assert s.Holds(image.header) && t.Holds(image.header);
  }
}
