/** Building the memory image of an ELF file's loadable segments, by mapping the file or by copying. */
module SegmentMap {
  import opened Basics

  const PAGE := 4096

  function PageDown(a: nat): (r: nat)
    ensures r <= a < r + PAGE && r % PAGE == 0
  {
    a - a % PAGE
  }

  function PageUp(a: nat): (r: nat)
    ensures a <= r < a + PAGE && r % PAGE == 0
  {
    PageDown(a + PAGE - 1)
  }

  datatype SegmentType = Load | Dynamic | OtherSegment

  datatype Phdr = Phdr(kind: SegmentType, vaddr: nat, offset: nat, filesz: nat, memsz: nat, writable: bool)
  {
    /** The distance of the segment's first byte from its page start. */
    function Pre(): nat { vaddr % PAGE }

    /** The first address and the length of the pages the segment occupies. */
    function Start(): nat { PageDown(vaddr) }

    function Len(): nat { PageUp(Pre() + memsz) }

    /** The length of the pages that come from the file. */
    function FileLen(): nat { PageUp(Pre() + filesz) }
  }

  /** Program headers as the loader relies on them: the file contains each loadable segment's bytes, at
    * an offset congruent to its address, and addresses do not wrap. */
  ghost predicate WfPhdr(ph: Phdr, file: seq<Byte>) {
    && ph.filesz <= ph.memsz && ph.offset + ph.filesz <= |file|
    && ph.offset % PAGE == ph.vaddr % PAGE
    && ph.vaddr + ph.memsz + PAGE < 0x1_0000_0000_0000_0000
  }

  ghost predicate PageDisjoint(a: Phdr, b: Phdr) {
    a.Start() + a.Len() <= b.Start() || b.Start() + b.Len() <= a.Start()
  }

  ghost predicate WfPhdrs(phs: seq<Phdr>, file: seq<Byte>) {
    && (forall i :: 0 <= i < |phs| && phs[i].kind == Load ==> WfPhdr(phs[i], file))
    && (forall i, j :: 0 <= i < j < |phs| && phs[i].kind == Load && phs[j].kind == Load ==>
          PageDisjoint(phs[i], phs[j]))
  }

  // ---------- page arithmetic ----------

  lemma PageUpMonotone(a: nat, b: nat)
    requires a <= b
    ensures PageUp(a) <= PageUp(b)
  {
    MultiplesApart(PageUp(b), PageUp(a));
  }

  /** The pages of a segment end where the page-rounded end of the segment is. */
  lemma SegmentEnd(ph: Phdr)
    ensures ph.Start() + ph.Len() == PageUp(ph.vaddr + ph.memsz)
    ensures ph.Start() + ph.Pre() == ph.vaddr
  {
    PageUpShift(ph.vaddr / PAGE, ph.Pre() + ph.memsz);
  }

  lemma PageUpShift(k: nat, a: nat)
    ensures k * PAGE + PageUp(a) == PageUp(k * PAGE + a)
  {
    assert (k * PAGE + a + PAGE - 1) / PAGE == k + (a + PAGE - 1) / PAGE;
  }

  lemma MultiplesApart(a: nat, b: nat)
    requires a % PAGE == 0 && b % PAGE == 0
    ensures a < b ==> a + PAGE <= b
  {
  }

  // ---------- the span ----------

  datatype Span = Span(minV: nat, maxV: nat, hasDynamic: bool)

  const UINTPTR_MAX := 0xFFFF_FFFF_FFFF_FFFF

  /** One of the first n headers is of that kind. */
  ghost predicate Has(phs: seq<Phdr>, n: nat, kind: SegmentType)
    requires n <= |phs|
  {
    exists i :: 0 <= i < n && phs[i].kind == kind
  }

  lemma HasMore(phs: seq<Phdr>, n: nat, kind: SegmentType)
    requires n < |phs|
    ensures Has(phs, n + 1, kind) <==> Has(phs, n, kind) || phs[n].kind == kind
  {
  }

  /** The scan of the program headers: the page-rounded span of the loadable segments. None when there is
    * no loadable segment or no dynamic one. */
  method ComputeSpan(phs: seq<Phdr>, ghost file: seq<Byte>) returns (r: Option<Span>)
    requires WfPhdrs(phs, file)
    ensures r.Some? <==> Has(phs, |phs|, Dynamic) && Has(phs, |phs|, Load)
    ensures r.Some? ==> forall i :: 0 <= i < |phs| && phs[i].kind == Load ==> InSpan(phs[i], r.value)
    ensures r.Some? ==> r.value.minV <= r.value.maxV
    ensures r.Some? ==> exists i ::
              0 <= i < |phs| && phs[i].kind == Load && r.value.minV == phs[i].Start()
    ensures r.Some? ==> exists i ::
              0 <= i < |phs| && phs[i].kind == Load && r.value.maxV == phs[i].Start() + phs[i].Len()
  {
    hide PageUp, PageDown, Has;
    assert !Has(phs, 0, Dynamic) && !Has(phs, 0, Load) by {
      HasNone(phs);
    }
    var minV: nat, maxV: nat := UINTPTR_MAX, 0;
    var dynamic := false;
    ghost var lowest: nat, highest: nat := 0, 0;
    for i := 0 to |phs|
      invariant dynamic <==> Has(phs, i, Dynamic)
      invariant if Has(phs, i, Load) then minV < UINTPTR_MAX && minV <= maxV else minV == UINTPTR_MAX && maxV == 0
      invariant Has(phs, i, Load) ==> lowest < i && phs[lowest].kind == Load && minV == phs[lowest].Start()
      invariant Has(phs, i, Load) ==>
        highest < i && phs[highest].kind == Load && maxV == phs[highest].Start() + phs[highest].Len()
      invariant forall j :: 0 <= j < i && phs[j].kind == Load ==> InSpan(phs[j], Span(minV, maxV, dynamic))
    {
      HasMore(phs, i, Dynamic);
      HasMore(phs, i, Load);
      if phs[i].kind == Dynamic {
        dynamic := true;
      }
      if phs[i].kind != Load {
        continue;
      }
      assert WfPhdr(phs[i], file);
      SegmentEnd(phs[i]);
      lowest := if minV < PageDown(phs[i].vaddr) then lowest else i;
      highest := if maxV > PageUp(phs[i].vaddr + phs[i].memsz) then highest else i;
      minV := if minV < PageDown(phs[i].vaddr) then minV else PageDown(phs[i].vaddr);
      maxV := if maxV > PageUp(phs[i].vaddr + phs[i].memsz) then maxV else PageUp(phs[i].vaddr + phs[i].memsz);
    }
    if !dynamic || minV == UINTPTR_MAX {
      return None;
    }
    return Some(Span(minV, maxV, dynamic));
  }

  lemma HasNone(phs: seq<Phdr>)
    ensures forall kind :: !Has(phs, 0, kind)
  {
  }

  /** All pages of the segment lie inside the reserved span. */
  ghost predicate InSpan(ph: Phdr, span: Span) {
    span.minV <= ph.Start() && ph.Start() + ph.Len() <= span.maxV
  }

  // ---------- what a segment's memory must contain ----------

  /** A byte of a file mapping; the rest of the file's last page reads as zero. */
  function FileAt(file: seq<Byte>, pos: nat): Byte {
    if pos < |file| then file[pos] else 0
  }

  /** Byte i of a segment by definition: the file's bytes, then zeros. */
  function CopiedByte(ph: Phdr, file: seq<Byte>, i: nat): Byte {
    if i < ph.filesz then FileAt(file, ph.offset + i) else 0
  }

  /** Byte i of a segment whose pages are mapped from the file: past the segment's file bytes, the last
    * page keeps the file's contents unless the segment is writable and its tail could be cleared. */
  function MappedByte(ph: Phdr, file: seq<Byte>, i: nat): Byte {
    var p := ph.Pre() + i;
    if p >= ph.FileLen() || (ph.writable && i >= ph.filesz) then 0 else FileAt(file, ph.offset + i)
  }

  ghost predicate Loaded(mem: seq<Byte>, minV: nat, ph: Phdr, file: seq<Byte>, fileBacked: bool) {
    && minV <= ph.vaddr && ph.vaddr - minV + ph.memsz <= |mem|
    && forall i :: 0 <= i < ph.memsz ==>
         mem[ph.vaddr - minV + i] == if fileBacked then MappedByte(ph, file, i) else CopiedByte(ph, file, i)
  }

  /** The file bytes that follow the segment's own in its last file page, as far as the segment
    * reaches, are zero. */
  ghost predicate FileTailZero(ph: Phdr, file: seq<Byte>) {
    forall p :: ph.offset + ph.filesz <= p < ph.offset + ph.memsz && p - ph.offset + ph.Pre() < ph.FileLen() ==>
                  FileAt(file, p) == 0
  }

  /** The two ways of loading agree on every byte of a segment exactly when the segment is writable or
    * the rest of its last file page is zero anyway; in particular they agree when the segment is
    * writable or has no zero-fill tail. */
  lemma PathsAgree(ph: Phdr, file: seq<Byte>)
    requires WfPhdr(ph, file)
    ensures (forall i :: 0 <= i < ph.memsz ==> MappedByte(ph, file, i) == CopiedByte(ph, file, i)) <==>
            ph.writable || FileTailZero(ph, file)
    ensures ph.filesz == ph.memsz ==> FileTailZero(ph, file)
  {
    if forall i :: 0 <= i < ph.memsz ==> MappedByte(ph, file, i) == CopiedByte(ph, file, i) {
      forall p | ph.offset + ph.filesz <= p < ph.offset + ph.memsz && p - ph.offset + ph.Pre() < ph.FileLen()
                 && !ph.writable
        ensures FileAt(file, p) == 0
      {
        assert MappedByte(ph, file, p - ph.offset) == CopiedByte(ph, file, p - ph.offset);
      }
    }
  }

  /** Behind the end of the file both ways give zeros. */
  lemma BehindTheFile(ph: Phdr, file: seq<Byte>, i: nat)
    requires WfPhdr(ph, file) && ph.offset + i >= |file|
    ensures MappedByte(ph, file, i) == CopiedByte(ph, file, i) == 0
  {
  }

  /** For example, a read-only segment of one file byte in two bytes of memory: mapping the file [7, 9] leaves the
    * 9 in its second byte, copying leaves 0. */
  lemma TailByteDiffers()
    ensures var ph := Phdr(Load, 0, 0, 1, 2, false);
            WfPhdr(ph, [7, 9]) && !FileTailZero(ph, [7, 9])
            && MappedByte(ph, [7, 9], 1) == 9 && CopiedByte(ph, [7, 9], 1) == 0
  {
    var ph, file := Phdr(Load, 0, 0, 1, 2, false), [7, 9];
    assert FileAt(file, 1) == 9;
  }

  // ---------- the memory operations ----------

  ghost predicate SameOutside(a: seq<Byte>, b: seq<Byte>, at: nat, len: nat) {
    |a| == |b| && forall i :: 0 <= i < |a| && !(at <= i < at + len) ==> a[i] == b[i]
  }

  /** mmap of file pages over part of the span. */
  method MapFile(mem: array<Byte>, at: nat, len: nat, file: seq<Byte>, off: nat)
    requires at + len <= mem.Length
    modifies mem
    ensures SameOutside(old(mem[..]), mem[..], at, len)
    ensures forall j :: at <= j < at + len ==> mem[j] == FileAt(file, off + (j - at))
  {
    for k := 0 to len
      invariant SameOutside(old(mem[..]), mem[..], at, len)
      invariant forall j :: at <= j < at + k ==> mem[j] == FileAt(file, off + (j - at))
    {
      mem[at + k] := FileAt(file, off + k);
    }
  }

  /** Anonymous pages over part of the span, or a memset to zero there. */
  method Zero(mem: array<Byte>, at: nat, len: nat)
    requires at + len <= mem.Length
    modifies mem
    ensures SameOutside(old(mem[..]), mem[..], at, len)
    ensures forall j :: at <= j < at + len ==> mem[j] == 0
  {
    for k := 0 to len
      invariant SameOutside(old(mem[..]), mem[..], at, len)
      invariant forall j :: at <= j < at + k ==> mem[j] == 0
    {
      mem[at + k] := 0;
    }
  }

  // ---------- the segment loop ----------

  /** The file's pages of a mapped segment, with the tail of a writable one cleared. */
  method MapFilePages(mem: array<Byte>, seg: nat, ph: Phdr, file: seq<Byte>)
    requires WfPhdr(ph, file) && seg + ph.FileLen() <= mem.Length
    modifies mem
    ensures ph.offset >= ph.Pre() && SameOutside(old(mem[..]), mem[..], seg, ph.FileLen())
    ensures forall j :: seg <= j < seg + ph.FileLen() ==>
              mem[j] == if ph.writable && j - seg >= ph.Pre() + ph.filesz then 0
                        else FileAt(file, ph.offset - ph.Pre() + (j - seg))
  {
    var fileLen := ph.FileLen();
    assert ph.offset >= ph.Pre();
    var fileOff := ph.offset - ph.Pre();
    if fileLen > 0 {
      MapFile(mem, seg, fileLen, file, fileOff);
    }
    var fileEnd := ph.Pre() + ph.filesz;
    if ph.writable && fileLen > fileEnd {
      Zero(mem, seg + fileEnd, fileLen - fileEnd);
    }
  }

  /** One loadable segment mapped from the file at its final protection. */
  method MapSegment(mem: array<Byte>, minV: nat, ph: Phdr, file: seq<Byte>)
    requires WfPhdr(ph, file) && minV <= ph.Start() && ph.Start() - minV + ph.Len() <= mem.Length
    modifies mem
    ensures Loaded(mem[..], minV, ph, file, true)
    ensures SameOutside(old(mem[..]), mem[..], ph.Start() - minV, ph.Len())
  {
    var seg := ph.Start() - minV;
    var pre := ph.Pre();
    var len := ph.Len();
    var fileLen := ph.FileLen();
    PageUpMonotone(pre + ph.filesz, pre + ph.memsz);
    SegmentEnd(ph);
    MapFilePages(mem, seg, ph, file);
    if len > fileLen {
      Zero(mem, seg + fileLen, len - fileLen);
    }
    hide PageUp, PageDown;
    assert forall i :: 0 <= i < ph.memsz ==> mem[seg + pre + i] == MappedByte(ph, file, i);
  }

  /** One loadable segment copied into anonymous pages; mmap refuses an empty mapping. */
  method CopySegment(mem: array<Byte>, minV: nat, ph: Phdr, file: seq<Byte>) returns (ok: bool)
    requires WfPhdr(ph, file) && minV <= ph.Start() && ph.Start() - minV + ph.Len() <= mem.Length
    modifies mem
    ensures ok <==> ph.Len() > 0
    ensures ok ==> Loaded(mem[..], minV, ph, file, false)
    ensures SameOutside(old(mem[..]), mem[..], ph.Start() - minV, ph.Len())
  {
    var seg := ph.Start() - minV;
    var pre := ph.Pre();
    SegmentEnd(ph);
    if ph.Len() == 0 {
      return false;
    }
    Zero(mem, seg, ph.Len());
    MapFile(mem, seg + pre, ph.filesz, file, ph.offset);
    assert forall i :: 0 <= i < ph.memsz ==> mem[seg + pre + i] == CopiedByte(ph, file, i);
    return true;
  }

  lemma LoadedStays(a: seq<Byte>, b: seq<Byte>, minV: nat, ph: Phdr, file: seq<Byte>, fileBacked: bool, other: Phdr)
    requires Loaded(a, minV, ph, file, fileBacked) && PageDisjoint(ph, other)
    requires minV <= ph.Start() && minV <= other.Start()
    requires SameOutside(a, b, other.Start() - minV, other.Len())
    ensures Loaded(b, minV, ph, file, fileBacked)
  {
    SegmentEnd(ph);
  }

  /** The loop over the program headers: every loadable segment ends up with its contents, wherever the
    * others lie. */
  method LoadSegments(phs: seq<Phdr>, file: seq<Byte>, span: Span, fileBacked: bool, mem: array<Byte>)
    returns (ok: bool)
    requires WfPhdrs(phs, file) && span.minV <= span.maxV && mem.Length == span.maxV - span.minV
    requires forall i :: 0 <= i < |phs| && phs[i].kind == Load ==> InSpan(phs[i], span)
    modifies mem
    ensures ok <==> fileBacked || forall i :: 0 <= i < |phs| && phs[i].kind == Load ==> phs[i].Len() > 0
    ensures ok ==> forall i :: 0 <= i < |phs| && phs[i].kind == Load ==>
                     Loaded(mem[..], span.minV, phs[i], file, fileBacked)
  {
    hide Loaded, SameOutside, PageDisjoint, WfPhdr;
    for n := 0 to |phs|
      invariant fileBacked || forall i :: 0 <= i < n && phs[i].kind == Load ==> phs[i].Len() > 0
      invariant forall i :: 0 <= i < n && phs[i].kind == Load ==>
                  Loaded(mem[..], span.minV, phs[i], file, fileBacked)
    {
      if phs[n].kind != Load {
        continue;
      }
      ghost var before := mem[..];
      if fileBacked {
        MapSegment(mem, span.minV, phs[n], file);
      } else {
        var copied := CopySegment(mem, span.minV, phs[n], file);
        if !copied {
          return false;
        }
      }
      forall i | 0 <= i < n && phs[i].kind == Load
        ensures Loaded(mem[..], span.minV, phs[i], file, fileBacked)
      {
        LoadedStays(before, mem[..], span.minV, phs[i], file, fileBacked, phs[n]);
      }
    }
    return true;
  }
}
