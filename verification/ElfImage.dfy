// The ELF segment loader (junction/kernel/elf.cc), chapter 5 of the System V
// gABI. A program's memory is a byte and a protection per address; mapping and
// protecting either succeed on whole pages or change nothing. Addresses do not
// wrap, and a file read past its end gives zero.
module ElfImage {
  import opened Common
  import opened IoVectors
  import opened Areas
  import opened Modular

  type File = seq<Byte>

  function FileByte(f: File, i: nat): Byte {
    if i < |f| then f[i] else 0
  }

  // Only kPTypeLoad segments are loaded.
  datatype Phdr = Phdr(load: bool, prot: set<Perm>, offset: nat, vaddr: nat, filesz: nat, memsz: nat, align: nat)

  // --- Checking the headers ---

  predicate SingleBit(n: nat) {
    exists k: nat | k < 64 :: Pow2(k) == n
  }

  predicate PhdrOk(p: Phdr) {
    && p.filesz <= p.memsz
    && (p.align > 1 ==> SingleBit(p.align) && BitAnd(p.vaddr, p.align - 1) == BitAnd(p.offset, p.align - 1))
  }

  method CheckPhdrs(phdrs: seq<Phdr>) returns (r: Result<(), Errno>)
    ensures r == if forall i | 0 <= i < |phdrs| :: PhdrOk(phdrs[i]) then Ok(()) else Err(EINVAL)
  {
    var i := 0;
    while i < |phdrs|
      invariant 0 <= i <= |phdrs| && forall j | 0 <= j < i :: PhdrOk(phdrs[j])
    {
      if !PhdrOk(phdrs[i]) {
        return Err(EINVAL);
      }
      i := i + 1;
    }
    return Ok(());
  }

  // The address and the offset agree within a page.
  predicate Congruent(p: Phdr) {
    p.vaddr % PAGE_SIZE == p.offset % PAGE_SIZE
  }

  // The check establishes that for segments aligned to a page or more.
  lemma CheckedCongruent(p: Phdr)
    requires PhdrOk(p) && p.align >= PAGE_SIZE
    ensures Congruent(p)
  {
    var k: nat :| k < 64 && Pow2(k) == p.align;
    MaskIsRemainder(p.vaddr, k);
    MaskIsRemainder(p.offset, k);
    assert Pow2(12) == PAGE_SIZE by { Pow2Small(); Pow2Add(4, 4); Pow2Add(4, 8); }
    if k < 12 { Pow2Grows(k, 12); }
    Pow2Divides(12, k);
    SameRemainder(p.vaddr, p.offset, p.align, PAGE_SIZE);
  }

  lemma SameRemainder(x: nat, y: nat, n: nat, d: nat)
    requires n > 0 && d > 0 && n % d == 0 && x % n == y % n
    ensures x % d == y % d
  {
    var q := n / d;
    assert n == d * q;
    assert x == n * (x / n) + x % n && y == n * (y / n) + y % n;
    assert n * (x / n) == d * (q * (x / n)) && n * (y / n) == d * (q * (y / n));
    ModShift(x % n, d, q * (x / n));
    ModShift(y % n, d, q * (y / n));
  }

  method CountTotalLength(phdrs: seq<Phdr>) returns (len: nat)
    ensures forall i | 0 <= i < |phdrs| && phdrs[i].load :: phdrs[i].vaddr + phdrs[i].memsz <= len
    ensures len == 0 || exists i :: 0 <= i < |phdrs| && phdrs[i].load && phdrs[i].vaddr + phdrs[i].memsz == len
  {
    len := 0;
    var i := 0;
    while i < |phdrs|
      invariant 0 <= i <= |phdrs|
      invariant forall j | 0 <= j < i && phdrs[j].load :: phdrs[j].vaddr + phdrs[j].memsz <= len
      invariant len == 0 || exists j :: 0 <= j < i && phdrs[j].load && phdrs[j].vaddr + phdrs[j].memsz == len
    {
      if phdrs[i].load {
        len := Max(len, phdrs[i].vaddr + phdrs[i].memsz);
      }
      i := i + 1;
    }
  }

  // --- The memory of a program ---

  class AddressSpace {
    var bytes: nat -> Byte
    var prot: nat -> Option<set<Perm>>
    // How many calls the host has refused.
    ghost var refused: nat

    // A private file mapping, to the end of its last page.
    method MMapFixed(f: File, start: nat, len: nat, p: set<Perm>, off: nat) returns (ok: bool)
      requires IsPageAligned(start) && IsPageAligned(off)
      modifies this
      ensures !ok ==> bytes == old(bytes) && prot == old(prot)
      ensures refused == old(refused) + One(!ok)
      ensures ok ==> forall x: nat ::
                if start <= x < PageAlign(start + len) then bytes(x) == FileByte(f, off + (x - start)) && prot(x) == Some(p)
                else bytes(x) == old(bytes)(x) && prot(x) == old(prot)(x)
    {
      ok := *;
      refused := refused + One(!ok);
      if ok {
        var b, q, end := bytes, prot, PageAlign(start + len);
        bytes := (x: nat) => if start <= x < end then FileByte(f, off + (x - start)) else b(x);
        prot := (x: nat) => if start <= x < end then Some(p) else q(x);
      }
    }

    method MMapAnonymous(start: nat, len: nat, p: set<Perm>) returns (ok: bool)
      requires IsPageAligned(start)
      modifies this
      ensures !ok ==> bytes == old(bytes) && prot == old(prot)
      ensures refused == old(refused) + One(!ok)
      ensures ok ==> forall x: nat ::
                if start <= x < PageAlign(start + len) then bytes(x) == 0 && prot(x) == Some(p)
                else bytes(x) == old(bytes)(x) && prot(x) == old(prot)(x)
    {
      ok := *;
      refused := refused + One(!ok);
      if ok {
        var b, q, end := bytes, prot, PageAlign(start + len);
        bytes := (x: nat) => if start <= x < end then 0 else b(x);
        prot := (x: nat) => if start <= x < end then Some(p) else q(x);
      }
    }

    method MProtect(start: nat, len: nat, p: set<Perm>) returns (ok: bool)
      requires IsPageAligned(start) && IsPageAligned(len)
      modifies `prot, `refused
      ensures !ok ==> prot == old(prot)
      ensures refused == old(refused) + One(!ok)
      ensures ok ==> forall x: nat ::
                prot(x) == if start <= x < start + len && old(prot)(x).Some? then Some(p) else old(prot)(x)
    {
      ok := *;
      refused := refused + One(!ok);
      if ok {
        var q := prot;
        prot := (x: nat) => if start <= x < start + len && q(x).Some? then Some(p) else q(x);
      }
    }

    // memset to zero; it faults on a page that is not writable.
    method Zero(lo: nat, hi: nat)
      requires forall x: nat | lo <= x < hi :: prot(x).Some? && Write in prot(x).value
      modifies `bytes
      ensures forall x: nat :: bytes(x) == if lo <= x < hi then 0 else old(bytes)(x)
    {
      var b := bytes;
      bytes := (x: nat) => if lo <= x < hi then 0 else b(x);
    }

    // --- Loading one segment ---

    method LoadOneSegment(f: File, mapOff: nat, p: Phdr) returns (r: Result<(), Errno>)
      requires PhdrOk(p) && IsPageAligned(mapOff)
      modifies this
      // It succeeds exactly when the host refuses nothing.
      ensures refused >= old(refused) && (r.Ok? <==> refused == old(refused))
      ensures r.Ok? ==> forall x: nat ::
                && bytes(x) == (if InSegment(mapOff, p, x) then SegmentByte(f, mapOff, p, x) else old(bytes)(x))
                && prot(x) == (if InSegment(mapOff, p, x) then Some(p.prot) else old(prot)(x))
      ensures r.Err? ==> r.error == ENOMEM && forall x: nat | !InSegment(mapOff, p, x) ::
                bytes(x) == old(bytes)(x) && prot(x) == old(prot)(x)
    {
      hide PageAlign, PageAlignDown, PhdrOk;
      Layout(mapOff, p);
      var gapEnd := PageAlign(p.vaddr + mapOff + p.filesz);
      var memEnd := p.vaddr + mapOff + p.memsz;
      var ok := LoadFilePart(f, mapOff, p);
      if !ok {
        return Err(ENOMEM);
      }
      if memEnd > gapEnd {
        ok := MMapAnonymous(gapEnd, memEnd - gapEnd, p.prot);
        if !ok {
          return Err(ENOMEM);
        }
      }
      return Ok(());
    }

    // The file mapping and the gap after it, up to the end of that page.
    method LoadFilePart(f: File, mapOff: nat, p: Phdr) returns (ok: bool)
      requires PhdrOk(p) && IsPageAligned(mapOff)
      modifies this
      ensures refused == old(refused) + One(!ok)
      ensures var start, fileEnd := PageAlignDown(p.vaddr + mapOff), p.vaddr + mapOff + p.filesz;
              && (ok ==> forall x: nat ::
                    if start <= x < PageAlign(fileEnd) then
                      && bytes(x) == (if x < fileEnd then FileByte(f, PageAlignDown(p.offset) + (x - start)) else 0)
                      && prot(x) == Some(p.prot)
                    else bytes(x) == old(bytes)(x) && prot(x) == old(prot)(x))
              && (!ok ==> forall x: nat | !(start <= x < PageAlign(fileEnd)) ::
                    bytes(x) == old(bytes)(x) && prot(x) == old(prot)(x))
    {
      hide PageAlign, PageAlignDown, PhdrOk;
      var start := PageAlignDown(p.vaddr + mapOff);
      var fileEnd := p.vaddr + mapOff + p.filesz;
      var gapEnd := PageAlign(fileEnd);
      Layout(mapOff, p);
      ok := true;
      if fileEnd > start {
        ok := MMapFixed(f, start, fileEnd - start, p.prot, PageAlignDown(p.offset));
        if !ok {
          return;
        }
      }
      if gapEnd > fileEnd {
        ok := ZeroGap(fileEnd, gapEnd, p.prot);
      }
    }

    // --- Loading all of them ---

    // base: where the reservation for a relocatable image landed, if it did.
    method LoadSegments(f: File, phdrs: seq<Phdr>, reloc: bool, base: Option<nat>)
      returns (r: Result<(nat, nat), Errno>)
      requires forall i | 0 <= i < |phdrs| :: PhdrOk(phdrs[i])
      requires base.Some? ==> IsPageAligned(base.value)
      modifies this
      ensures refused >= old(refused)
      ensures r.Ok? <==> refused == old(refused) && (reloc ==> base.Some?)
      ensures r.Err? ==> r.error == ENOMEM
      ensures r.Ok? ==> r.value.0 == if reloc && base.Some? then base.value else 0
      ensures r.Ok? && PageDisjoint(phdrs) ==>
                forall i | 0 <= i < |phdrs| && phdrs[i].load :: SegmentLoaded(bytes, prot, f, r.value.0, phdrs[i])
      ensures r.Ok? && PageDisjoint(phdrs) ==>
                forall i | 0 <= i < |phdrs| && phdrs[i].load && (phdrs[i].filesz == 0 || Congruent(phdrs[i])) ::
                  ImageOk(bytes, prot, f, r.value.0, phdrs[i])
      // Outside the segments nothing changes, except that the reservation of a
      // relocatable image is inaccessible there.
      ensures r.Ok? ==>
                forall x: nat | Outside(r.value.0, phdrs, |phdrs|, x) ::
                  if reloc && r.value.0 <= x < PageAlign(r.value.0 + r.value.1) then prot(x) == Some({})
                  else bytes(x) == old(bytes)(x) && prot(x) == old(prot)(x)
      ensures r.Ok? && reloc ==> forall i, x: nat | 0 <= i < |phdrs| && phdrs[i].load && InSegment(r.value.0, phdrs[i], x) ::
                r.value.0 <= x < PageAlign(r.value.0 + r.value.1)
    {
      hide SegmentLoaded, ImageOk, PageAlign, PageAlignDown, InSegment;
      var mapOff := 0;
      var mapLen := CountTotalLength(phdrs);
      if reloc {
        if base.None? {
          return Err(ENOMEM);
        }
        var ok := MMapAnonymous(base.value, mapLen, {});
        if !ok {
          return Err(ENOMEM);
        }
        mapOff := base.value;
      }
      ghost var b0, q0 := bytes, prot;
      var i := 0;
      while i < |phdrs|
        invariant 0 <= i <= |phdrs| && refused == old(refused)
        invariant forall x: nat | Outside(mapOff, phdrs, i, x) :: bytes(x) == b0(x) && prot(x) == q0(x)
        invariant PageDisjoint(phdrs) ==>
                    forall j | 0 <= j < i && phdrs[j].load :: SegmentLoaded(bytes, prot, f, mapOff, phdrs[j])
      {
        if phdrs[i].load {
          ghost var b, q := bytes, prot;
          var ret := LoadOneSegment(f, mapOff, phdrs[i]);
          if ret.Err? {
            return Err(ret.error);
          }
          JustLoaded(bytes, prot, f, mapOff, phdrs[i]);
          if PageDisjoint(phdrs) {
            forall j | 0 <= j < i && phdrs[j].load ensures SegmentLoaded(bytes, prot, f, mapOff, phdrs[j]) {
              StaysLoaded(b, q, bytes, prot, f, mapOff, phdrs[j], phdrs[i]);
            }
          }
        }
        i := i + 1;
      }
      forall i, x: nat | 0 <= i < |phdrs| && phdrs[i].load && InSegment(mapOff, phdrs[i], x)
        ensures mapOff <= x < PageAlign(mapOff + mapLen)
      {
        InsideReservation(mapOff, mapLen, phdrs[i], x);
      }
      if PageDisjoint(phdrs) {
        forall i | 0 <= i < |phdrs| && phdrs[i].load && (phdrs[i].filesz == 0 || Congruent(phdrs[i]))
          ensures ImageOk(bytes, prot, f, mapOff, phdrs[i])
        {
          LoadedImage(bytes, prot, f, mapOff, phdrs[i]);
        }
      }
      return Ok((mapOff, mapLen));
    }

    // The rest of the last file page is cleared; a page that is not writable
    // is made so for the moment.
    method ZeroGap(fileEnd: nat, gapEnd: nat, p: set<Perm>) returns (ok: bool)
      requires gapEnd == PageAlign(fileEnd) && gapEnd > fileEnd
      requires forall x: nat | PageAlignDown(fileEnd) <= x < gapEnd :: prot(x) == Some(p)
      modifies this
      ensures refused == old(refused) + One(!ok)
      ensures ok ==> (forall x: nat :: bytes(x) == if fileEnd <= x < gapEnd then 0 else old(bytes)(x))
                     && forall x: nat :: prot(x) == old(prot)(x)
      ensures !ok ==> forall x: nat | !(PageAlignDown(fileEnd) <= x < gapEnd) ::
                bytes(x) == old(bytes)(x) && prot(x) == old(prot)(x)
    {
      var page := PageAlignDown(fileEnd);
      LastPage(fileEnd);
      ok := true;
      if Write !in p {
        ok := MProtect(page, PAGE_SIZE, p + {Write});
        if !ok {
          return;
        }
      }
      Zero(fileEnd, gapEnd);
      if Write !in p {
        ok := MProtect(page, PAGE_SIZE, p);
      }
    }
  }

  predicate InSegment(mapOff: nat, p: Phdr, x: nat) {
    PageAlignDown(p.vaddr + mapOff) <= x < PageAlign(p.vaddr + mapOff + p.memsz)
  }

  function SegmentByte(f: File, mapOff: nat, p: Phdr, x: nat): Byte
    requires InSegment(mapOff, p, x)
  {
    if x < p.vaddr + mapOff + p.filesz then FileByte(f, PageAlignDown(p.offset) + (x - PageAlignDown(p.vaddr + mapOff)))
    else 0
  }

  lemma LastPage(x: nat)
    requires PageAlign(x) > x
    ensures PageAlign(x) == PageAlignDown(x) + PAGE_SIZE && IsPageAligned(PageAlignDown(x)) && PageAlignDown(x) <= x
  {
  }

  lemma Layout(mapOff: nat, p: Phdr)
    requires PhdrOk(p)
    ensures var start := PageAlignDown(p.vaddr + mapOff);
            var fileEnd := p.vaddr + mapOff + p.filesz;
            && IsPageAligned(start) && IsPageAligned(PageAlignDown(p.offset)) && IsPageAligned(PageAlign(fileEnd))
            && start <= p.vaddr + mapOff && start <= PageAlignDown(fileEnd)
            && fileEnd <= PageAlign(fileEnd) <= PageAlign(p.vaddr + mapOff + p.memsz)
            && (fileEnd == start ==> PageAlign(fileEnd) == fileEnd)
            && (p.vaddr + mapOff + p.memsz <= PageAlign(fileEnd) ==>
                  PageAlign(p.vaddr + mapOff + p.memsz) == PageAlign(fileEnd))
  {
    hide PageAlign, PageAlignDown;
    var va := p.vaddr + mapOff;
    DownFacts(va, va + p.filesz);
    DownFacts(p.offset, 0);
    PageAlignFacts(va + p.filesz, va + p.memsz);
    PageAlignFacts(va + p.memsz, PageAlign(va + p.filesz));
  }

  lemma DownFacts(x: nat, y: nat)
    ensures IsPageAligned(PageAlignDown(x)) && PageAlignDown(x) <= x
    ensures x <= y ==> PageAlignDown(x) <= PageAlignDown(y)
    ensures IsPageAligned(y) ==> PageAlign(y) == y
  {
  }

  // --- What a loaded image is ---

  // The bytes and the protection the mapping calls leave for one segment.
  ghost predicate SegmentLoaded(b: nat -> Byte, q: nat -> Option<set<Perm>>, f: File, mapOff: nat, p: Phdr) {
    forall x: nat | InSegment(mapOff, p, x) :: b(x) == SegmentByte(f, mapOff, p, x) && q(x) == Some(p.prot)
  }

  // In none of the first n segments.
  ghost predicate Outside(mapOff: nat, phdrs: seq<Phdr>, n: nat, x: nat)
    requires n <= |phdrs|
  {
    forall i | 0 <= i < n && phdrs[i].load :: !InSegment(mapOff, phdrs[i], x)
  }

  // No two loadable segments share a page.
  ghost predicate PageDisjoint(phdrs: seq<Phdr>) {
    forall i, j | 0 <= i < j < |phdrs| && phdrs[i].load && phdrs[j].load :: Apart(phdrs[i], phdrs[j])
  }

  ghost predicate Apart(p: Phdr, q: Phdr) {
    || PageAlign(p.vaddr + p.memsz) <= PageAlignDown(q.vaddr)
    || PageAlign(q.vaddr + q.memsz) <= PageAlignDown(p.vaddr)
  }

  lemma AlignShifts(x: nat, off: nat)
    requires IsPageAligned(off)
    ensures PageAlign(x + off) == PageAlign(x) + off && PageAlignDown(x + off) == PageAlignDown(x) + off
  {
  }

  lemma ApartMeans(p: Phdr, q: Phdr, mapOff: nat, x: nat)
    requires Apart(p, q) && IsPageAligned(mapOff) && InSegment(mapOff, p, x)
    ensures !InSegment(mapOff, q, x)
  {
    hide PageAlign, PageAlignDown;
    AlignShifts(p.vaddr, mapOff);
    AlignShifts(q.vaddr, mapOff);
    AlignShifts(p.vaddr + p.memsz, mapOff);
    AlignShifts(q.vaddr + q.memsz, mapOff);
  }

  lemma JustLoaded(b: nat -> Byte, q: nat -> Option<set<Perm>>, f: File, mapOff: nat, p: Phdr)
    requires forall x: nat | InSegment(mapOff, p, x) :: b(x) == SegmentByte(f, mapOff, p, x)
    requires forall x: nat | InSegment(mapOff, p, x) :: q(x) == Some(p.prot)
    ensures SegmentLoaded(b, q, f, mapOff, p)
  {
  }

  lemma StaysLoaded(b: nat -> Byte, q: nat -> Option<set<Perm>>, b': nat -> Byte, q': nat -> Option<set<Perm>>,
                    f: File, mapOff: nat, p: Phdr, new': Phdr)
    requires SegmentLoaded(b, q, f, mapOff, p) && Apart(p, new') && IsPageAligned(mapOff)
    requires forall x: nat | !InSegment(mapOff, new', x) :: b'(x) == b(x) && q'(x) == q(x)
    ensures SegmentLoaded(b', q', f, mapOff, p)
  {
    forall x: nat | InSegment(mapOff, p, x) ensures b'(x) == SegmentByte(f, mapOff, p, x) && q'(x) == Some(p.prot) {
      ApartMeans(p, new', mapOff, x);
    }
  }

  lemma InsideReservation(mapOff: nat, mapLen: nat, p: Phdr, x: nat)
    requires IsPageAligned(mapOff) && p.vaddr + p.memsz <= mapLen && InSegment(mapOff, p, x)
    ensures mapOff <= x < PageAlign(mapOff + mapLen)
  {
    PageAlignFacts(p.vaddr + mapOff + p.memsz, mapOff + mapLen);
    AlignShifts(p.vaddr, mapOff);
  }

  // The gABI's image: file bytes up to filesz, zeros from there to memsz.
  ghost predicate ImageOk(b: nat -> Byte, q: nat -> Option<set<Perm>>, f: File, mapOff: nat, p: Phdr) {
    var va := p.vaddr + mapOff;
    && (forall x: nat | va <= x < va + p.filesz :: b(x) == FileByte(f, p.offset + (x - va)))
    && (forall x: nat | va + p.filesz <= x < va + p.memsz :: b(x) == 0)
    && (forall x: nat | va <= x < va + p.memsz :: q(x) == Some(p.prot))
  }

  lemma LoadedImage(b: nat -> Byte, q: nat -> Option<set<Perm>>, f: File, mapOff: nat, p: Phdr)
    requires SegmentLoaded(b, q, f, mapOff, p) && IsPageAligned(mapOff) && p.filesz <= p.memsz
    requires p.filesz == 0 || Congruent(p)
    ensures ImageOk(b, q, f, mapOff, p)
  {
    var va := p.vaddr + mapOff;
    forall x: nat | va <= x < va + p.memsz
      ensures InSegment(mapOff, p, x)
      ensures x < va + p.filesz ==> SegmentByte(f, mapOff, p, x) == FileByte(f, p.offset + (x - va))
    {
      Inside(mapOff, p, x);
    }
  }

  lemma Inside(mapOff: nat, p: Phdr, x: nat)
    requires IsPageAligned(mapOff) && p.vaddr + mapOff <= x < p.vaddr + mapOff + p.memsz
    ensures InSegment(mapOff, p, x)
    ensures Congruent(p) ==>
              PageAlignDown(p.offset) + (x - PageAlignDown(p.vaddr + mapOff)) == p.offset + (x - (p.vaddr + mapOff))
    ensures PageAlignDown(p.offset) + (x - PageAlignDown(p.vaddr + mapOff)) == p.offset + (x - (p.vaddr + mapOff)) ==>
              Congruent(p)
  {
    hide PageAlign;
    PageAlignFacts(p.vaddr + mapOff + p.memsz, 0);
    AlignShifts(p.vaddr, mapOff);
    assert p.vaddr == PageAlignDown(p.vaddr) + p.vaddr % PAGE_SIZE;
    assert p.offset == PageAlignDown(p.offset) + p.offset % PAGE_SIZE;
  }

  ghost predicate FilePartRight(f: File, mapOff: nat, p: Phdr) {
    var va := p.vaddr + mapOff;
    forall x: nat | va <= x < va + p.filesz ::
      InSegment(mapOff, p, x) && SegmentByte(f, mapOff, p, x) == FileByte(f, p.offset + (x - va))
  }

  // Loading gives the right image for every file exactly when the address and
  // the offset agree modulo the page size, or there is nothing to map. The
  // header check alone promises it only for alignments of a page or more.
  lemma RightIffCongruent(mapOff: nat, p: Phdr)
    requires IsPageAligned(mapOff) && p.filesz <= p.memsz
    ensures (forall f: File :: FilePartRight(f, mapOff, p)) <==> p.filesz == 0 || Congruent(p)
  {
    var va := p.vaddr + mapOff;
    if p.filesz == 0 || Congruent(p) {
      forall f: File ensures FilePartRight(f, mapOff, p) {
        forall x: nat | va <= x < va + p.filesz
          ensures InSegment(mapOff, p, x) && SegmentByte(f, mapOff, p, x) == FileByte(f, p.offset + (x - va))
        {
          Inside(mapOff, p, x);
        }
      }
    } else {
      Inside(mapOff, p, va);
      var got := PageAlignDown(p.offset) + (va - PageAlignDown(va));
      var f: File := seq(p.offset + 1, i => if i == p.offset then 1 else 0);
      assert FileByte(f, p.offset) == 1 && FileByte(f, got) == 0;
      assert SegmentByte(f, mapOff, p, va) != FileByte(f, p.offset + (va - va));
      assert !FilePartRight(f, mapOff, p);
    }
  }

  // A header the check accepts and the loader gets wrong.
  lemma AcceptedMisload()
    ensures var p := Phdr(true, {Read}, 16, 0, 1, 1, 16);
            var f: File := seq(17, i => if i == 16 then 1 else 0);
            && PhdrOk(p) && !Congruent(p) && InSegment(0, p, 0)
            && SegmentByte(f, 0, p, 0) == 0 && FileByte(f, p.offset) == 1
  {
    var p := Phdr(true, {Read}, 16, 0, 1, 1, 16);
    Pow2Small();
    assert SingleBit(16) by { assert Pow2(4) == 16; }
    MaskIsRemainder(0, 4);
    MaskIsRemainder(16, 4);
  }
}
