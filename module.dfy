/**
  CMemoryBlock and CMemoryModule: a block of memory given by its base address
  and size, which keeps the patches installed through it, and a module, a
  block whose base is the handle of a loaded image.

  The reference finder, the two patchers and the signature scanner are
  collaborators whose internals are not part of this model; they are passed
  in as functions. A patch is the address of its patch object, 0 when the
  patcher returned null. A signature is any value of the type the scanner
  takes. The callback of Sig and SigSec is modelled by the handles it is
  invoked with, in order.
 */
module MemoryModule {
  import opened Words
  import opened PeImage

  const CALL_REL32: u16 := 0xE8
  const JMP_REL32: u16 := 0xE9

  datatype CrossReference = CrossReference(xref: Addr, isAbsolute: bool)

  /** The arguments of FindReferences: the owning block's base, the scan range, the target,
      the opcode, and the absolute, relative and stop-at-first switches. */
  datatype ScanRequest = ScanRequest(
    owner: Addr, start: Addr, end: Addr, target: Addr, opcode: u16,
    matchAbsolute: bool, matchRelative: bool, stopAtFirst: bool)

  datatype Patcher = Patcher(
    findReferences: ScanRequest -> seq<CrossReference>,
    patchPointer: (Addr, Addr) -> Addr,
    patchRelative: (Addr, Addr) -> Addr)

  /** What a signature handle is made with: the range it scans and the address
      the search found there (0 for none, or for no search). */
  datatype SigHandle = SigHandle(start: Addr, end: Addr, found: Addr)

  /** GetLastByte: the base for an empty block, else the address of its last
      byte. */
  function LastByte(address: Addr, size: Addr): (r: Addr)
    ensures size == 0 ==> r == address
    ensures 0 < size && address + size <= TWO_64 ==> address <= r && r - address + 1 == size
  {
    if size == 0 then address else Wrap64(address + (size - 1))
  }

  /** A non-empty block that does not run past the top of the address space
      spans exactly size addresses from its base to its last byte, and an
      empty block's last byte is its base. */
  lemma LastByteSpan(address: Addr, size: Addr)
    ensures size == 0 ==> LastByte(address, size) == address
    ensures 0 < size && address + size <= TWO_64 ==>
      LastByte(address, size) >= address && LastByte(address, size) - address + 1 == size
    ensures 0 < size && address + size > TWO_64 ==> LastByte(address, size) < address
  {
  }

  /** The patch HookRefAddr asks for at a reference: a pointer patch for an
      absolute reference, a rel32 patch for a relative one. */
  function PatchAt(pt: Patcher, ref: CrossReference, hook: Addr): Addr
  {
    if ref.isAbsolute then pt.patchPointer(ref.xref, hook) else pt.patchRelative(ref.xref, hook)
  }

  /** The patches kept for refs, in reference order: every non-null one. */
  function Installed(pt: Patcher, refs: seq<CrossReference>, hook: Addr): (r: seq<Addr>)
    decreases |refs|
  {
    if refs == [] then []
    else
      var last := PatchAt(pt, refs[|refs| - 1], hook);
      Installed(pt, refs[..|refs| - 1], hook) + (if last != 0 then [last] else [])
  }

  /** Installed keeps exactly the non-null patches: none is null, there are no
      more of them than references, and as many only when no patch failed. */
  lemma {:induction false} InstalledSpec(pt: Patcher, refs: seq<CrossReference>, hook: Addr)
    ensures |Installed(pt, refs, hook)| <= |refs|
    ensures forall k | 0 <= k < |Installed(pt, refs, hook)| :: Installed(pt, refs, hook)[k] != 0
    ensures |Installed(pt, refs, hook)| == |refs| <==> forall j | 0 <= j < |refs| :: PatchAt(pt, refs[j], hook) != 0
    decreases |refs|
  {
    if refs != [] {
      var init := refs[..|refs| - 1];
      InstalledSpec(pt, init, hook);
      assert forall j | 0 <= j < |init| :: init[j] == refs[j];
    }
  }

  /** HookRefAddr returns the number of references found, not the number of
      patches installed: one reference whose patch fails gives 1 and keeps
      nothing. */
  lemma HookCountIncludesFailedPatches(pt: Patcher, ref: CrossReference, hook: Addr)
    requires PatchAt(pt, ref, hook) == 0
    ensures Installed(pt, [ref], hook) == [] && |[ref]| == 1
  {
    assert [ref][..0] == [];
  }

  class MemoryBlock {
    var address: Addr
    var size: Addr
    var patches: seq<Addr>

    /** CMemoryBlock(address, size): no patches yet. */
    constructor (address: Addr, size: Addr)
      ensures this.address == address && this.size == size && patches == []
    {
      this.address := address;
      this.size := size;
      patches := [];
    }

    function GetLastByte(): (r: Addr)
      reads this
      ensures size == 0 ==> r == address
      ensures 0 < size && address + size <= TWO_64 ==> address <= r && r - address + 1 == size
    {
      LastByte(address, size)
    }

    /** The FindReferences call HookRefAddr makes: the whole block, absolute
      and relative references, every one of them. */
    function HookScan(target: Addr, opcode: u16): ScanRequest
      reads this
    {
      ScanRequest(address, address, LastByte(address, size), target, opcode, true, true, false)
    }

    /** HookRefAddr(target, hook, opcode): patches every reference to target in
        the block to point at hook, appends the patches that succeeded to the
        block's list, and returns how many references there were. */
    method HookRefAddr(pt: Patcher, target: Addr, hook: Addr, opcode: u16) returns (count: nat)
      modifies this
      ensures address == old(address) && size == old(size)
      ensures count == |pt.findReferences(old(HookScan(target, opcode)))|
      ensures patches == old(patches) + Installed(pt, pt.findReferences(old(HookScan(target, opcode))), hook)
    {
      var refs := pt.findReferences(ScanRequest(address, address, GetLastByte(), target, opcode, true, true, false));
      ghost var before := patches;
      var i := 0;
      while i < |refs|
        invariant i <= |refs|
        invariant address == old(address) && size == old(size)
        invariant patches == before + Installed(pt, refs[..i], hook)
      {
        var patch: Addr;
        if refs[i].isAbsolute {
          patch := pt.patchPointer(refs[i].xref, hook);
        } else {
          patch := pt.patchRelative(refs[i].xref, hook);
        }
        if patch != 0 {
          patches := patches + [patch];
        }
        assert refs[..i + 1][..i] == refs[..i];
        i := i + 1;
      }
      assert refs[..i] == refs;
      return |refs|;
    }

    /** HookRefCall: HookRefAddr for near calls, opcode E8. */
    method HookRefCall(pt: Patcher, target: Addr, hook: Addr) returns (count: nat)
      modifies this
      ensures address == old(address) && size == old(size)
      ensures count == |pt.findReferences(old(HookScan(target, CALL_REL32)))|
      ensures patches == old(patches) + Installed(pt, pt.findReferences(old(HookScan(target, CALL_REL32))), hook)
    {
      count := HookRefAddr(pt, target, hook, CALL_REL32);
    }

    /** HookRefJump: HookRefAddr for near jumps, opcode E9. */
    method HookRefJump(pt: Patcher, target: Addr, hook: Addr) returns (count: nat)
      modifies this
      ensures address == old(address) && size == old(size)
      ensures count == |pt.findReferences(old(HookScan(target, JMP_REL32)))|
      ensures patches == old(patches) + Installed(pt, pt.findReferences(old(HookScan(target, JMP_REL32))), hook)
    {
      count := HookRefAddr(pt, target, hook, JMP_REL32);
    }

    /** Sig(signature, cb): one search over the block and one callback call,
        whether or not the signature was found. */
    method Sig<S>(scan: (Addr, Addr, S) -> Addr, signature: S) returns (calls: seq<SigHandle>)
      ensures |calls| == 1
      ensures calls[0].start == address && calls[0].end == LastByte(address, size)
      ensures calls[0].found == scan(address, LastByte(address, size), signature)
    {
      var last := GetLastByte();
      var found := scan(address, last, signature);
      calls := [SigHandle(address, last, found)];
    }

    /** Sig(text, cb): the text parsed into a signature first. */
    method SigText<S>(parse: seq<int> -> S, scan: (Addr, Addr, S) -> Addr, text: seq<int>) returns (calls: seq<SigHandle>)
      ensures |calls| == 1
      ensures calls[0].found == scan(address, LastByte(address, size), parse(text))
    {
      calls := Sig(scan, parse(text));
    }

    /** Sig(cb): a handle on the block without a search. */
    method SigBare() returns (calls: seq<SigHandle>)
      ensures |calls| == 1 && calls[0] == SigHandle(address, LastByte(address, size), 0)
    {
      calls := [SigHandle(address, GetLastByte(), 0)];
    }
  }

  /** CMemoryBlock::CreateFromAddress(address, size): no checks. */
  method CreateBlockFromAddress(address: Addr, size: Addr) returns (b: MemoryBlock)
    ensures fresh(b) && b.address == address && b.size == size && b.patches == []
  {
    b := new MemoryBlock(address, size);
  }

  // ---- sections of a module ------------------------------------------------------

  /** The section kinds of eSection; Other stands for a value outside the
      enumeration. */
  datatype SectionKind =
    | Export | Import | Resource | Exception | Security | BaseReloc | Debug
    | Architecture | GlobalPtr | TLS | LoadConfig | BoundImport | IAT
    | DelayImport | CLR | Reserved | Other(code: int)

  /** The data-directory index GetSectionInfo looks each kind up by: the
      IMAGE_DIRECTORY_ENTRY_* constant, 15 for Reserved, none for Other. */
  function DirectoryIndex(kind: SectionKind): (r: Option<nat>)
  {
    match kind
    case Export => Some(0)
    case Import => Some(1)
    case Resource => Some(2)
    case Exception => Some(3)
    case Security => Some(4)
    case BaseReloc => Some(5)
    case Debug => Some(6)
    case Architecture => Some(7)
    case GlobalPtr => Some(8)
    case TLS => Some(9)
    case LoadConfig => Some(10)
    case BoundImport => Some(11)
    case IAT => Some(12)
    case DelayImport => Some(13)
    case CLR => Some(14)
    case Reserved => Some(15)
    case Other(_) => None
  }

  /** The kind that names a directory index. */
  function KindOf(d: nat): (k: SectionKind)
    requires d < IMAGE_NUMBEROF_DIRECTORY_ENTRIES
  {
    [Export, Import, Resource, Exception, Security, BaseReloc, Debug, Architecture,
     GlobalPtr, TLS, LoadConfig, BoundImport, IAT, DelayImport, CLR, Reserved][d]
  }

  /** The named kinds and the sixteen directories correspond one to one. */
  lemma DirectoryIndexBijective(kind: SectionKind, d: nat)
    requires d < IMAGE_NUMBEROF_DIRECTORY_ENTRIES
    ensures DirectoryIndex(KindOf(d)) == Some(d)
    ensures DirectoryIndex(kind).Some? ==> DirectoryIndex(kind).value < IMAGE_NUMBEROF_DIRECTORY_ENTRIES
    ensures DirectoryIndex(kind).Some? ==> KindOf(DirectoryIndex(kind).value) == kind
    ensures DirectoryIndex(kind).None? <==> kind.Other?
  {
  }

  /** The pair GetSectionInfo returns for a module with handle h: the empty
      pair for an unknown kind or a directory with no section, else the
      section's address, its virtual address taken from h itself, and its
      VirtualSize. */
  function SectionInfo(p: Process, h: Addr, kind: SectionKind): (Addr, nat)
    requires Names(p, h)
  {
    match DirectoryIndex(kind)
    case None => (0, 0)
    case Some(d) =>
      match SectionByIndex(p, h, d)
      case None => (0, 0)
      case Some(i) =>
        var s := p.images[Resolve(p, h)].sections[i];
        (Wrap64(h + s.virtualAddress), s.virtualSize)
  }

  lemma SectionInfoSpec(p: Process, h: Addr, kind: SectionKind)
    requires Names(p, h)
    ensures kind.Other? || Resolve(p, h) == 0 ==> SectionInfo(p, h, kind) == (0, 0)
    ensures DirectoryIndex(kind).Some? && Resolve(p, h) != 0 ==>
      var img := p.images[Resolve(p, h)];
      var va := img.directories[DirectoryIndex(kind).value].virtualAddress;
      (SectionInfo(p, h, kind).1 != 0 ==> exists i | 0 <= i < |img.sections| ::
          img.sections[i].virtualAddress == va && SectionInfo(p, h, kind) == (Wrap64(h + va), img.sections[i].virtualSize))
      && ((forall j | 0 <= j < |img.sections| :: img.sections[j].virtualAddress != va) ==> SectionInfo(p, h, kind) == (0, 0))
  {
    if DirectoryIndex(kind).Some? && Resolve(p, h) != 0 {
      SectionByIndexSpec(p, h, DirectoryIndex(kind).value);
    }
  }

  /** A module that is not loaded has the null handle, which the section
      lookups resolve to the main executable: its GetSectionInfo describes a
      section of the main executable, at that section's relative address. */
  lemma UnloadedModuleSeesMainExecutable(p: Process, kind: SectionKind)
    requires p.main != 0 && p.main in p.images
    ensures DirectoryIndex(kind).Some? ==>
      SectionByIndex(p, 0, DirectoryIndex(kind).value) == SectionByIndex(p, p.main, DirectoryIndex(kind).value)
    ensures SectionInfo(p, 0, kind).1 == SectionInfo(p, p.main, kind).1
    ensures SectionInfo(p, 0, kind).0 < TWO_32
  {
  }

  /** The range SigSec scans for a section of the given address and size: from
      its address to the address size - 1 beyond it, both wrapping. */
  function SigSecRange(ptr: Addr, size: nat): (Addr, Addr)
  {
    (ptr, Wrap64(ptr + size - 1))
  }

  /** For an empty section the range ends one byte before it starts. */
  lemma EmptySectionRangeInverted(ptr: Addr)
    requires ptr != 0
    ensures SigSecRange(ptr, 0).1 == ptr - 1
  {
  }

  class Module {
    /** The CMemoryBlock part of the module: its handle and size. */
    const block: MemoryBlock

    /** CMemoryModule(): not loaded. */
    constructor Unloaded()
      ensures fresh(block) && block.address == 0 && block.size == 0 && block.patches == []
      ensures !IsLoaded()
    {
      block := new MemoryBlock(0, 0);
    }

    /** CMemoryModule(libname, size): the module loaded under libname; not
        loaded for an empty name or a name no module has. */
    constructor ByName(p: Process, libname: seq<int>, size: Addr)
      ensures fresh(block) && block.patches == []
      ensures |libname| == 0 || Lookup(p, libname) == 0 ==> block.address == 0 && block.size == 0
      ensures |libname| > 0 && Lookup(p, libname) != 0 ==> block.address == Lookup(p, libname) && block.size == size
      ensures IsLoaded() <==> |libname| > 0 && Lookup(p, libname) != 0
    {
      if |libname| == 0 || Lookup(p, libname) == 0 {
        block := new MemoryBlock(0, 0);
      } else {
        block := new MemoryBlock(Lookup(p, libname), size);
      }
    }

    /** CMemoryModule(handle, size). */
    constructor ByHandle(handle: Addr, size: Addr)
      ensures fresh(block) && block.address == handle && block.size == size && block.patches == []
      ensures IsLoaded() <==> handle != 0
    {
      block := new MemoryBlock(handle, size);
    }

    predicate IsLoaded()
      reads block
    {
      block.address != 0
    }

    /** GetSectionInfo(section). */
    method GetSectionInfo(p: Process, kind: SectionKind) returns (r: (Addr, nat))
      requires Names(p, block.address)
      ensures r == SectionInfo(p, block.address, kind)
    {
      var h := block.address;
      var d := DirectoryIndex(kind);
      if d.None? {
        return (0, 0);
      }
      var found := GetSectionByIndex(p, h, d.value);
      if found.None? {
        return (0, 0);
      }
      var s := p.images[Resolve(p, h)].sections[found.value];
      return (Wrap64(h + s.virtualAddress), s.virtualSize);
    }

    /** GetSection(section): a block over the section, none where
        GetSectionInfo gives a null address. */
    method GetSection(p: Process, kind: SectionKind) returns (b: MemoryBlock?)
      requires Names(p, block.address)
      ensures SectionInfo(p, block.address, kind).0 == 0 ==> b == null
      ensures SectionInfo(p, block.address, kind).0 != 0 ==>
        b != null && fresh(b) && (b.address, b.size as nat) == SectionInfo(p, block.address, kind) && b.patches == []
    {
      var info := GetSectionInfo(p, kind);
      if info.0 == 0 {
        return null;
      }
      assert info.1 < TWO_32;
      b := new MemoryBlock(info.0, info.1);
    }

    /** GetEntrySection(): a block over the section holding the entry point. */
    method GetEntrySection(p: Process) returns (b: MemoryBlock?)
      requires Names(p, block.address)
      ensures EntrySection(p, block.address).None? ==> b == null
      ensures EntrySection(p, block.address).Some? ==>
        var s := p.images[Resolve(p, block.address)].sections[EntrySection(p, block.address).value];
        b != null && fresh(b) && b.address == Wrap64(block.address + s.virtualAddress) && b.size == s.virtualSize
    {
      var found := PeImage.GetEntrySection(p, block.address);
      if found.None? {
        return null;
      }
      var s := p.images[Resolve(p, block.address)].sections[found.value];
      b := new MemoryBlock(Wrap64(block.address + s.virtualAddress), s.virtualSize);
    }

    /** SigSec(directory, signature, cb): false, with no callback call, when
        the section is absent; else one search over the section and one call. */
    method SigSec<S>(p: Process, kind: SectionKind, scan: (Addr, Addr, S) -> Addr, signature: S)
      returns (ok: bool, calls: seq<SigHandle>)
      requires Names(p, block.address)
      ensures ok <==> SectionInfo(p, block.address, kind).0 != 0
      ensures !ok ==> calls == []
      ensures ok ==>
        var (ptr, size) := SectionInfo(p, block.address, kind);
        var (lo, hi) := SigSecRange(ptr, size);
        calls == [SigHandle(lo, hi, scan(lo, hi, signature))]
    {
      var info := GetSectionInfo(p, kind);
      if info.0 == 0 {
        return false, [];
      }
      var (lo, hi) := SigSecRange(info.0, info.1);
      calls := [SigHandle(lo, hi, scan(lo, hi, signature))];
      ok := true;
    }

    /** SigSec(directory, cb): as SigSec, without a search. */
    method SigSecBare(p: Process, kind: SectionKind) returns (ok: bool, calls: seq<SigHandle>)
      requires Names(p, block.address)
      ensures ok <==> SectionInfo(p, block.address, kind).0 != 0
      ensures !ok ==> calls == []
      ensures ok ==>
        var (ptr, size) := SectionInfo(p, block.address, kind);
        var (lo, hi) := SigSecRange(ptr, size);
        calls == [SigHandle(lo, hi, 0)]
    {
      var info := GetSectionInfo(p, kind);
      if info.0 == 0 {
        return false, [];
      }
      var (lo, hi) := SigSecRange(info.0, info.1);
      calls := [SigHandle(lo, hi, 0)];
      ok := true;
    }
  }

  // ---- creating modules -----------------------------------------------------------

  /** The handle and size a created module ends up with; none for a null
      result. */
  datatype Fields = Fields(address: Addr, size: Addr)

  /** The handle CreateFromLibrary looks up: the main executable's for an
      empty name. */
  function LibraryHandle(p: Process, libname: seq<int>): Addr
  {
    if |libname| == 0 then p.main else Lookup(p, libname)
  }

  /** The size a module is created with: SizeOfImage when none is given. */
  function SizeOrImage(p: Process, h: Addr, size: Addr): Addr
    requires h != 0 && h in p.images
  {
    if size == 0 then GetModuleSize(p, h) else size
  }

  /** CreateFromLibrary(libname, size) as written: after resolving the handle
      it builds the module with the name constructor, which leaves the module
      unloaded for an empty name. */
  function LibraryModuleAsWritten(p: Process, libname: seq<int>, size: Addr): (r: Option<Fields>)
    requires LibraryHandle(p, libname) != 0 ==> LibraryHandle(p, libname) in p.images
  {
    var h := LibraryHandle(p, libname);
    if h == 0 then None
    else
      var sz := SizeOrImage(p, h, size);
      if |libname| == 0 || Lookup(p, libname) == 0 then Some(Fields(0, 0))
      else Some(Fields(Lookup(p, libname), sz))
  }

  /** With the main executable loaded, CreateFromLibrary("") returns a module
      that is not loaded, although it resolved the main executable's handle. */
  lemma EmptyLibraryNameGivesUnloadedModule(p: Process, size: Addr)
    requires p.main != 0 && p.main in p.images
    ensures LibraryModuleAsWritten(p, [], size) == Some(Fields(0, 0))
    ensures LibraryModule(p, [], size) == Some(Fields(p.main, SizeOrImage(p, p.main, size)))
  {
  }

  /** CreateFromLibrary as intended: the module of the handle it resolved. */
  function LibraryModule(p: Process, libname: seq<int>, size: Addr): (r: Option<Fields>)
    requires LibraryHandle(p, libname) != 0 ==> LibraryHandle(p, libname) in p.images
  {
    var h := LibraryHandle(p, libname);
    if h == 0 then None else Some(Fields(h, SizeOrImage(p, h, size)))
  }

  /** The intended result is a loaded module exactly when the handle resolves,
      with that handle; it differs from the written one only for the empty
      name. */
  lemma LibraryModuleSpec(p: Process, libname: seq<int>, size: Addr)
    requires LibraryHandle(p, libname) != 0 ==> LibraryHandle(p, libname) in p.images
    ensures LibraryModule(p, libname, size).Some? <==> LibraryHandle(p, libname) != 0
    ensures LibraryModule(p, libname, size).Some? ==>
      LibraryModule(p, libname, size).value.address == LibraryHandle(p, libname) != 0
    ensures size != 0 && LibraryModule(p, libname, size).Some? ==> LibraryModule(p, libname, size).value.size == size
    ensures |libname| > 0 ==> LibraryModule(p, libname, size) == LibraryModuleAsWritten(p, libname, size)
  {
  }

  /** CreateFromLibrary(libname, size), with the module built from the
      resolved handle. */
  method CreateFromLibrary(p: Process, libname: seq<int>, size: Addr) returns (m: Module?)
    requires LibraryHandle(p, libname) != 0 ==> LibraryHandle(p, libname) in p.images
    ensures LibraryModule(p, libname, size).None? ==> m == null
    ensures LibraryModule(p, libname, size).Some? ==>
      m != null && fresh(m) && fresh(m.block) && m.block.patches == []
      && Fields(m.block.address, m.block.size) == LibraryModule(p, libname, size).value
  {
    var handle := if |libname| == 0 then p.main else Lookup(p, libname);
    if handle == 0 {
      return null;
    }
    var sz := size;
    if sz == 0 {
      sz := GetModuleSize(p, handle);
    }
    m := new Module.ByHandle(handle, sz);
  }

  /** CreateFromHandle(handle, size): the main executable for a null handle;
      null when that is not loaded either. */
  method CreateFromHandle(p: Process, handle: Addr, size: Addr) returns (m: Module?)
    requires Resolve(p, handle) != 0 ==> Resolve(p, handle) in p.images
    ensures Resolve(p, handle) == 0 ==> m == null
    ensures Resolve(p, handle) != 0 ==>
      m != null && fresh(m) && fresh(m.block) && m.IsLoaded()
      && m.block.address == Resolve(p, handle) && m.block.size == SizeOrImage(p, Resolve(p, handle), size)
  {
    var h := handle;
    if h == 0 {
      h := p.main;
    }
    if h == 0 {
      return null;
    }
    var sz := size;
    if sz == 0 {
      sz := GetModuleSize(p, h);
    }
    m := new Module.ByHandle(h, sz);
  }

  /** CreateFromAddress(address, size): no checks. */
  method CreateFromAddress(address: Addr, size: Addr) returns (m: Module)
    ensures fresh(m) && m.block.address == address && m.block.size == size
  {
    m := new Module.ByHandle(address, size);
  }

  /** CreateFromAddress(nullptr): the main executable, at its SizeOfImage. */
  method CreateFromMain(p: Process) returns (m: Module?)
    requires p.main != 0 ==> p.main in p.images
    ensures p.main == 0 ==> m == null
    ensures p.main != 0 ==> m != null && m.block.address == p.main && m.block.size == p.images[p.main].sizeOfImage
  {
    m := CreateFromHandle(p, 0, 0);
  }
}
