/**
  Lookups in the headers of a loaded PE image, as the Microsoft PE/COFF
  Specification lays them out: the MS-DOS header with its 'MZ' magic, the
  'PE\0\0' signature, the optional header with its sixteen data directories,
  and the section table ("Section Table (Section Headers)").

  A process is the set of images it has loaded, keyed by module handle (the
  address the image is loaded at), with the handle of the main executable and
  the loader's name lookup. A null handle means the main executable, as
  GetModuleHandleA(0) resolves it; a section pointer is modelled as the index
  of the header in the section table.
 */
module PeImage {
  import opened Words
  import opened Strings
  import opened MemoryBlocks
  import opened AddressMath

  const IMAGE_DOS_SIGNATURE: u16 := 0x5A4D
  const IMAGE_NT_SIGNATURE: u32 := 0x0000_4550
  const IMAGE_NUMBEROF_DIRECTORY_ENTRIES: nat := 16
  const IMAGE_SIZEOF_SHORT_NAME: nat := 8
  const IMAGE_SIZEOF_SECTION_HEADER: nat := 40

  type ShortName = s: seq<byte> | |s| == IMAGE_SIZEOF_SHORT_NAME
    witness [0, 0, 0, 0, 0, 0, 0, 0]

  datatype DataDirectory = DataDirectory(virtualAddress: u32, size: u32)

  type DirectoryTable = t: seq<DataDirectory> | |t| == IMAGE_NUMBEROF_DIRECTORY_ENTRIES
    witness seq(16, _ => DataDirectory(0, 0))

  /** NumberOfSections is a 16-bit count. */
  type SectionTable = t: seq<SectionHeader> | |t| < TWO_16

  datatype SectionHeader = SectionHeader(
    name: ShortName,
    virtualSize: u32,
    virtualAddress: u32,
    sizeOfRawData: u32,
    pointerToRawData: u32,
    pointerToRelocations: u32,
    pointerToLinenumbers: u32,
    numberOfRelocations: u16,
    numberOfLinenumbers: u16,
    characteristics: u32)

  /** The header fields the lookups read, and the bytes that follow the
      section table in the mapped headers. */
  datatype Image = Image(
    magic: u16,
    signature: u32,
    imageBase: Addr,
    majorOperatingSystemVersion: u16,
    minorOperatingSystemVersion: u16,
    addressOfEntryPoint: u32,
    sizeOfImage: u32,
    directories: DirectoryTable,
    sections: SectionTable,
    trailing: seq<byte>)

  datatype Process = Process(main: Addr, images: map<Addr, Image>, loaded: map<seq<int>, Addr>)

  /** The handle a lookup works on: the main executable's for a null handle. */
  function Resolve(p: Process, handle: Addr): Addr
  {
    if handle == 0 then p.main else handle
  }

  /** What the lookups demand of their caller: a handle that resolves to
      something names a loaded image, whose headers they read. */
  predicate Names(p: Process, handle: Addr)
  {
    Resolve(p, handle) != 0 ==> Resolve(p, handle) in p.images
  }

  /** GetModuleHandleA(name) for a name, or of the main executable for a null
      or empty one: 0 when no module of that name is loaded. */
  function HandleByName(p: Process, name: Option<seq<int>>): Addr
    requires name.Some? ==> 0 in name.value
  {
    if name.None? || CLen(name.value) == 0 then p.main
    else Lookup(p, CStr(name.value))
  }

  /** GetModuleHandleA(name): the handle of the module loaded under name, or 0. */
  function Lookup(p: Process, name: seq<int>): Addr
  {
    if name in p.loaded then p.loaded[name] else 0
  }

  // ---- first match in the section table --------------------------------------

  /** i is the first of the n positions that satisfies matches. */
  predicate IsFirst(n: nat, matches: nat -> bool, i: nat)
  {
    i < n && matches(i) && forall j | 0 <= j < i :: !matches(j)
  }

  predicate NoneMatches(n: nat, matches: nat -> bool)
  {
    forall j | 0 <= j < n :: !matches(j)
  }

  /** The first position below n that satisfies matches, searching from i. */
  function First(n: nat, matches: nat -> bool, i: nat): (r: Option<nat>)
    requires i <= n
    ensures r.Some? ==> i <= r.value < n
    decreases n - i
  {
    if i == n then None
    else if matches(i) then Some(i)
    else First(n, matches, i + 1)
  }

  /** First finds the first match, and finds none only when there is none. */
  lemma {:induction false} FirstSpec(n: nat, matches: nat -> bool, i: nat)
    requires i <= n && forall j | 0 <= j < i :: !matches(j)
    ensures First(n, matches, i).Some? ==> IsFirst(n, matches, First(n, matches, i).value)
    ensures First(n, matches, i).None? <==> NoneMatches(n, matches)
    decreases n - i
  {
    if i < n && !matches(i) {
      FirstSpec(n, matches, i + 1);
    }
  }

  /** The loop the section searches share: sections in table order, stopping at
      the first that matches. */
  method FindFirst(n: nat, matches: nat -> bool) returns (r: Option<nat>)
    ensures r == First(n, matches, 0)
  {
    var i := 0;
    while i < n
      invariant i <= n
      invariant First(n, matches, 0) == First(n, matches, i)
    {
      if matches(i) {
        return Some(i);
      }
      i := i + 1;
    }
    return None;
  }

  // ---- EnumSections ------------------------------------------------------------

  /** How many calls EnumSections makes: up to and including the first section
      the callback refuses, or all of them. */
  predicate Refuses(sections: seq<SectionHeader>, cb: SectionHeader -> bool, j: nat)
  {
    j < |sections| && !cb(sections[j])
  }

  function EnumCount(sections: seq<SectionHeader>, cb: SectionHeader -> bool): (k: nat)
    ensures k <= |sections|
  {
    match First(|sections|, (j: nat) => Refuses(sections, cb, j), 0)
    case Some(i) => i + 1
    case None => |sections|
  }

  /** The callback sees sections in table order, at most one per section; every
      call but the last returned true, and a run that stops early stops right
      after a false. */
  lemma EnumCountSpec(sections: seq<SectionHeader>, cb: SectionHeader -> bool)
    ensures EnumCount(sections, cb) <= |sections|
    ensures forall j | 0 <= j < EnumCount(sections, cb) - 1 :: cb(sections[j])
    ensures EnumCount(sections, cb) < |sections| ==> !cb(sections[EnumCount(sections, cb) - 1])
    ensures EnumCount(sections, cb) == |sections| && |sections| > 0 && !cb(sections[|sections| - 1]) ==>
      forall j | 0 <= j < |sections| - 1 :: cb(sections[j])
  {
    var stop := (j: nat) => Refuses(sections, cb, j);
    FirstSpec(|sections|, stop, 0);
    var k: int := EnumCount(sections, cb);
    forall j: int | 0 <= j < k - 1
      ensures cb(sections[j])
    {
      assert !stop(j);
    }
  }

  /** EnumSections(handle, cb, param): the sections handed to the callback, in
      call order. The callback is a pure function of the section; param is
      folded into it. */
  method EnumSections(p: Process, handle: Addr, cb: Option<SectionHeader -> bool>) returns (calls: seq<SectionHeader>)
    requires Names(p, handle)
    ensures cb.None? || Resolve(p, handle) == 0 ==> calls == []
    ensures cb.Some? && Resolve(p, handle) != 0 ==>
      var sections := p.images[Resolve(p, handle)].sections;
      calls == sections[..EnumCount(sections, cb.value)]
  {
    calls := [];
    if cb.None? {
      return;
    }
    var h := Resolve(p, handle);
    if h == 0 {
      return;
    }
    var sections := p.images[h].sections;
    var f := cb.value;
    var i := 0;
    while i < |sections|
      invariant i <= |sections|
      invariant calls == sections[..i]
      invariant First(|sections|, (j: nat) => Refuses(sections, f, j), 0)
             == First(|sections|, (j: nat) => Refuses(sections, f, j), i)
    {
      calls := calls + [sections[i]];
      if !f(sections[i]) {
        break;
      }
      i := i + 1;
    }
  }

  // ---- GetSectionByIndex ---------------------------------------------------------

  /** The section GetSectionByIndex returns: none for a null handle or a
      directory index past the sixteen, else the first section whose virtual
      address is the directory's. */
  predicate AtDirectory(img: Image, directory: nat, j: nat)
  {
    && j < |img.sections| && directory < IMAGE_NUMBEROF_DIRECTORY_ENTRIES
    && img.sections[j].virtualAddress == img.directories[directory].virtualAddress
  }

  function SectionByIndex(p: Process, handle: Addr, directory: u32): Option<nat>
    requires Names(p, handle)
  {
    var h := Resolve(p, handle);
    if h == 0 || directory >= IMAGE_NUMBEROF_DIRECTORY_ENTRIES then None
    else
      var img := p.images[h];
      First(|img.sections|, (j: nat) => AtDirectory(img, directory, j), 0)
  }

  lemma SectionByIndexSpec(p: Process, handle: Addr, directory: u32)
    requires Names(p, handle) && Resolve(p, handle) != 0
    ensures directory >= IMAGE_NUMBEROF_DIRECTORY_ENTRIES ==> SectionByIndex(p, handle, directory).None?
    ensures directory < IMAGE_NUMBEROF_DIRECTORY_ENTRIES ==>
      var img := p.images[Resolve(p, handle)];
      var va := img.directories[directory].virtualAddress;
      match SectionByIndex(p, handle, directory)
      case Some(i) =>
        && i < |img.sections| && img.sections[i].virtualAddress == va
        && forall j | 0 <= j < i :: img.sections[j].virtualAddress != va
      case None => forall j | 0 <= j < |img.sections| :: img.sections[j].virtualAddress != va
  {
    if directory < IMAGE_NUMBEROF_DIRECTORY_ENTRIES {
      var img := p.images[Resolve(p, handle)];
      var test := (j: nat) => AtDirectory(img, directory, j);
      FirstSpec(|img.sections|, test, 0);
      var bound := match First(|img.sections|, test, 0) case Some(i) => i case None => |img.sections|;
      forall j | 0 <= j < bound
        ensures img.sections[j].virtualAddress != img.directories[directory].virtualAddress
      {
        assert !test(j);
      }
    }
  }

  /** GetSectionByIndex(handle, image_directory). */
  method GetSectionByIndex(p: Process, handle: Addr, directory: u32) returns (r: Option<nat>)
    requires Names(p, handle)
    ensures r == SectionByIndex(p, handle, directory)
  {
    var h := Resolve(p, handle);
    if h == 0 {
      return None;
    }
    if directory >= IMAGE_NUMBEROF_DIRECTORY_ENTRIES {
      return None;
    }
    var img := p.images[h];
    r := FindFirst(|img.sections|, (j: nat) => AtDirectory(img, directory, j));
  }

  // ---- GetSectionByFlags -------------------------------------------------------

  /** A section's characteristics against the flags searched for: equal in
      the exact mode, sharing a bit otherwise. */
  predicate FlagsMatch(characteristics: u32, flags: u32, exactly: bool)
  {
    if exactly then characteristics == flags
    else BitAnd(characteristics, flags) != 0
  }

  lemma {:induction false} BitAndSelf(x: nat)
    ensures BitAnd(x, x) == x
    decreases x
  {
    if x != 0 {
      BitAndSelf(x / 2);
    }
  }

  /** The loose match accepts every exact match of non-zero flags; the exact
      match of zero flags accepts a section the loose one never does. */
  lemma FlagsMatchModes(characteristics: u32, flags: u32)
    ensures flags != 0 && FlagsMatch(characteristics, flags, true) ==> FlagsMatch(characteristics, flags, false)
    ensures !FlagsMatch(characteristics, 0, false)
  {
    BitAndSelf(flags);
  }

  predicate FlagsAt(img: Image, flags: u32, exactly: bool, j: nat)
  {
    j < |img.sections| && FlagsMatch(img.sections[j].characteristics, flags, exactly)
  }

  function SectionByFlags(p: Process, handle: Addr, flags: u32, exactly: bool): Option<nat>
    requires Names(p, handle)
  {
    var h := Resolve(p, handle);
    if h == 0 then None
    else
      var img := p.images[h];
      First(|img.sections|, (j: nat) => FlagsAt(img, flags, exactly, j), 0)
  }

  lemma SectionByFlagsSpec(p: Process, handle: Addr, flags: u32, exactly: bool)
    requires Names(p, handle) && Resolve(p, handle) != 0
    ensures var img := p.images[Resolve(p, handle)];
      match SectionByFlags(p, handle, flags, exactly)
      case Some(i) =>
        && i < |img.sections| && FlagsMatch(img.sections[i].characteristics, flags, exactly)
        && forall j | 0 <= j < i :: !FlagsMatch(img.sections[j].characteristics, flags, exactly)
      case None => forall j | 0 <= j < |img.sections| :: !FlagsMatch(img.sections[j].characteristics, flags, exactly)
  {
    var img := p.images[Resolve(p, handle)];
    var test := (j: nat) => FlagsAt(img, flags, exactly, j);
    FirstSpec(|img.sections|, test, 0);
    var bound := match First(|img.sections|, test, 0) case Some(i) => i case None => |img.sections|;
    forall j | 0 <= j < bound
      ensures !FlagsMatch(img.sections[j].characteristics, flags, exactly)
    {
      assert !test(j);
    }
  }

  /** GetSectionByFlags(handle, flags, match_exactly); the exact mode is the
      default of the declaration. */
  method GetSectionByFlags(p: Process, handle: Addr, flags: u32, exactly: bool := true) returns (r: Option<nat>)
    requires Names(p, handle)
    ensures r == SectionByFlags(p, handle, flags, exactly)
  {
    var h := Resolve(p, handle);
    if h == 0 {
      return None;
    }
    var img := p.images[h];
    r := FindFirst(|img.sections|, (j: nat) => FlagsAt(img, flags, exactly, j));
  }

  // ---- GetSectionByName --------------------------------------------------------

  /** The 40 bytes of a section header as the section table stores them. */
  function HeaderBytes(s: SectionHeader): (bs: seq<byte>)
    ensures |bs| == IMAGE_SIZEOF_SECTION_HEADER && bs[..IMAGE_SIZEOF_SHORT_NAME] == s.name
    ensures bs[IMAGE_SIZEOF_SHORT_NAME] == s.virtualSize % 256
  {
    assert Pow256(2) == TWO_16 && Pow256(4) == TWO_32;
    var bs := s.name
      + EncodeLE(s.virtualSize, 4) + EncodeLE(s.virtualAddress, 4)
      + EncodeLE(s.sizeOfRawData, 4) + EncodeLE(s.pointerToRawData, 4)
      + EncodeLE(s.pointerToRelocations, 4) + EncodeLE(s.pointerToLinenumbers, 4)
      + EncodeLE(s.numberOfRelocations, 2) + EncodeLE(s.numberOfLinenumbers, 2)
      + EncodeLE(s.characteristics, 4);
    assert bs[..8] == s.name;
    assert bs[8] == EncodeLE(s.virtualSize, 4)[0];
    bs
  }

  function TableBytes(sections: seq<SectionHeader>): (bs: seq<byte>)
    ensures |bs| == IMAGE_SIZEOF_SECTION_HEADER * |sections|
  {
    if sections == [] then [] else HeaderBytes(sections[0]) + TableBytes(sections[1..])
  }

  /** The bytes from the i-th section header to the end of the mapped headers:
      what a comparison starting at that header's Name reads. */
  function BytesFrom(img: Image, i: nat): (bs: seq<byte>)
    requires i < |img.sections|
    ensures |bs| >= IMAGE_SIZEOF_SECTION_HEADER + |img.trailing|
    ensures bs[..IMAGE_SIZEOF_SECTION_HEADER] == HeaderBytes(img.sections[i])
  {
    var t := img.sections[i..];
    assert t[0] == img.sections[i];
    var bs := TableBytes(t) + img.trailing;
    assert bs[..40] == HeaderBytes(img.sections[i]);
    bs
  }

  /** The match CompareMemory(section->Name, name, strlen(name)) == 0 makes:
      the strlen(name) bytes read from the header's Name on are those of name. */
  predicate NameMatch(img: Image, name: seq<int>, i: nat)
  {
    && i < |img.sections| && 0 in name
    && CLen(name) <= |BytesFrom(img, i)| && CLen(name) <= |name|
    && (forall k | 0 <= k < |name| :: 0 <= name[k] < 0x100)
    && BlockDiff(BytesFrom(img, i), name, CLen(name)) == 0
  }

  /** A name string as GetSectionByName reads it: NUL-terminated, of chars,
      and no longer than the headers that follow any section header. */
  predicate SearchableName(img: Image, name: seq<int>)
  {
    && 0 in name
    && (forall k | 0 <= k < |name| :: 0 <= name[k] < 0x100)
    && CLen(name) <= IMAGE_SIZEOF_SECTION_HEADER + |img.trailing|
  }

  function SectionByName(p: Process, handle: Addr, name: Option<seq<int>>): Option<nat>
    requires Names(p, handle)
  {
    var h := Resolve(p, handle);
    if h == 0 || name.None? || !(0 in name.value) || CLen(name.value) == 0 then None
    else
      var img := p.images[h];
      First(|img.sections|, (j: nat) => NameMatch(img, name.value, j), 0)
  }

  /** The match is a prefix test on the bytes from the header's Name on. */
  lemma NameMatchPrefix(img: Image, name: seq<int>, i: nat)
    requires SearchableName(img, name) && i < |img.sections|
    ensures NameMatch(img, name, i) <==> BytesFrom(img, i)[..CLen(name)] == name[..CLen(name)]
  {
    var n := CLen(name);
    var bs := BytesFrom(img, i);
    var b: seq<byte> := name[..n];
    BlockDiffProperties(bs, b, n);
    BlockDiffPrefix(bs, b, name, n);
    assert b[..n] == name[..n];
  }

  /** For a name of at most eight characters the match is a prefix test on
      the Name field: ".text" finds a section called ".textbss" if that comes
      first in the table. */
  lemma ShortNameMatch(img: Image, name: seq<int>, i: nat)
    requires SearchableName(img, name) && CLen(name) <= IMAGE_SIZEOF_SHORT_NAME && i < |img.sections|
    ensures NameMatch(img, name, i) <==> img.sections[i].name[..CLen(name)] == name[..CLen(name)]
  {
    var n := CLen(name);
    NameMatchPrefix(img, name, i);
    assert BytesFrom(img, i)[..n] == HeaderBytes(img.sections[i])[..n] == img.sections[i].name[..n];
  }

  /** A name one character longer than the Name field is compared on into the
      header's VirtualSize: it matches a section whose eight-character name is
      its head exactly when the low byte of VirtualSize is its last character. */
  lemma LongNameReadsVirtualSize(img: Image, i: nat, c: byte)
    requires i < |img.sections| && c != 0 && 0 !in img.sections[i].name
    ensures var name := img.sections[i].name + [c, 0];
      NameMatch(img, name, i) <==> img.sections[i].virtualSize % 256 == c
  {
    var s := img.sections[i];
    var name: seq<int> := s.name + [c, 0];
    assert name[9] == 0 && forall k | 0 <= k < 9 :: name[k] != 0;
    assert CLen(name) == 9;
    NameMatchPrefix(img, name, i);
    var bs := BytesFrom(img, i);
    assert bs[..40] == HeaderBytes(s);
    assert bs[8] == HeaderBytes(s)[8];
    assert bs[..9] == bs[..8] + [bs[8]] && bs[..8] == s.name;
    assert name[..9] == s.name + [c];
  }

  /** The comparison only looks at the first n bytes of its second block. */
  lemma BlockDiffPrefix(a: seq<byte>, b: seq<byte>, c: seq<int>, n: nat)
    requires n <= |a| && n == |b| && n <= |c| && b == c[..n]
    ensures BlockDiff(a, b, n) == (if FirstDiff(a, b, n, 0) == n then 0 else a[FirstDiff(a, b, n, 0)] as int - c[FirstDiff(a, b, n, 0)])
  {
  }

  lemma SectionByNameSpec(p: Process, handle: Addr, name: seq<int>)
    requires Names(p, handle) && Resolve(p, handle) != 0
    ensures !(0 in name) || CLen(name) == 0 ==> SectionByName(p, handle, Some(name)).None?
    ensures 0 in name && CLen(name) > 0 ==>
      var img := p.images[Resolve(p, handle)];
      match SectionByName(p, handle, Some(name))
      case Some(i) => NameMatch(img, name, i) && forall j | 0 <= j < i :: !NameMatch(img, name, j)
      case None => forall j | 0 <= j < |img.sections| :: !NameMatch(img, name, j)
  {
    if 0 in name && CLen(name) > 0 {
      var img := p.images[Resolve(p, handle)];
      var test := (j: nat) => NameMatch(img, name, j);
      FirstSpec(|img.sections|, test, 0);
      var bound := match First(|img.sections|, test, 0) case Some(i) => i case None => |img.sections|;
      forall j | 0 <= j < bound
        ensures !NameMatch(img, name, j)
      {
        assert !test(j);
      }
    }
  }

  /** GetSectionByName(handle, name): none for a null or empty name. */
  method GetSectionByName(p: Process, handle: Addr, name: Option<seq<int>>) returns (r: Option<nat>)
    requires Names(p, handle)
    requires name.Some? && Resolve(p, handle) != 0 ==> SearchableName(p.images[Resolve(p, handle)], name.value)
    ensures r == SectionByName(p, handle, name)
  {
    var h := Resolve(p, handle);
    if h == 0 || name.None? || name.value[0] == 0 {
      return None;
    }
    var img := p.images[h];
    var s := name.value;
    r := FindFirst(|img.sections|, (j: nat) => NameMatch(img, s, j));
  }

  // ---- GetSectionBounds and GetEntrySection ------------------------------------------

  /** The pair GetSectionBounds computes for a section of the image at handle:
      its first address and its last byte. */
  function Bounds(h: Addr, s: SectionHeader): (Addr, Addr)
  {
    var start := Wrap64(h + s.virtualAddress);
    (start, Wrap64(start + s.virtualSize - 1))
  }

  /** The two addresses bound exactly VirtualSize bytes when the section does
      not run past the top of the address space. */
  lemma BoundsSpan(h: Addr, s: SectionHeader)
    requires s.virtualSize > 0 && h + s.virtualAddress + s.virtualSize <= TWO_64
    ensures Bounds(h, s).0 == h + s.virtualAddress
    ensures Bounds(h, s).1 - Bounds(h, s).0 + 1 == s.virtualSize
  {
  }

  /** GetSectionBounds(handle, section): the empty pair when the handle
      resolves to nothing. */
  function GetSectionBounds(p: Process, handle: Addr, s: SectionHeader): (r: (Addr, Addr))
    ensures Resolve(p, handle) == 0 ==> r == (0, 0)
    ensures Resolve(p, handle) != 0 ==> r == Bounds(Resolve(p, handle), s)
  {
    var h := Resolve(p, handle);
    if h == 0 then (0, 0) else Bounds(h, s)
  }

  /** GetSectionBounds(section): the module holding the section header, as
      GetModuleHandleExA reports it (0 when it fails), stands for its handle. */
  function GetSectionBoundsOf(owner: Addr, s: SectionHeader): (r: (Addr, Addr))
    ensures owner == 0 ==> r == (0, 0)
    ensures owner != 0 ==> r == Bounds(owner, s)
  {
    if owner == 0 then (0, 0) else Bounds(owner, s)
  }

  /** The test GetEntrySection applies to each section: the half-open
      IsInBounds of the entry point against the section's first address and
      its last byte. */
  predicate EntryIn(h: Addr, img: Image, i: nat)
  {
    i < |img.sections| &&
    var (lo, hi) := Bounds(h, img.sections[i]);
    lo <= Wrap64(h + img.addressOfEntryPoint) < hi
  }

  function EntrySection(p: Process, handle: Addr): Option<nat>
    requires Names(p, handle)
  {
    var h := Resolve(p, handle);
    if h == 0 then None
    else
      var img := p.images[h];
      First(|img.sections|, (j: nat) => EntryIn(h, img, j), 0)
  }

  /** The entry section is the first whose span, short of its last byte,
      holds the entry point; an entry point on a section's last byte, or in a
      one-byte section, is never matched. */
  lemma EntrySectionSpec(p: Process, handle: Addr)
    requires Names(p, handle) && Resolve(p, handle) != 0
    ensures var h := Resolve(p, handle);
      var img := p.images[h];
      && (EntrySection(p, handle).Some? ==>
            var i := EntrySection(p, handle).value;
            EntryIn(h, img, i) && forall j | 0 <= j < i :: !EntryIn(h, img, j))
      && (EntrySection(p, handle).None? <==> forall j | 0 <= j < |img.sections| :: !EntryIn(h, img, j))
      && forall j | 0 <= j < |img.sections| ::
           Wrap64(h + img.addressOfEntryPoint) == Bounds(h, img.sections[j]).1 ==> !EntryIn(h, img, j)
  {
    var h := Resolve(p, handle);
    var img := p.images[h];
    var test := (j: nat) => EntryIn(h, img, j);
    FirstSpec(|img.sections|, test, 0);
    var bound := match First(|img.sections|, test, 0) case Some(i) => i case None => |img.sections|;
    forall j | 0 <= j < bound
      ensures !EntryIn(h, img, j)
    {
      assert !test(j);
    }
  }

  /** GetEntrySection(handle). */
  method GetEntrySection(p: Process, handle: Addr) returns (r: Option<nat>)
    requires Names(p, handle)
    ensures r == EntrySection(p, handle)
  {
    var h := Resolve(p, handle);
    if h == 0 {
      return None;
    }
    var img := p.images[h];
    r := FindFirst(|img.sections|, (j: nat) => EntryIn(h, img, j));
  }

  // ---- image base, version and size --------------------------------------------

  /** Both headers carry their signatures. */
  predicate Signed(img: Image)
  {
    img.magic == IMAGE_DOS_SIGNATURE && img.signature == IMAGE_NT_SIGNATURE
  }

  /** GetImageBase(handle): the ImageBase field, or null for a null handle or
      an image without the 'MZ' and 'PE\0\0' signatures. */
  function GetImageBase(p: Process, handle: Addr): (r: Addr)
    requires Names(p, handle)
    ensures Resolve(p, handle) == 0 || !Signed(p.images[Resolve(p, handle)]) ==> r == 0
    ensures Resolve(p, handle) != 0 && Signed(p.images[Resolve(p, handle)]) ==> r == p.images[Resolve(p, handle)].imageBase
  {
    var h := Resolve(p, handle);
    if h == 0 then 0
    else
      var img := p.images[h];
      if img.magic != IMAGE_DOS_SIGNATURE then 0
      else if img.signature != IMAGE_NT_SIGNATURE then 0
      else img.imageBase
  }

  /** GetImageBase(name): the image of the named module, the main executable
      for a null or empty name. */
  function GetImageBaseByName(p: Process, name: Option<seq<int>>): (r: Addr)
    requires name.Some? ==> 0 in name.value
    requires Names(p, HandleByName(p, name))
    ensures HandleByName(p, name) == 0 ==> r == 0
    ensures HandleByName(p, name) != 0 ==> r == GetImageBase(p, HandleByName(p, name))
  {
    var h := HandleByName(p, name);
    if h == 0 then 0 else GetImageBase(p, h)
  }

  /** GetModuleVersion(handle): the operating-system version fields, or (0, 0)
      where GetImageBase gives null. */
  function GetModuleVersion(p: Process, handle: Addr): (r: (u16, u16))
    requires Names(p, handle)
    ensures Resolve(p, handle) == 0 || !Signed(p.images[Resolve(p, handle)]) ==> r == (0, 0)
    ensures Resolve(p, handle) != 0 && Signed(p.images[Resolve(p, handle)]) ==>
      var img := p.images[Resolve(p, handle)];
      r == (img.majorOperatingSystemVersion, img.minorOperatingSystemVersion)
  {
    var h := Resolve(p, handle);
    if h == 0 then (0, 0)
    else
      var img := p.images[h];
      if img.magic != IMAGE_DOS_SIGNATURE then (0, 0)
      else if img.signature != IMAGE_NT_SIGNATURE then (0, 0)
      else (img.majorOperatingSystemVersion, img.minorOperatingSystemVersion)
  }

  function GetModuleVersionByName(p: Process, name: Option<seq<int>>): (r: (u16, u16))
    requires name.Some? ==> 0 in name.value
    requires Names(p, HandleByName(p, name))
    ensures HandleByName(p, name) == 0 ==> r == (0, 0)
    ensures HandleByName(p, name) != 0 ==> r == GetModuleVersion(p, HandleByName(p, name))
  {
    var h := HandleByName(p, name);
    if h == 0 then (0, 0) else GetModuleVersion(p, h)
  }

  /** Both header queries answer only for a handle that resolves to an image
      with valid DOS and NT signatures: a nonzero base address or a version
      other than 0.0 implies one. */
  lemma BaseAndVersionAgree(p: Process, handle: Addr)
    requires Names(p, handle)
    ensures GetImageBase(p, handle) != 0 ==> Resolve(p, handle) != 0 && Signed(p.images[Resolve(p, handle)])
    ensures GetModuleVersion(p, handle) != (0, 0) ==> Resolve(p, handle) != 0 && Signed(p.images[Resolve(p, handle)])
  {
  }

  /** GetModuleSize(handle): SizeOfImage. The source does not test the
      resolved handle for null before reading the headers. */
  function GetModuleSize(p: Process, handle: Addr): (r: u32)
    requires Resolve(p, handle) in p.images
    ensures r == p.images[Resolve(p, handle)].sizeOfImage
  {
    p.images[Resolve(p, handle)].sizeOfImage
  }
}
