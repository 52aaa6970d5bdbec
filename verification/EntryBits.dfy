/** The 64-bit page tree entry: what the template, swap and file mapping code writes and what the
    decoders read back.

    Bit 0 present, 2 user, 3, 4 and 7 (12 for a large page) the cache type, 7 of a large page its PS
    bit, 9-11 the mode, 13-55 the frame, 56 taken, 63 the exec argument. A swapped entry keeps its low
    nine bits without present and holds the disk position in 13-47 and the swap number in 57-62.

    The source ORs the cache type into bits 0-2, never sets PS, drops the taken bit and writes the
    swap mode one bit too high; several of its decoders are cut at the wrong bits. The functions
    without `AsWritten` in their name keep the layout above. */
module EntryBits {

  const RESERVE: bv64 := 2
  const MAP: bv64 := 1
  const SWAPPED: bv64 := 3
  const WRITEBACK: bv64 := 2
  const TAKEN: bv64 := 0x0100_0000_0000_0000

  datatype Entry =
    | Backed(mode: bv64, cache: bv64, user: bv64, nx: bv64, frame: bv64)
    | Swapped(low: bv64, disk: bv64, number: bv64)
  {
    /** Every field fits the bits it has. */
    predicate Fits() {
      match this
      case Backed(mode, cache, user, nx, frame) => mode < 8 && cache < 8 && user < 2 && nx < 2
          && frame < 0x800_0000_0000
      case Swapped(low, disk, number) => low & 0x1fe == low && disk < 0x8_0000_0000 && number < 64
    }
  }

  // ----- writers -----

  function MemreqTemplate(mode: bv64, cache: bv64, nx: bv64, large: bool): bv64 {
    (mode << 9) | ((cache & 3) << 3) | PatBit(cache >> 2, large) | (nx << 63) | 0x0100_0000_0000_0001
  }

  /** Where the third bit of the cache type goes; in a large entry bit 7 is PS. */
  function PatBit(pat: bv64, large: bool): bv64 {
    if large then (pat << 12) | 128 else pat << 7
  }

  /** The template as the source ORs it together. */
  function TemplateAsWritten(mode: bv64, cache: bv64, nx: bv64): bv64 {
    (mode << 9) | cache | (nx << 63) | 1
  }

  /** A template with its frame, and bit 2 for a page of user mode. */
  function Word(mode: bv64, cache: bv64, user: bv64, nx: bv64, frame: bv64, large: bool): bv64 {
    MemreqTemplate(mode, cache, nx, large) | (user << 2) | (frame << 13)
  }

  function SwappedWord(low: bv64, disk: bv64, number: bv64): bv64 {
    low | (SWAPPED << 9) | (disk << 13) | TAKEN | (number << 57)
  }

  /** The size is not in the entry of a small page: the depth the walk stopped at gives it. */
  function Encode(entry: Entry, large: bool): bv64 {
    match entry
    case Backed(mode, cache, user, nx, frame) => Word(mode, cache, user, nx, frame, large)
    case Swapped(low, disk, number) => SwappedWord(low, disk, number)
  }

  /** `exchange_swap`: the frame the entry gave up, and the entry now naming its place on disk. */
  function ExchangeSwap(e: bv64, disk: bv64, number: bv64): (bv64, bv64) {
    (Frame(e), SwappedWord(Low(e), disk, number))
  }

  function ExchangeSwapAsWritten(e: bv64, disk: bv64, number: bv64): bv64 {
    disk | ((e << 55) >> 55) | (3 << 10) | (number << 57)
  }

  // ----- readers -----

  predicate Present(e: bv64) { e & 1 != 0 }

  predicate Taken(e: bv64) { e & 0x0100_0000_0000_0000 != 0 }

  /** The low nine bits but for present. */
  function Low(e: bv64): bv64 { ((e << 55) >> 55) & 0x1fe }

  function Mode(e: bv64): bv64 { (e << 52) >> 61 }

  function Frame(e: bv64): bv64 { (e << 8) >> 21 }

  function FrameAsWritten(e: bv64): bv64 { (e << 5) >> 18 }

  function User(e: bv64): bv64 { (e << 61) >> 63 }

  function NoExec(e: bv64): bv64 { e >> 63 }

  function CacheType(e: bv64, large: bool): bv64 {
    ((e >> 3) & 3) | (((if large then e >> 12 else e >> 7) & 1) << 2)
  }

  function DiskPosition(e: bv64): bv64 { (e << 16) >> 29 }

  function SwapNumber(e: bv64): bv64 { (e << 1) >> 58 }

  function Decode(e: bv64, large: bool): Entry {
    if Present(e) then Backed(Mode(e), CacheType(e, large), User(e), NoExec(e), Frame(e))
    else Swapped(Low(e), DiskPosition(e), SwapNumber(e))
  }

  /** The words a writer can leave: taken, what is absent marked SWAPPED, a large page PS, and no bit
      set that has no use. */
  predicate Canonical(e: bv64, large: bool) {
    && Taken(e)
    && (if !Present(e) then Mode(e) == SWAPPED && e & 0x80ff_0000_0000_1000 == 0
        else if large then e & 0x7e00_0000_0000_01e2 == 128
        else e & 0x7e00_0000_0000_1162 == 0)
  }

  // ----- round trips -----

  lemma FrameReadsBack(mode: bv64, cache: bv64, user: bv64, nx: bv64, frame: bv64, large: bool)
    requires Backed(mode, cache, user, nx, frame).Fits()
    ensures Frame(Word(mode, cache, user, nx, frame, large)) == frame
  {
  }

  lemma MarksReadBack(mode: bv64, cache: bv64, user: bv64, nx: bv64, frame: bv64, large: bool)
    ensures Present(Word(mode, cache, user, nx, frame, large)) && Taken(Word(mode, cache, user, nx, frame, large))
  {
  }

  /** Reading back what was written gives every field unchanged. */
  lemma FieldsReadBack(entry: Entry, large: bool)
    requires entry.Fits()
    ensures Decode(Encode(entry, large), large) == entry
  {
    match entry
    case Backed(mode, cache, user, nx, frame) =>
      FrameReadsBack(mode, cache, user, nx, frame, large);
      MarksReadBack(mode, cache, user, nx, frame, large);
    case Swapped(low, disk, number) =>
  }

  /** Writing back what was read gives the same word, for exactly the words a writer can leave. */
  lemma WordsWriteBack(e: bv64, large: bool)
    ensures Encode(Decode(e, large), large) == e <==> Canonical(e, large)
  {
  }

  /** Swapping out: the frame is answered whole, and the entry is absent, SWAPPED, still taken and
      names its place on disk. */
  lemma SwapOutReadsBack(e: bv64, disk: bv64, number: bv64, large: bool)
    requires disk < 0x8_0000_0000 && number < 64
    ensures var (frame, after) := ExchangeSwap(e, disk, number);
            && frame == Frame(e)
            && Decode(after, large) == Swapped(Low(e), disk, number)
            && !Present(after) && Taken(after) && Mode(after) == SWAPPED
  {
  }

  /** The hard fault handler writes a fresh RESERVE, WRITEBACK, supervisor template without the exec
      bit over the swapped entry, so out to disk and back an entry is what it was, but for the frame,
      exactly when it was one of those. */
  lemma SwapCycleKeeps(entry: Entry, frame: bv64, large: bool)
    requires entry.Backed? && entry.Fits() && frame < 0x800_0000_0000
    ensures Decode(Word(RESERVE, WRITEBACK, 0, 0, frame, large), large) == entry.(frame := frame)
            <==> entry.mode == RESERVE && entry.cache == WRITEBACK && entry.user == 0 && entry.nx == 0
  {
    FieldsReadBack(Backed(RESERVE, WRITEBACK, 0, 0, frame), large);
  }

  // ----- as written -----

  /** exchange_swap as written never leaves an entry either mode test takes for SWAPPED, and never
      clears present: the page can not come back. */
  lemma SwapAsWrittenIsLost(e: bv64, disk: bv64, number: bv64)
    ensures Mode(ExchangeSwapAsWritten(e, disk, number)) != SWAPPED
    ensures Present(e) ==> Present(ExchangeSwapAsWritten(e, disk, number))
  {
  }

  /** Its disk position goes in unshifted: it is read back only when it is 0. */
  lemma DiskAsWrittenReadsBack(e: bv64, disk: bv64, number: bv64)
    requires disk < 0x8_0000_0000 && number < 64
    ensures DiskPosition(ExchangeSwapAsWritten(e, disk, number)) == disk <==> disk == 0
  {
  }

  /** vmto_phys and exchange_swap read the frame through bit 58: right exactly while the taken bit and
      the two lowest bits of the swap number are clear, so never of a taken entry. */
  lemma FrameAsWrittenReadsBack(e: bv64)
    ensures FrameAsWritten(e) == Frame(e) <==> e & 0x0700_0000_0000_0000 == 0
    ensures Taken(e) ==> FrameAsWritten(e) != Frame(e)
  {
  }

  /** The processor takes bits 12-51 of a small page's entry for the frame's address (section 4.5 of
      the Intel SDM, volume 3A), while a frame's address is put in shifted by 13: the two agree for
      frame 0 alone. */
  lemma HardwareReadsAnotherFrame(mode: bv64, cache: bv64, user: bv64, nx: bv64, frame: bv64)
    requires Backed(mode, cache, user, nx, frame).Fits()
    ensures Word(mode, cache, user, nx, frame, false) & 0x000f_ffff_ffff_f000 == frame <==> frame == 0
  {
  }

  /** The cache type is ORed over present, writable and user: it survives exactly when it is odd, and
      opens the page to user mode from WRITEPROTECT on. */
  lemma CacheAsWrittenReadsBack(mode: bv64, cache: bv64, nx: bv64)
    requires mode < 8 && cache < 8 && nx < 2
    ensures TemplateAsWritten(mode, cache, nx) & 7 == cache <==> cache & 1 == 1
    ensures TemplateAsWritten(mode, cache, nx) & 4 != 0 <==> cache >= 4
    ensures !Taken(TemplateAsWritten(mode, cache, nx))
  {
  }

  /** The mode tests of mem_unmap, of the two fault handlers and of recursive_free, on any word. */
  function UnmapMode(e: bv64): bv64 { (e << 53) >> 61 }

  function SoftMode(e: bv64): bv64 { (e << 52) >> 53 }

  function HardMode(e: bv64): bv64 { (e << 52) >> 54 }

  function TeardownMode(e: bv64): bv64 { (e << 55) >> 55 }

  /** mem_unmap refuses every page of mode MAP: what it takes for one has bit 8 set and a mode whose
      low bits are clear. */
  lemma UnmapModeReads(e: bv64)
    ensures UnmapMode(e) == MAP <==> e & 0x700 == 0x100
    ensures Mode(e) == MAP ==> UnmapMode(e) != MAP
  {
  }

  /** The fault handlers' tests meet the mode they look for only in a word whose mode is 0; teardown
      does not look at the mode bits at all. */
  lemma FaultModesRead(e: bv64, m: bv64)
    requires 0 < m < 8
    ensures SoftMode(e) == m ==> Mode(e) == 0
    ensures HardMode(e) == m ==> Mode(e) == 0
    ensures TeardownMode(e) == TeardownMode(e & 0x1ff)
  {
  }

  // ----- file mappings -----

  /** What fmap ORs into an entry, over a template without the taken bit. */
  function FileEntryAsWritten(desc: bv64, page: bv64): bv64 {
    (desc << 13) | (page << 46) | TemplateAsWritten(MAP, WRITEBACK, 0)
  }

  function FileDescriptorAsRead(e: bv64): bv64 { (e << 18) >> 32 }

  function FilePageAsRead(e: bv64): bv64 { (e << 1) >> 49 }

  /** fmap writes the descriptor at bit 13 and the page at bit 46; the soft fault handler reads them
      from bits 14 and 48. Each comes back only when it is 0. */
  lemma FileEntryReadsBack(desc: bv64, page: bv64)
    requires desc <= 0x4000 && page < 0x2_0000
    ensures FileDescriptorAsRead(FileEntryAsWritten(desc, page)) == desc <==> desc == 0
    ensures FilePageAsRead(FileEntryAsWritten(desc, page)) == page <==> page == 0
  {
  }

  /** The layout the comments give, descriptor at 13-45 and page at 48-62. */
  function FileEntry(desc: bv64, page: bv64): bv64 {
    (desc << 13) | (page << 48) | (4 << 9) | 1
  }

  /** Bit 56 is both the page's bit 8 and taken: with taken set a page reads back exactly when it has
      bit 8, without it an entry is taken exactly when the page has bit 8. Only pages with bit 8 set
      get both. */
  lemma FilePageSharesTaken(desc: bv64, page: bv64)
    requires desc < 0x2_0000_0000 && page < 0x8000
    ensures FilePageAsRead(FileEntry(desc, page)) == page && Mode(FileEntry(desc, page)) == 4
    ensures (FileEntry(desc, page) << 18) >> 31 == desc
    ensures FilePageAsRead(FileEntry(desc, page) | TAKEN) == page <==> page & 256 != 0
    ensures Taken(FileEntry(desc, page)) <==> page & 256 != 0
  {
  }
}
