/** The one-page instruction-fetch cache of the A64 callbacks
    (src/nxemu-cpu/arm_dynarmic_64.cpp): `MemoryReadCode` and the invalidations. */
module CodePageCache {
  import opened Bytes
  import opened Options

  const TWO_64 := 0x1_0000_0000_0000_0000
  const CODE_PAGE_SIZE := 0x1000
  const CODE_PAGE_MASK := 0xFFF
  const INVALID_CODE_PAGE := TWO_64 - 1
  const PAGE_WORDS := 1024

  /** What the guest's memory holds, which ranges are mapped and which pages can be read as one
      block. */
  datatype Memory = Memory(bytes: nat -> Byte, isValid: (nat, nat) -> bool, blockReadable: nat -> bool)

  /** `Read32`. */
  function Word(bytes: nat -> Byte, a: nat): nat {
    bytes(a) + 0x100 * bytes(a + 1) + 0x1_0000 * bytes(a + 2) + 0x100_0000 * bytes(a + 3)
  }

  /** A fetch that looks at the memory itself. */
  function Uncached(m: Memory, vaddr: nat): Option<nat> {
    if m.isValid(vaddr, 4) then Some(Word(m.bytes, vaddr)) else None
  }

  function PageOf(vaddr: nat): (page: nat)
    ensures page % CODE_PAGE_SIZE == 0 && page <= vaddr < page + CODE_PAGE_SIZE
  {
    vaddr - vaddr % CODE_PAGE_SIZE
  }

  function PageWords(bytes: nat -> Byte, page: nat): (words: seq<nat>)
    ensures |words| == PAGE_WORDS
  {
    seq(PAGE_WORDS, i requires 0 <= i < PAGE_WORDS => Word(bytes, page + 4 * i))
  }

  datatype Cache = Cache(last: nat, words: seq<nat>)

  predicate WellFormed(c: Cache) {
    && |c.words| == PAGE_WORDS
    && (c.last == INVALID_CODE_PAGE || (c.last < TWO_64 && c.last % CODE_PAGE_SIZE == 0))
  }

  datatype Fetched = Fetched(result: Option<nat>, cache: Cache)

  /** `MemoryReadCode`. */
  function Fetch(m: Memory, c: Cache, vaddr: nat): Fetched
    requires WellFormed(c) && vaddr < TWO_64
  {
    var page := PageOf(vaddr);
    if !m.isValid(vaddr, 4) then Fetched(None, c)
    else if c.last != page && !m.blockReadable(page) then Fetched(Some(Word(m.bytes, vaddr)), c)
    else
      var c' := if c.last == page then c else Cache(page, PageWords(m.bytes, page));
      Fetched(Some(c'.words[(vaddr - page) / 4]), c')
  }

  /** `InvalidateCodePageCache`. */
  function Dropped(c: Cache): Cache {
    c.(last := INVALID_CODE_PAGE)
  }

  /** `InvalidateCodePageCacheRange`, with the wrap-around of 64-bit addition. */
  function Invalidate(c: Cache, addr: nat, size: nat): Cache
    requires addr < TWO_64 && size < TWO_64
  {
    if c.last == INVALID_CODE_PAGE || size == 0 then c
    else
      var end := (addr + size + TWO_64 - 1) % TWO_64;
      if end < addr || (addr <= (c.last + CODE_PAGE_MASK) % TWO_64 && end >= c.last) then Dropped(c) else c
  }

  // ----- what an invalidation drops

  predicate InPage(a: int, page: nat) {
    page <= a < page + CODE_PAGE_SIZE
  }

  predicate InRange(a: int, addr: nat, size: nat) {
    addr <= a < addr + size
  }

  /** The bytes of the range reach past the end of the address space. */
  predicate Wraps(addr: nat, size: nat) {
    addr + size > TWO_64
  }

  /** The cached page is dropped exactly if the range wraps around or shares an address with
      it; an empty range drops nothing. */
  lemma DropsExactlyOnOverlap(c: Cache, addr: nat, size: nat)
    requires WellFormed(c) && c.last != INVALID_CODE_PAGE && addr < TWO_64 && size < TWO_64
    ensures Invalidate(c, addr, size) == Dropped(c) <==>
            Wraps(addr, size) || exists a :: InPage(a, c.last) && InRange(a, addr, size)
    ensures Invalidate(c, addr, size) in {c, Dropped(c)}
  {
    EndOfRange(addr, size);
    if size > 0 && !Wraps(addr, size) {
      if addr <= c.last + CODE_PAGE_MASK && addr + size - 1 >= c.last {
        var a := if addr < c.last then c.last else addr;
        assert InPage(a, c.last) && InRange(a, addr, size);
      }
    }
  }

  lemma EndOfRange(addr: nat, size: nat)
    requires addr < TWO_64 && 0 <= size < TWO_64
    ensures size > 0 ==>
      (addr + size + TWO_64 - 1) % TWO_64 == if Wraps(addr, size) then addr + size - 1 - TWO_64 else addr + size - 1
  {
  }

  // ----- runs

  /** The world of a run; `stale` are the addresses that changed and have not been covered by
      an invalidation since. */
  datatype World = World(memory: Memory, cache: Cache, stale: iset<nat>)

  datatype Event =
    | FetchAt(vaddr: nat)
    | MemoryBecomes(memory: Memory)
    | InvalidateAll
    | InvalidateRange(addr: nat, size: nat)

  ghost function Changed(before: nat -> Byte, after: nat -> Byte): iset<nat> {
    iset a: nat | before(a) != after(a)
  }

  ghost function Covered(addr: nat, size: nat): iset<nat> {
    iset a: nat | Wraps(addr, size) || InRange(a, addr, size)
  }

  predicate Allowed(e: Event) {
    match e
    case FetchAt(vaddr) => vaddr < TWO_64
    case InvalidateRange(addr, size) => addr < TWO_64 && size < TWO_64
    case _ => true
  }

  ghost function Next(w: World, e: Event): World
    requires WellFormed(w.cache) && Allowed(e)
  {
    match e
    case FetchAt(vaddr) => w.(cache := Fetch(w.memory, w.cache, vaddr).cache)
    case MemoryBecomes(m) => w.(memory := m, stale := w.stale + Changed(w.memory.bytes, m.bytes))
    case InvalidateAll => w.(cache := Dropped(w.cache), stale := iset{})
    case InvalidateRange(addr, size) =>
      w.(cache := Invalidate(w.cache, addr, size), stale := w.stale - Covered(addr, size))
  }

  ghost predicate NoneStale(stale: iset<nat>, a: nat) {
    a !in stale && a + 1 !in stale && a + 2 !in stale && a + 3 !in stale
  }

  /** Every cached word whose bytes are not stale is the word in memory. */
  ghost predicate Coherent(bytes: nat -> Byte, stale: iset<nat>, c: Cache) {
    && WellFormed(c)
    && (c.last != INVALID_CODE_PAGE ==>
          forall i :: 0 <= i < PAGE_WORDS && NoneStale(stale, c.last + 4 * i) ==>
            c.words[i] == Word(bytes, c.last + 4 * i))
  }

  ghost predicate Inv(w: World) {
    Coherent(w.memory.bytes, w.stale, w.cache)
  }

  lemma FetchKeeps(m: Memory, stale: iset<nat>, c: Cache, vaddr: nat)
    requires Coherent(m.bytes, stale, c) && vaddr < TWO_64
    ensures Coherent(m.bytes, stale, Fetch(m, c, vaddr).cache)
  {
    hide Word;
  }

  lemma ChangeKeeps(before: nat -> Byte, after: nat -> Byte, stale: iset<nat>, c: Cache)
    requires Coherent(before, stale, c)
    ensures Coherent(after, stale + Changed(before, after), c)
  {
    forall i | 0 <= i < PAGE_WORDS && NoneStale(stale + Changed(before, after), c.last + 4 * i)
      ensures NoneStale(stale, c.last + 4 * i) && Word(after, c.last + 4 * i) == Word(before, c.last + 4 * i)
    {
    }
  }

  lemma InvalidateKeeps(bytes: nat -> Byte, stale: iset<nat>, c: Cache, addr: nat, size: nat)
    requires Coherent(bytes, stale, c) && addr < TWO_64 && size < TWO_64
    ensures Coherent(bytes, stale - Covered(addr, size), Invalidate(c, addr, size))
  {
    hide Word;
    if c.last != INVALID_CODE_PAGE {
      DropsExactlyOnOverlap(c, addr, size);
      if Invalidate(c, addr, size) != Dropped(c) {
        hide Invalidate;
        forall i | 0 <= i < PAGE_WORDS && NoneStale(stale - Covered(addr, size), c.last + 4 * i)
          ensures NoneStale(stale, c.last + 4 * i)
        {
          OutsideStays(stale, c, addr, size, c.last + 4 * i);
        }
      }
    }
  }

  lemma OutsideStays(stale: iset<nat>, c: Cache, addr: nat, size: nat, a: nat)
    requires !Wraps(addr, size) && c.last <= a && a + 3 < c.last + CODE_PAGE_SIZE
    requires !exists x :: InPage(x, c.last) && InRange(x, addr, size)
    requires NoneStale(stale - Covered(addr, size), a)
    ensures NoneStale(stale, a)
  {
    assert InPage(a, c.last) && InPage(a + 1, c.last) && InPage(a + 2, c.last) && InPage(a + 3, c.last);
  }

  lemma StepKeeps(w: World, e: Event)
    requires Inv(w) && Allowed(e)
    ensures Inv(Next(w, e))
  {
    hide Coherent, Fetch, Invalidate, Covered, Changed;
    match e
    case FetchAt(vaddr) => FetchKeeps(w.memory, w.stale, w.cache, vaddr);
    case MemoryBecomes(m) => ChangeKeeps(w.memory.bytes, m.bytes, w.stale, w.cache);
    case InvalidateAll => DropKeeps(w.memory.bytes, w.stale, w.cache);
    case InvalidateRange(addr, size) => InvalidateKeeps(w.memory.bytes, w.stale, w.cache, addr, size);
  }

  lemma DropKeeps(bytes: nat -> Byte, stale: iset<nat>, c: Cache)
    requires Coherent(bytes, stale, c)
    ensures Coherent(bytes, iset{}, Dropped(c))
  {
  }

  /** At an aligned address whose bytes are not stale the cached fetch is the uncached one. */
  lemma FetchAgrees(m: Memory, stale: iset<nat>, c: Cache, vaddr: nat)
    requires Coherent(m.bytes, stale, c) && vaddr < TWO_64
    requires vaddr % 4 == 0 && NoneStale(stale, vaddr)
    ensures Fetch(m, c, vaddr).result == Uncached(m, vaddr)
  {
    hide Word;
    var page := PageOf(vaddr);
    AlignedIndex(vaddr);
  }

  ghost function After(w: World, events: seq<Event>): World
    requires Inv(w) && forall i :: 0 <= i < |events| ==> Allowed(events[i])
    ensures Inv(After(w, events))
  {
    if events == [] then w
    else
      var before := After(w, events[..|events| - 1]);
      StepKeeps(before, events[|events| - 1]);
      Next(before, events[|events| - 1])
  }

  /** The start of the emulator. */
  ghost predicate Started(w: World) {
    WellFormed(w.cache) && w.cache.last == INVALID_CODE_PAGE
  }

  /** Over every run of fetches, changes and invalidations: a fetch at an aligned address gives
      what the memory holds, if every change of its four bytes has been covered by an
      invalidation since. */
  lemma RunsAgree(w: World, events: seq<Event>, vaddr: nat)
    requires Started(w) && forall i :: 0 <= i < |events| ==> Allowed(events[i])
    requires vaddr < TWO_64 && vaddr % 4 == 0
    requires NoneStale(After(w, events).stale, vaddr)
    ensures var now := After(w, events);
            Fetch(now.memory, now.cache, vaddr).result == Uncached(now.memory, vaddr)
  {
    hide After, Fetch;
    var now := After(w, events);
    FetchAgrees(now.memory, now.stale, now.cache, vaddr);
  }

  lemma AlignedIndex(vaddr: nat)
    ensures var i := (vaddr - PageOf(vaddr)) / 4; 0 <= i < PAGE_WORDS && PageOf(vaddr) + 4 * i == vaddr - vaddr % 4
  {
    var q, offset := vaddr / CODE_PAGE_SIZE, vaddr % CODE_PAGE_SIZE;
    assert vaddr == 4 * (1024 * q) + offset;
    SameRemainder(1024 * q, offset);
  }

  lemma SameRemainder(k: nat, offset: nat)
    ensures (4 * k + offset) % 4 == offset % 4
  {
  }

  // ----- addresses that are not aligned

  /** At whatever address, the cache serves the aligned word around it. */
  lemma ServesAlignedWord(m: Memory, c: Cache, vaddr: nat)
    requires Coherent(m.bytes, iset{}, c) && vaddr < TWO_64 && m.isValid(vaddr, 4)
    requires c.last == PageOf(vaddr) || m.blockReadable(PageOf(vaddr))
    ensures Fetch(m, c, vaddr).result == Some(Word(m.bytes, vaddr - vaddr % 4))
  {
    hide Word;
    var page, i := PageOf(vaddr), (vaddr - PageOf(vaddr)) / 4;
    AlignedIndex(vaddr);
    assert NoneStale(iset{}, page + 4 * i);
  }

  /** The cached fetch gives what memory holds, for every memory whose page can be read and every
      cache that agrees with it. */
  ghost predicate AlwaysAgrees(vaddr: nat)
    requires vaddr < TWO_64
  {
    forall m: Memory, c: Cache ::
      Coherent(m.bytes, iset{}, c) && m.isValid(vaddr, 4) && m.blockReadable(PageOf(vaddr)) ==>
        Fetch(m, c, vaddr).result == Uncached(m, vaddr)
  }

  /** A memory that is zero but for the byte at `a`. */
  function OneAt(a: nat): Memory {
    Memory(x => if x == a then 1 else 0, (x, n) => true, p => true)
  }

  /** For every unaligned address there is a memory on which the fetch goes wrong. */
  lemma UnalignedDiffers(c: Cache, vaddr: nat)
    requires WellFormed(c) && c.last == INVALID_CODE_PAGE && vaddr < TWO_64 && vaddr % 4 != 0
    ensures var m := OneAt(vaddr - vaddr % 4);
            Fetch(m, c, vaddr).result == Some(1) && Uncached(m, vaddr) == Some(0)
  {
    var m := OneAt(vaddr - vaddr % 4);
    assert Word(m.bytes, vaddr - vaddr % 4) == 1 && Word(m.bytes, vaddr) == 0;
    hide Word;
    ServesAlignedWord(m, c, vaddr);
  }

  /** The cached fetch can be relied on at an address exactly if it is a multiple of four. */
  lemma AgreesExactlyIfAligned(vaddr: nat)
    requires vaddr < TWO_64
    ensures AlwaysAgrees(vaddr) <==> vaddr % 4 == 0
  {
    hide Fetch, Uncached, Word;
    if vaddr % 4 == 0 {
      forall m: Memory, c: Cache |
        Coherent(m.bytes, iset{}, c) && m.isValid(vaddr, 4) && m.blockReadable(PageOf(vaddr))
        ensures Fetch(m, c, vaddr).result == Uncached(m, vaddr)
      {
        FetchAgrees(m, iset{}, c, vaddr);
      }
    } else {
      var c := Cache(INVALID_CODE_PAGE, seq(PAGE_WORDS, _ => 0));
      var m := OneAt(vaddr - vaddr % 4);
      assert Coherent(m.bytes, iset{}, c);
      UnalignedDiffers(c, vaddr);
    }
  }

  // ----- the callbacks

  class DynarmicCallbacks64 {
    var m_memory: Memory
    const m_cached_code_page: array<nat>
    var m_last_code_page: nat
    ghost var stale: iset<nat>

    constructor (memory: Memory)
      ensures Valid() && m_memory == memory && m_last_code_page == INVALID_CODE_PAGE && fresh(m_cached_code_page)
    {
      m_memory, m_last_code_page, stale := memory, INVALID_CODE_PAGE, iset{};
      m_cached_code_page := new nat[PAGE_WORDS](_ => 0);
    }

    ghost function View(): Cache
      reads this, m_cached_code_page
    {
      Cache(m_last_code_page, m_cached_code_page[..])
    }

    ghost predicate Valid()
      reads this, m_cached_code_page
    {
      Coherent(m_memory.bytes, stale, View())
    }

    /** `ReadBlock` of a page into the buffer; if it fails, the buffer is left alone. */
    method ReadBlock(page: nat) returns (ok: bool)
      requires m_cached_code_page.Length == PAGE_WORDS
      modifies m_cached_code_page
      ensures ok == m_memory.blockReadable(page)
      ensures ok ==> m_cached_code_page[..] == PageWords(m_memory.bytes, page)
      ensures !ok ==> m_cached_code_page[..] == old(m_cached_code_page[..])
    {
      hide Word;
      ok := m_memory.blockReadable(page);
      if !ok {
        return;
      }
      for i := 0 to PAGE_WORDS
        invariant m_cached_code_page[..i] == PageWords(m_memory.bytes, page)[..i]
      {
        m_cached_code_page[i] := Word(m_memory.bytes, page + 4 * i);
      }
    }

    method MemoryReadCode(vaddr: nat) returns (r: Option<nat>)
      requires Valid() && vaddr < TWO_64
      modifies this`m_last_code_page, m_cached_code_page
      ensures Valid()
      ensures Fetched(r, View()) == Fetch(m_memory, old(View()), vaddr)
      ensures vaddr % 4 == 0 && NoneStale(stale, vaddr) ==> r == Uncached(m_memory, vaddr)
    {
      FetchKeeps(m_memory, stale, View(), vaddr);
      if vaddr % 4 == 0 && NoneStale(stale, vaddr) {
        FetchAgrees(m_memory, stale, View(), vaddr);
      }
      r := ReadCode(vaddr);
    }

    method ReadCode(vaddr: nat) returns (r: Option<nat>)
      requires WellFormed(View()) && vaddr < TWO_64
      modifies this`m_last_code_page, m_cached_code_page
      ensures Fetched(r, View()) == Fetch(m_memory, old(View()), vaddr)
    {
      hide Word, PageWords;
      if !m_memory.isValid(vaddr, 4) {
        return None;
      }
      var page_addr := PageOf(vaddr);
      if m_last_code_page != page_addr {
        var ok := ReadBlock(page_addr);
        if !ok {
          return Some(Word(m_memory.bytes, vaddr));
        }
        m_last_code_page := page_addr;
      }
      assert (vaddr - page_addr) / 4 < PAGE_WORDS;
      return Some(m_cached_code_page[(vaddr - page_addr) / 4]);
    }

    method InvalidateCodePageCache()
      requires Valid()
      modifies this`m_last_code_page, this`stale
      ensures Valid() && View() == Dropped(old(View())) && stale == iset{}
    {
      DropKeeps(m_memory.bytes, stale, View());
      m_last_code_page := INVALID_CODE_PAGE;
      stale := iset{};
    }

    method InvalidateCodePageCacheRange(addr: nat, size: nat)
      requires Valid() && addr < TWO_64 && size < TWO_64
      modifies this`m_last_code_page, this`stale
      ensures Valid() && View() == Invalidate(old(View()), addr, size)
      ensures stale == old(stale) - Covered(addr, size)
    {
      hide Coherent, Covered;
      InvalidateKeeps(m_memory.bytes, stale, View(), addr, size);
      stale := stale - Covered(addr, size);
      if m_last_code_page == INVALID_CODE_PAGE || size == 0 {
        return;
      }
      var end := (addr + size + TWO_64 - 1) % TWO_64;
      if end < addr || (addr <= (m_last_code_page + CODE_PAGE_MASK) % TWO_64 && end >= m_last_code_page) {
        m_last_code_page := INVALID_CODE_PAGE;
      }
    }

    /** Something else writes to, maps or unmaps memory. */
    method MemoryChanges(memory: Memory)
      requires Valid()
      modifies this`m_memory, this`stale
      ensures Valid() && m_memory == memory && stale == old(stale) + Changed(old(m_memory).bytes, memory.bytes)
    {
      hide Coherent, Changed;
      ChangeKeeps(m_memory.bytes, memory.bytes, stale, View());
      stale := stale + Changed(m_memory.bytes, memory.bytes);
      m_memory := memory;
    }
  }
}
