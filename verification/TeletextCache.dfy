/** The teletext page cache of lib/libtuxtxt/tuxtxt_common.h: eight live page buffers written back lazily into compressed entries. */
module TeletextCache {
  import opened Collections
  import opened Octets
  import opened PageCompression
  import opened TeletextCodes
  import opened TeletextPackets

  const NO_SUBPAGE: int := 0xff

  /** The contents of the cache: what the entries decompress to, the live buffers, the page and subpage each magazine
      is sending, and the subpage received last for each page. */
  datatype Memory = Memory(stored: map<PageId, Image>, live: seq<Image>, page: seq<int>, subpage: seq<int>, last: seq<int>) {
    predicate Shaped() {
      |live| == 9 && |page| == 9 && |subpage| == 9 && |last| == 0x900
    }

    predicate Live(m: int)
      requires Shaped()
    {
      0 <= m < 9 && page[m] != -1 && subpage[m] != -1
    }

    function Current(m: int): PageId
      requires Shaped() && 0 <= m < 9
    {
      PageId(page[m], subpage[m])
    }

    predicate IsCurrent(m: int, id: PageId)
      requires Shaped()
    {
      Live(m) && Current(m) == id
    }

    ghost predicate CurrentValid()
      requires Shaped()
    {
      forall m :: 0 <= m < 9 && page[m] != -1 && subpage[m] != -1 ==>
        1 <= m && PageId(page[m], subpage[m]) in stored && page[m] / 256 == m
    }

    /** A page being sent is allocated and belongs to its magazine; a last subpage names an allocated page. */
    ghost predicate Valid() {
      && Shaped()
      && (forall id :: id in stored ==> id.InTable())
      && CurrentValid()
      && (forall p :: 0 <= p < 0x900 && last[p] != NO_SUBPAGE ==> PageId(p, last[p]) in stored)
    }

    /** A page as it would be shown: from the live buffer while it is being sent, from its entry otherwise. */
    function ImageOf(id: PageId): Image
      requires Shaped() && id in stored
    {
      var m := id.Magazine();
      if IsCurrent(m, id) then live[m] else stored[id]
    }

    function Images(): (images: map<PageId, Image>)
      requires Shaped()
      ensures images.Keys == stored.Keys
    {
      map id | id in stored :: ImageOf(id)
    }

    function Currents(): map<int, PageId>
      requires Shaped()
    {
      map m | 0 <= m < 9 && Live(m) :: Current(m)
    }

    /** The pages this cache stands for. */
    function Shown(): Pages
      requires Shaped()
    {
      Pages(Images(), Currents())
    }

    /** The entry of the page magazine m is sending, if any, holds all that was received of it. */
    predicate WrittenBack(m: int)
      requires Shaped()
    {
      Live(m) && Current(m) in stored ==> stored[Current(m)] == live[m]
    }

    function WriteBack(m: int): Memory
      requires Shaped() && 0 <= m < 9
    {
      this.(stored := stored[Current(m) := live[m]])
    }

    function Leave(m: int, p: int, s: int): Memory
      requires Shaped() && 0 <= m < 9
    {
      this.(page := page[m := p], subpage := subpage[m := s])
    }

    function Note(id: PageId): Memory
      requires Shaped() && id.InTable()
    {
      this.(last := last[id.page := id.subpage])
    }

    function Allocate(id: PageId): Memory {
      if id in stored then this else this.(stored := stored[id := Blank()])
    }

    function Load(m: int, id: PageId): Memory
      requires Shaped() && 0 <= m < 9 && id in stored
    {
      this.(live := live[m := stored[id]])
    }

    function Erase(m: int, id: PageId): Memory
      requires Shaped() && 0 <= m < 9
    {
      this.(stored := stored[id := Blank()], live := live[m := Blank()])
    }

    /** What a header for a page comes to. */
    function Open(m: int, id: PageId, erase: bool): Memory
      requires Shaped() && 0 <= m < 9 && id.InTable()
    {
      var image := if erase || id !in stored then Blank() else stored[id];
      Memory(stored[id := image], live[m := image], page[m := id.page], subpage[m := id.subpage], last[id.page := id.subpage])
    }

    function Store(m: int, n: nat, line: seq<byte>): Memory
      requires Shaped() && 0 <= m < 9 && 1 <= n <= 23 && |line| == COLUMNS
    {
      this.(live := live[m := WithLine(live[m], n, line)])
    }
  }

  /** The steps by which a header is followed. */
  lemma OpenSteps(c: Memory, m: int, id: PageId)
    requires c.Shaped() && 0 <= m < 9 && id.InTable()
    ensures c.Leave(m, id.page, id.subpage).Note(id).Allocate(id).Load(m, id) == c.Open(m, id, false)
    ensures c.Open(m, id, false).Erase(m, id) == c.Open(m, id, true)
  {
    hide Blank;
    if id in c.stored {
      assert c.stored[id := c.stored[id]] == c.stored;
    }
  }

  lemma WriteBackShows(c: Memory, m: int)
    requires c.Valid() && c.Live(m)
    ensures c.WriteBack(m).Valid() && c.WriteBack(m).WrittenBack(m) && c.WriteBack(m).Shown() == c.Shown()
  {
    assert c.WriteBack(m).Images() == c.Images();
    assert c.WriteBack(m).Currents() == c.Currents();
  }

  lemma LeaveValid(c: Memory, m: int, p: int, s: int)
    requires c.Valid() && 1 <= m < 9 && (p == -1 || s == -1)
    ensures c.Leave(m, p, s).Valid()
  {
  }

  lemma LeaveImage(c: Memory, m: int, p: int, s: int, id: PageId)
    requires c.Valid() && 1 <= m < 9 && c.WrittenBack(m) && (p == -1 || s == -1) && id in c.stored
    ensures c.Leave(m, p, s).ImageOf(id) == c.ImageOf(id)
  {
  }

  lemma LeaveCurrents(c: Memory, m: int, p: int, s: int)
    requires c.Shaped() && 1 <= m < 9 && (p == -1 || s == -1)
    ensures c.Leave(m, p, s).Currents() == c.Currents() - {m}
  {
  }

  /** A header that names no page leaves every image as it was. */
  lemma LeaveShows(c: Memory, m: int, p: int, s: int)
    requires c.Valid() && 1 <= m < 9 && c.WrittenBack(m) && (p == -1 || s == -1)
    ensures c.Leave(m, p, s).Valid() && c.Leave(m, p, s).Shown() == Step(c.Shown(), NoPage(m))
  {
    assert c.Shaped();
    hide Memory.Valid, Memory.ImageOf, Memory.Currents, Memory.WrittenBack;
    LeaveValid(c, m, p, s);
    LeaveCurrents(c, m, p, s);
    forall id | id in c.stored
      ensures c.Leave(m, p, s).ImageOf(id) == c.ImageOf(id)
    {
      LeaveImage(c, m, p, s, id);
    }
    assert c.Leave(m, p, s).Images() == c.Images();
  }

  lemma OpenValid(c: Memory, m: int, id: PageId, erase: bool)
    requires c.Valid() && 1 <= m < 9 && id.InTable() && id.Magazine() == m
    ensures c.Open(m, id, erase).Valid()
  {
    hide Blank;
  }

  lemma OpenImage(c: Memory, m: int, id: PageId, erase: bool, k: PageId)
    requires c.Valid() && 1 <= m < 9 && c.WrittenBack(m) && id.InTable() && id.Magazine() == m
    requires k == id || k in c.stored
    ensures c.Open(m, id, erase).ImageOf(k) == if k != id then c.ImageOf(k) else if erase || id !in c.stored then Blank() else c.ImageOf(id)
  {
    hide Blank;
  }

  lemma OpenCurrents(c: Memory, m: int, id: PageId, erase: bool)
    requires c.Shaped() && 1 <= m < 9 && id.InTable() && id.Magazine() == m
    ensures c.Open(m, id, erase).Currents() == c.Currents()[m := id]
  {
    hide Blank;
  }

  /** A header that names a page makes it current, with its rows as they were, or blank if it is new or to be erased. */
  lemma OpenShows(c: Memory, m: int, id: PageId, erase: bool)
    requires c.Valid() && 1 <= m < 9 && c.WrittenBack(m) && id.InTable() && id.Magazine() == m
    ensures c.Open(m, id, erase).Valid() && c.Open(m, id, erase).Shown() == Step(c.Shown(), Header(m, id, erase))
  {
    assert c.Shaped();
    hide Blank, Memory.Valid, Memory.ImageOf, Memory.Currents, Memory.WrittenBack;
    OpenValid(c, m, id, erase);
    OpenCurrents(c, m, id, erase);
    var d := c.Open(m, id, erase);
    forall k | k == id || k in c.stored
      ensures d.ImageOf(k) == if k != id then c.ImageOf(k) else if erase || id !in c.stored then Blank() else c.ImageOf(id)
    {
      OpenImage(c, m, id, erase, k);
    }
    assert d.Images() == Step(c.Shown(), Header(m, id, erase)).images;
  }

  lemma StoreShows(c: Memory, m: int, n: nat, bytes: seq<byte>)
    requires c.Valid() && c.Live(m) && 1 <= n <= 23 && |bytes| == COLUMNS
    ensures c.Store(m, n, Decoded(c.page[m], bytes)).Valid()
    ensures c.Store(m, n, Decoded(c.page[m], bytes)).Shown() == Step(c.Shown(), Line(m, n, bytes))
  {
    hide Decoded, WithLine;
    var d := c.Store(m, n, Decoded(c.page[m], bytes));
    assert d.Images() == Step(c.Shown(), Line(m, n, bytes)).images;
    assert d.Currents() == c.Currents();
  }

  lemma NotSending(c: Memory, m: int, n: nat, bytes: seq<byte>)
    requires c.Shaped() && !c.Live(m) && 1 <= n <= 23 && |bytes| == COLUMNS && 1 <= m <= 8
    ensures Step(c.Shown(), Line(m, n, bytes)) == c.Shown()
  {
  }

  class Cache {
    /** The rows of the page each magazine is sending. */
    const pagedata: seq<array<byte>>
    var currentPage: seq<int>
    var currentSubpage: seq<int>
    /** The subpage received last for each page. */
    var subpagetable: seq<int>
    /** astCachetable: no key, no page allocated. */
    var cachetable: map<PageId, CachedPage>
    var cachedPages: int

    /** Nine different page buffers, an entry of its own for every page, and the number of them. */
    ghost predicate Shaped()
      reads this, cachetable.Values
    {
      && |pagedata| == 9 && |currentPage| == 9 && |currentSubpage| == 9 && |subpagetable| == 0x900
      && (forall i :: 0 <= i < 9 ==> pagedata[i].Length == PAGE_BYTES)
      && (forall i, j :: 0 <= i < j < 9 ==> pagedata[i] != pagedata[j])
      && (forall a, b :: a in cachetable && b in cachetable && a != b ==> cachetable[a] != cachetable[b])
      && (forall id :: id in cachetable ==> cachetable[id].Valid())
      && cachedPages == |cachetable|
    }

    ghost function Buffer(i: int): Image
      requires Shaped() && 0 <= i < 9
      reads this, cachetable.Values, pagedata
    {
      pagedata[i][..]
    }

    static ghost function Images(t: map<PageId, CachedPage>): map<PageId, Image>
      requires forall id :: id in t ==> t[id].Valid()
      reads t.Values
    {
      map id | id in t :: t[id].Image()
    }

    static lemma ImagesWith(t: map<PageId, CachedPage>, id: PageId, entry: CachedPage)
      requires entry.Valid() && forall i :: i in t ==> t[i].Valid()
      ensures Images(t[id := entry]) == Images(t)[id := entry.Image()]
    {
      hide CachedPage.Valid, CachedPage.Image;
    }

    ghost function Contents(): Memory
      requires Shaped()
      reads this, cachetable.Values, pagedata
    {
      Memory(Images(cachetable),
             seq(9, i requires 0 <= i < 9 && Shaped() reads this, cachetable.Values, pagedata => Buffer(i)),
             currentPage, currentSubpage, subpagetable)
    }

    ghost predicate Valid()
      reads this, cachetable.Values, pagedata
    {
      Shaped() && Contents().Valid()
    }

    /** The pages as they would be shown now. */
    ghost function Showing(): Pages
      requires Valid()
      reads this, cachetable.Values, pagedata
    {
      Contents().Shown()
    }

    ghost predicate WrittenBack(m: int)
      requires Valid()
      reads this, cachetable.Values, pagedata
    {
      Contents().WrittenBack(m)
    }

    predicate Sending(m: int)
      requires |currentPage| == 9 && |currentSubpage| == 9 && 0 <= m < 9
      reads this
    {
      currentPage[m] != -1 && currentSubpage[m] != -1
    }

    /** If magazine m is sending the page on the screen, its entry holds all that was received of it. */
    ghost predicate UpToDate(m: int, shown: int)
      requires Valid() && 0 <= m < 9
      reads this, cachetable.Values, pagedata
    {
      currentPage[m] == shown && Sending(m) ==> WrittenBack(m)
    }

    /** tuxtxt_clear_cache, on a new object. */
    constructor ()
      ensures Valid() && fresh(cachetable.Values) && forall b :: b in pagedata ==> fresh(b)
      ensures Contents().Shown() == Pages(map[], map[])
    {
      hide CachedPage.Valid, CachedPage.Image;
      var buffers := NewBuffers();
      pagedata := buffers;
      currentPage := seq(9, _ => -1);
      currentSubpage := seq(9, _ => -1);
      subpagetable := seq(0x900, _ => NO_SUBPAGE);
      cachetable, cachedPages := map[], 0;
    }

    static method NewBuffers() returns (buffers: seq<array<byte>>)
      ensures |buffers| == 9
      ensures forall i :: 0 <= i < 9 ==> buffers[i].Length == PAGE_BYTES && fresh(buffers[i])
      ensures forall i, j :: 0 <= i < j < 9 ==> buffers[i] != buffers[j]
    {
      buffers := [];
      while |buffers| < 9
        invariant |buffers| <= 9
        invariant forall i :: 0 <= i < |buffers| ==> buffers[i].Length == PAGE_BYTES && fresh(buffers[i])
        invariant forall i, j :: 0 <= i < j < |buffers| ==> buffers[i] != buffers[j]
      {
        var b := new byte[PAGE_BYTES];
        buffers := buffers + [b];
      }
    }

    /** tuxtxt_compress_page: the live buffer of a magazine goes into its entry. */
    method CompressPage(m: int)
      requires Valid() && 1 <= m < 9 && Contents().Live(m)
      modifies cachetable[Contents().Current(m)]
      ensures Shaped() && Contents() == old(Contents().WriteBack(m))
    {
      hide CachedPage.Valid, CachedPage.Image, CachedPage.Bits, Starts, Heads, Count, Runs;
      var id := PageId(currentPage[m], currentSubpage[m]);
      cachetable[id].Compress(pagedata[m]);
    }

    method Insert(id: PageId, entry: CachedPage)
      requires Shaped() && id !in cachetable && entry !in cachetable.Values && entry.Valid()
      modifies `cachetable, `cachedPages
      ensures Shaped() && cachetable == old(cachetable)[id := entry]
      ensures Contents() == old(Contents().(stored := Contents().stored[id := entry.Image()]))
    {
      hide CachedPage.Valid, CachedPage.Image, Images;
      cachetable := cachetable[id := entry];
      cachedPages := cachedPages + 1;
      assert Shaped();
      ImagesWith(old(cachetable), id, entry);
    }

    /** tuxtxt_allocate_cache: an erased entry for a page that has none. */
    method AllocateCache(id: PageId)
      requires Shaped()
      modifies `cachetable, `cachedPages
      ensures Shaped() && id in cachetable && fresh(cachetable.Values - old(cachetable.Values))
      ensures Contents() == old(Contents().Allocate(id))
    {
      if id !in cachetable {
        var entry := new CachedPage();
        hide Cache.Shaped, CachedPage.Valid, CachedPage.Image, Blank;
        Insert(id, entry);
      }
    }

    /** tuxtxt_decompress_page: an entry goes into the live buffer of a magazine. */
    method DecompressPage(id: PageId, m: int)
      requires Shaped() && 0 <= m < 9 && id in cachetable
      modifies pagedata[m]
      ensures unchanged(this)
      ensures Shaped() && Contents() == old(Contents().Load(m, id))
    {
      hide CachedPage.Valid, CachedPage.Image;
      cachetable[id].Decompress(pagedata[m]);
    }

    /** Control bit C4: the entry and the live buffer are erased. */
    method ErasePage(id: PageId, m: int)
      requires Shaped() && 0 <= m < 9 && id in cachetable
      modifies cachetable[id], pagedata[m]
      ensures unchanged(this)
      ensures Shaped() && Contents() == old(Contents().Erase(m, id))
    {
      hide CachedPage.Valid, CachedPage.Image;
      cachetable[id].EraseMask();
      Clear(pagedata[m]);
      assert Contents().stored == old(Contents().stored)[id := Blank()];
      assert Contents().live == old(Contents().live)[m := Blank()];
    }

    static method Clear(buffer: array<byte>)
      requires buffer.Length == PAGE_BYTES
      modifies buffer
      ensures buffer[..] == Blank()
    {
      forall i | 0 <= i < PAGE_BYTES {
        buffer[i] := SPACE;
      }
    }

    /** What the header of magazine m says the next rows belong to. */
    method SetCurrent(m: int, p: int, s: int)
      requires Shaped() && 0 <= m < 9
      modifies `currentPage, `currentSubpage
      ensures Shaped() && Contents() == old(Contents().Leave(m, p, s))
    {
      hide CachedPage.Valid, CachedPage.Image;
      currentPage, currentSubpage := currentPage[m := p], currentSubpage[m := s];
      assert Contents().stored == old(Contents().stored);
    }

    method SetLastSubpage(id: PageId)
      requires Shaped() && id.InTable()
      modifies `subpagetable
      ensures Shaped() && Contents() == old(Contents().Note(id))
    {
      hide CachedPage.Valid, CachedPage.Image;
      subpagetable := subpagetable[id.page := id.subpage];
      assert Contents().stored == old(Contents().stored);
    }

    /** The header of a page: what is known of it goes into the live buffer of its magazine. */
    method OpenPage(m: int, id: PageId, erase: bool)
      requires Shaped() && 1 <= m < 9 && id.InTable()
      modifies this, pagedata[m], cachetable.Values
      ensures Shaped() && fresh(cachetable.Values - old(cachetable.Values))
      ensures Contents() == old(Contents().Open(m, id, erase))
    {
      assert Contents().Shaped();
      hide Cache.Shaped, Cache.Contents, Memory.Open, Memory.Leave, Memory.Note, Memory.Allocate, Memory.Load, Memory.Erase;
      OpenSteps(Contents(), m, id);
      SetCurrent(m, id.page, id.subpage);
      SetLastSubpage(id);
      AllocateCache(id);
      DecompressPage(id, m);
      if erase {
        ErasePage(id, m);
      }
    }

    /** A packet with row 0: the page being sent is put away. */
    method PutAway(m: int)
      requires Valid() && 1 <= m < 9
      modifies cachetable.Values
      ensures Valid() && unchanged(this) && Showing() == old(Showing()) && WrittenBack(m)
    {
      hide Memory.Shown;
      if Sending(m) {
        WriteBackShows(Contents(), m);
        CompressPage(m);
      }
    }

    method NoteNoPage(m: int, p: int, s: int)
      requires Valid() && 1 <= m < 9 && WrittenBack(m) && (p == -1 || s == -1)
      modifies `currentPage, `currentSubpage
      ensures Valid() && Showing() == Step(old(Showing()), NoPage(m))
    {
      hide CachedPage.Valid, CachedPage.Image, Memory.Shown, Memory.Valid, Step;
      LeaveShows(Contents(), m, p, s);
      SetCurrent(m, p, s);
    }

    method BeginPage(m: int, id: PageId, erase: bool)
      requires Valid() && 1 <= m < 9 && WrittenBack(m) && id.InTable() && id.Magazine() == m
      modifies this, pagedata[m], cachetable.Values
      ensures Valid() && fresh(cachetable.Values - old(cachetable.Values))
      ensures Showing() == Step(old(Showing()), Header(m, id, erase))
    {
      assert Contents().Shaped();
      hide Cache.Shaped, Cache.Contents, Memory.Shown, Memory.Valid, Memory.WrittenBack, Step, Blank;
      OpenShows(Contents(), m, id, erase);
      OpenPage(m, id, erase);
    }

    /** A header, after the page it ends was put away; more tells whether it was that of a decimal page. */
    method ReadHeader(m: int, row: Row) returns (more: bool)
      requires Valid() && m == MagazineOf(row) && WrittenBack(m)
      modifies this, pagedata[m], cachetable.Values
      ensures Valid() && fresh(cachetable.Values - old(cachetable.Values))
      ensures Showing() == Step(old(Showing()), ParseHeader(row))
    {
      assert |currentSubpage| == 9;
      hide Cache.Valid, Cache.Showing, Cache.WrittenBack, Dehamming, Step, MagazineOf, ParseHeader;
      var b2, b3 := Dehamming(row[3] as nat), Dehamming(row[2] as nat);
      if b2 == X || b3 == X {
        HeaderLost(row);
        NoteNoPage(m, -1, currentSubpage[m]);
        return false;
      }
      var p := m * 256 + b2 * 16 + b3;
      var b1, b4 := Dehamming(row[7] as nat), Dehamming(row[4] as nat);
      var b5, b6 := Dehamming(row[5] as nat), Dehamming(row[6] as nat);
      if (b2 == 15 && b3 == 15) || b1 == X || b6 == X || b5 == X || b4 == X {
        HeaderLost(row);
        NoteNoPage(m, p, -1);
        return false;
      }
      var id := PageId(p, if IsDec(p) then b5 % 8 * 16 + b4 else b4);
      HeaderFound(row, id);
      BeginPage(m, id, b5 >= 8);
      more := IsDec(p);
    }

    /** Rows 1 to 23 of the page being sent. */
    method StoreLine(m: int, n: nat, row: Row)
      requires Valid() && m == MagazineOf(row) && Sending(m) && 1 <= n <= 23
      modifies pagedata[m]
      ensures unchanged(this) && Valid() && Showing() == Step(old(Showing()), LineIn(row, n))
    {
      hide CachedPage.Valid, CachedPage.Image, Memory.Shown, Memory.Valid, Step, WithLine, Decoded, MagazineOf;
      StoreShows(Contents(), m, n, row[2..]);
      CopyLine(pagedata[m], n, currentPage[m], row);
      assert Contents() == old(Contents().Store(m, n, Decoded(currentPage[m], row[2..])));
    }

    /** A packet with row 0. */
    method ReceiveHeader(m: int, row: Row) returns (more: bool)
      requires Valid() && m == MagazineOf(row)
      modifies this, pagedata[m], cachetable.Values
      ensures Valid() && fresh(cachetable.Values - old(cachetable.Values))
      ensures Showing() == Step(old(Showing()), ParseHeader(row))
    {
      hide Cache.Valid, Cache.Showing, Cache.WrittenBack, MagazineOf, ParseHeader, Step;
      PutAway(m);
      more := ReadHeader(m, row);
    }

    /** A packet with one of the rows 1 to 23, which is dropped when its magazine is sending no page. */
    method ReceiveLine(m: int, n: nat, row: Row)
      requires Valid() && m == MagazineOf(row) && 1 <= n <= 23
      modifies pagedata[m]
      ensures unchanged(this) && Valid() && Showing() == Step(old(Showing()), LineIn(row, n))
    {
      if Sending(m) {
        StoreLine(m, n, row);
      } else {
        NotSending(Contents(), m, n, row[2..]);
      }
    }

    /** The page being shown is put away at once. */
    method UpdateShown(m: int, shown: int)
      requires Valid() && 1 <= m < 9 && shown != -1
      modifies cachetable.Values
      ensures Valid() && unchanged(this) && Showing() == old(Showing())
      ensures UpToDate(m, shown)
    {
      hide Cache.Showing, Cache.WrittenBack;
      if currentPage[m] == shown && currentSubpage[m] != -1 {
        PutAway(m);
      }
    }

    /** The rest of packet n of magazine m. */
    method Analyze(m: int, n: nat, row: Row) returns (more: bool)
      requires Valid() && m == MagazineOf(row)
      modifies this, pagedata[m], cachetable.Values
      ensures Valid() && fresh(cachetable.Values - old(cachetable.Values))
      ensures Showing() == Step(old(Showing()), Numbered(n, row))
      ensures 1 <= n <= 23 ==> more
    {
      assert |currentPage| == 9 && |currentSubpage| == 9;
      hide Cache.Valid, Cache.Showing, Dehamming, ParseHeader, MagazineOf, WithLine, Decoded;
      more := true;
      if n == 0 {
        more := ReceiveHeader(m, row);
      } else if n <= 23 {
        ReceiveLine(m, n, row);
      } else if 26 <= n <= 28 && Sending(m) && Dehamming(row[2] as nat) == X {
        more := false;
      }
    }

    /** Packet n of magazine m, and the page being shown. */
    method ReceiveNumbered(m: int, n: nat, row: Row, shown: int)
      requires Valid() && m == MagazineOf(row) && shown != -1
      modifies this, pagedata, cachetable.Values
      ensures Valid() && fresh(cachetable.Values - old(cachetable.Values))
      ensures Showing() == Step(old(Showing()), Numbered(n, row))
      ensures 1 <= n <= 23 ==> UpToDate(m, shown)
    {
      assert |pagedata| == 9 && pagedata[m] in pagedata;
      hide Cache.Showing, Cache.UpToDate, Numbered, Step, Cache.Valid;
      var more := Analyze(m, n, row);
      if more {
        UpdateShown(m, shown);
      }
    }

    /** One row: the cache afterwards shows what the packet in it makes of the pages shown before; the page on the screen
        is kept up to date in its entry. */
    method Receive(row: Row, shown: int)
      requires Valid() && shown != -1
      modifies this, pagedata, cachetable.Values
      ensures Valid() && fresh(cachetable.Values - old(cachetable.Values))
      ensures Showing() == Step(old(Showing()), Parse(row))
      ensures Parse(row).Line? ==> UpToDate(MagazineOf(row), shown)
    {
      ParseCases(row);
      hide Cache.Valid, Cache.Showing, Cache.UpToDate, Dehamming, Numbered, Step, Parse, NumberOf, MagazineOf;
      var b1, b2 := Dehamming(row[0] as nat), Dehamming(row[1] as nat);
      if b1 == X || b2 == X {
        UnreadableStep(Showing());
      } else {
        var m, n := Address(row, b1, b2);
        ReceiveNumbered(m, n, row, shown);
      }
    }

    /** The rows read by the cache thread, each with the page being shown when it comes. */
    method CacheThread(rows: seq<Row>, shown: seq<int>)
      requires Valid() && |shown| == |rows| && forall i :: 0 <= i < |shown| ==> shown[i] != -1
      modifies this, pagedata, cachetable.Values
      ensures Valid() && Showing() == Run(old(Showing()), Packets(rows))
    {
      hide Cache.Valid, Cache.Showing, Cache.UpToDate, Parse, Step, Run, Packets;
      RunNothing(Showing());
      assert rows[..0] == [];
      var i := 0;
      while i < |rows|
        invariant 0 <= i <= |rows|
        invariant Valid() && fresh(cachetable.Values - old(cachetable.Values))
        invariant Showing() == Run(old(Showing()), Packets(rows[..i]))
      {
        RunOneMore(old(Showing()), rows[..i], rows[i]);
        Receive(rows[i], shown[i]);
        assert rows[..i + 1] == rows[..i] + [rows[i]];
        i := i + 1;
      }
      assert rows[..|rows|] == rows;
    }
  }

  /** Rows 1 to 23: forty bytes go into the buffer, decoded as the kind of page demands. */
  method CopyLine(buffer: array<byte>, n: nat, page: int, row: Row)
    requires buffer.Length == PAGE_BYTES && 1 <= n <= 23
    modifies buffer
    ensures buffer[..] == WithLine(old(buffer[..]), n, Decoded(page, row[2..]))
  {
    hide Deparity, Dehamming;
    var at := 40 * (n - 1);
    ghost var before := buffer[..];
    ghost var line := Decoded(page, row[2..]);
    var k := 0;
    while k < COLUMNS
      invariant 0 <= k <= COLUMNS
      invariant forall j :: 0 <= j < PAGE_BYTES ==> buffer[j] == if at <= j < at + k then line[j - at] else before[j]
    {
      if IsDec(page) {
        buffer[at + k] := Deparity(row[2 + k]);
      } else if page % 256 == 0xfe {
        buffer[at + k] := Dehamming(row[2 + k] as nat) as byte;
      } else {
        buffer[at + k] := row[2 + k];
      }
      assert buffer[at + k] == line[k];
      k := k + 1;
    }
    assert buffer[..] == before[..at] + line + before[at + COLUMNS..];
  }

  /** Magazine and packet number. */
  method Address(row: Row, b1: nat, b2: nat) returns (m: nat, n: nat)
    requires b1 == Dehamming(row[0] as nat) != X && b2 == Dehamming(row[1] as nat)
    ensures 1 <= m <= 8 && m == MagazineOf(row) && n == NumberOf(row)
  {
    hide Dehamming;
    n := b1 / 8 + 2 * b2;
    m := b1 % 8;
    if m == 0 {
      m := 8;
    }
  }

  lemma ParseCases(row: Row)
    ensures Dehamming(row[0] as nat) == X || Dehamming(row[1] as nat) == X ==> Parse(row) == Unreadable
    ensures Dehamming(row[0] as nat) != X && Dehamming(row[1] as nat) != X ==> Parse(row) == Numbered(NumberOf(row), row)
    ensures Parse(row).Line? ==> 1 <= NumberOf(row) <= 23
  {
    hide Dehamming, MagazineOf, NumberOf, ParseHeader;
  }

  lemma RunNothing(s: Pages)
    ensures Run(s, Packets([])) == s
  {
  }

  lemma RunOneMore(s: Pages, rows: seq<Row>, row: Row)
    ensures Run(s, Packets(rows + [row])) == Step(Run(s, Packets(rows)), Parse(row))
  {
    hide Parse, Step;
    assert (rows + [row])[..|rows|] == rows;
    assert Packets(rows + [row])[..|rows|] == Packets(rows);
  }

  lemma UnreadableStep(s: Pages)
    ensures Step(s, Unreadable) == s
  {
  }

  lemma HeaderLost(row: Row)
    requires !NamesPage(row)
    ensures ParseHeader(row) == NoPage(MagazineOf(row))
  {
  }

  lemma HeaderFound(row: Row, id: PageId)
    requires NamesPage(row) && id.page == PageOf(row) && id.subpage == SubpageOf(row)
    ensures id.InTable() && id.Magazine() == MagazineOf(row)
    ensures ParseHeader(row) == Header(MagazineOf(row), id, Dehamming(row[5] as nat) >= 8)
  {
    hide Dehamming;
  }
}
