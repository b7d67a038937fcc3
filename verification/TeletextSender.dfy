/** A sender of teletext pages, after sections 7.1.2, 8.1, 8.2 and 9.3.1 of ETS 300 706, and what the cache of
    lib/libtuxtxt/tuxtxt_common.h shows of what it sends. */
module TeletextSender {
  import opened Collections
  import opened Octets
  import opened PageCompression
  import opened TeletextCodes
  import opened TeletextPackets
  import opened TeletextCache

  /** A byte with one bit inverted. */
  ghost predicate OneBitOff(b: byte, w: nat)
    requires w < 256
  {
    exists k: nat :: k < 8 && b as nat == Flip(w, k)
  }

  /** Four data bits as they arrive, with at most one of the eight bits inverted. */
  ghost predicate Codes(b: byte, d: nat)
    requires d < 16
  {
    b as nat == Codeword(d) || OneBitOff(b, Codeword(d))
  }

  lemma CodesBack(b: byte, d: nat)
    requires d < 16 && Codes(b, d)
    ensures Dehamming(b as nat) == d != X
  {
    hide Dehamming, Codeword, Flip;
    if OneBitOff(b, Codeword(d)) {
      var k: nat :| k < 8 && b as nat == Flip(Codeword(d), k);
      OneBitCorrected(d, k);
    } else {
      OneBitCorrected(d, 0);
    }
  }

  /** The first two bytes of a packet: three bits of magazine, where 8 is sent as 0, and five of packet number. */
  ghost predicate Addressed(row: Row, m: nat, n: nat)
    requires 1 <= m <= 8 && n < 32
  {
    Codes(row[0], m % 8 + 8 * (n % 2)) && Codes(row[1], n / 2)
  }

  lemma AddressBack(row: Row, m: nat, n: nat)
    requires 1 <= m <= 8 && n < 32 && Addressed(row, m, n)
    ensures MagazineOf(row) == m && Parse(row) == Numbered(n, row)
  {
    hide Dehamming, Codes, Numbered;
    CodesBack(row[0], m % 8 + 8 * (n % 2));
    CodesBack(row[1], n / 2);
  }

  ghost predicate AnyCode(b: byte) {
    exists d: nat :: d < 16 && Codes(b, d)
  }

  /** Pages that a header can announce: not those with the number FF, and with hexadecimal numbers only four bits of
      subpage are looked at. */
  predicate Sendable(id: PageId) {
    id.InTable() && id.page % 256 != 0xff && (Decimal(id.page) || id.subpage < 16)
  }

  /** Both digits of the page number are decimal. */
  predicate Decimal(page: int) {
    page % 16 <= 9 && page % 256 / 16 <= 9
  }

  /** The header of a page: units and tens of its number, four and three bits of its subpage, control bit C4 with the latter,
      and two more bytes with the rest of the subpage and control bits. */
  ghost predicate HeaderSent(row: Row, id: PageId, erase: bool)
    requires Sendable(id)
  {
    && Addressed(row, id.page / 0x100, 0)
    && Codes(row[2], id.page % 16) && Codes(row[3], id.page / 16 % 16)
    && Codes(row[4], id.subpage % 16) && Codes(row[5], id.subpage / 16 + if erase then 8 else 0)
    && AnyCode(row[6]) && AnyCode(row[7])
  }

  lemma AnyCodeBack(b: byte)
    requires AnyCode(b)
    ensures Dehamming(b as nat) != X
  {
    hide Dehamming, Codes;
    var d: nat :| d < 16 && Codes(b, d);
    CodesBack(b, d);
  }

  lemma PageParts(id: PageId)
    requires id.InTable()
    ensures id.page == id.page / 0x100 * 256 + id.page / 16 % 16 * 16 + id.page % 16 && 1 <= id.page / 0x100 <= 8
    ensures id.subpage == id.subpage / 16 % 8 * 16 + id.subpage % 16 && id.subpage / 16 < 8
    ensures id.page % 256 == id.page / 16 % 16 * 16 + id.page % 16
    ensures IsDec(id.page) <==> Decimal(id.page)
  {
    var p := id.page;
    assert p / 16 == p / 256 * 16 + p / 16 % 16;
  }

  /** A header is read as the page it was sent for. */
  lemma HeaderBack(row: Row, id: PageId, erase: bool)
    requires Sendable(id) && HeaderSent(row, id, erase)
    ensures Parse(row) == Header(id.page / 0x100, id, erase)
  {
    hide Dehamming, Codes, AnyCode, Addressed, MagazineOf, IsDec, Decimal;
    PageParts(id);
    AddressBack(row, id.page / 0x100, 0);
    CodesBack(row[2], id.page % 16);
    CodesBack(row[3], id.page / 16 % 16);
    CodesBack(row[4], id.subpage % 16);
    CodesBack(row[5], id.subpage / 16 + if erase then 8 else 0);
    AnyCodeBack(row[6]);
    AnyCodeBack(row[7]);
  }

  /** A header announces no page exactly when one of its six bytes cannot be corrected or it has the number FF. */
  lemma HeaderLostExactly(row: Row, m: nat)
    requires 1 <= m <= 8 && Addressed(row, m, 0)
    ensures Parse(row) == NoPage(m) <==>
      || (exists i :: 2 <= i <= 7 && Dehamming(row[i] as nat) == X)
      || (Dehamming(row[2] as nat) == 15 && Dehamming(row[3] as nat) == 15)
  {
    hide Dehamming, Codes;
    AddressBack(row, m, 0);
    assert (forall i :: 2 <= i <= 7 ==> Dehamming(row[i] as nat) != X) ==>
      NamesPage(row) || (Dehamming(row[2] as nat) == 15 && Dehamming(row[3] as nat) == 15);
  }

  // ----- rows of characters

  /** A character as it arrives and what is to be shown of it: itself, or a space if one bit of it was inverted. */
  ghost predicate CharacterSent(b: byte, c: byte, shown: byte)
    requires c < 128
  {
    if b as nat == WithParity(c as nat) then shown == c else OneBitOff(b, WithParity(c as nat)) && shown == SPACE
  }

  lemma CharacterBack(b: byte, c: byte, shown: byte)
    requires c < 128 && CharacterSent(b, c, shown)
    ensures Deparity(b) == shown
  {
    hide Deparity, WithParity, Flip;
    ParityChecked(c as nat, 0);
    if b as nat != WithParity(c as nat) {
      var w := WithParity(c as nat);
      var k: nat :| k < 8 && b as nat == Flip(w, k);
      ParityChecked(c as nat, k);
    }
  }

  /** A byte of a row: a character on a page with a decimal number, four bits on page FE of a magazine, any byte on others. */
  ghost predicate ByteSent(page: int, b: byte, c: byte, shown: byte) {
    if Decimal(page) then c < 128 && CharacterSent(b, c, shown)
    else if page % 0x100 == 0xfe then c < 16 && Codes(b, c as nat) && shown == c
    else b == c == shown
  }

  lemma ByteBack(page: int, b: byte, c: byte, shown: byte)
    requires ByteSent(page, b, c, shown) && (IsDec(page) <==> Decimal(page))
    ensures DecodedByte(page, b) == shown
  {
    hide Deparity, Dehamming, IsDec, Decimal, CharacterSent, Codes;
    if IsDec(page) {
      CharacterBack(b, c, shown);
    } else if page % 0x100 == 0xfe {
      CodesBack(b, c as nat);
    }
  }

  /** A row of 40 characters or other bytes, and what is to be shown of them. */
  ghost predicate TextSent(page: int, row: Row, text: seq<byte>, shown: seq<byte>) {
    && |text| == |shown| == COLUMNS
    && forall j :: 0 <= j < COLUMNS ==> ByteSent(page, row[2 + j], text[j], shown[j])
  }

  lemma TextBack(page: int, row: Row, text: seq<byte>, shown: seq<byte>)
    requires TextSent(page, row, text, shown) && (IsDec(page) <==> Decimal(page))
    ensures Decoded(page, row[2..]) == shown
  {
    hide DecodedByte, ByteSent, IsDec, Decimal;
    forall j | 0 <= j < COLUMNS
      ensures DecodedByte(page, row[2..][j]) == shown[j]
    {
      ByteBack(page, row[2 + j], text[j], shown[j]);
    }
  }

  // ----- a page

  /** What comes behind the header of a page: its rows in any order and any number of times, other packets of its magazine
      that are no rows, and any packets of the other magazines. */
  datatype Item = Text(number: nat, text: seq<byte>, shown: seq<byte>) | Elsewhere(magazine: nat, number: nat)

  ghost predicate Arrives(row: Row, m: nat, page: int, item: Item)
    requires 1 <= m <= 8
  {
    match item
    case Text(n, text, shown) => 1 <= n <= 23 && Addressed(row, m, n) && TextSent(page, row, text, shown)
    case Elsewhere(k, n) => 1 <= k <= 8 && n < 32 && (k != m || n >= 24) && Addressed(row, k, n)
  }

  /** What is to be shown of row n: its last copy. */
  function LastText(items: seq<Item>, n: nat): Option<seq<byte>> {
    if items == [] then None
    else
      var last := items[|items| - 1];
      if last.Text? && last.number == n then Some(last.shown) else LastText(items[..|items| - 1], n)
  }

  lemma ItemBack(row: Row, m: nat, page: int, item: Item)
    requires 1 <= m <= 8 && Arrives(row, m, page, item)
    ensures KeepsPage(Parse(row), m)
    ensures item.Text? ==> Parse(row) == Line(m, item.number, row[2..])
    ensures item.Elsewhere? ==> !(Parse(row).Line? && Parse(row).magazine == m)
  {
    hide Dehamming, Addressed, TextSent, MagazineOf, Parse, NamesPage, Codes;
    match item
    case Text(n, _, _) => AddressBack(row, m, n);
    case Elsewhere(k, n) => AddressBack(row, k, n);
  }

  /** The last packet of row n in the packets is the last copy of it among the items. */
  lemma {:induction false} LastTextBack(rows: seq<Row>, items: seq<Item>, m: nat, n: nat, page: int)
    requires 1 <= m <= 8 && 1 <= n <= 23 && (IsDec(page) <==> Decimal(page)) && |rows| == |items|
    requires forall i :: 0 <= i < |rows| ==> Arrives(rows[i], m, page, items[i])
    ensures forall p :: p in Packets(rows) ==> KeepsPage(p, m)
    ensures var last := LastLine(Packets(rows), m, n);
      match LastText(items, n) case Some(shown) => last.Some? && Decoded(page, last.value) == shown case None => last == None
  {
    hide Arrives, Parse, KeepsPage, Decoded, IsDec, Decimal;
    if rows != [] {
      var k := |rows| - 1;
      LastTextBack(rows[..k], items[..k], m, n, page);
      ItemBack(rows[k], m, page, items[k]);
      assert Packets(rows)[..k] == Packets(rows[..k]);
      assert Packets(rows) == Packets(rows[..k]) + [Parse(rows[k])];
      if items[k].Text? {
        RowText(rows[k], m, page, items[k]);
        TextBack(page, rows[k], items[k].text, items[k].shown);
      }
    }
  }

  lemma RowText(row: Row, m: nat, page: int, item: Item)
    requires 1 <= m <= 8 && item.Text? && Arrives(row, m, page, item)
    ensures TextSent(page, row, item.text, item.shown)
  {
  }

  lemma {:induction false} RunFirst(s: Pages, header: Row, rows: seq<Row>)
    ensures Run(s, Packets([header] + rows)) == Run(Step(s, Parse(header)), Packets(rows))
  {
    hide Parse, Step, Run, Packets;
    if rows == [] {
      RunNothing(s);
      RunNothing(Step(s, Parse(header)));
      RunOneMore(s, [], header);
      assert [header] + rows == [] + [header];
    } else {
      var k := |rows| - 1;
      RunFirst(s, header, rows[..k]);
      RunOneMore(s, [header] + rows[..k], rows[k]);
      assert [header] + rows == [header] + rows[..k] + [rows[k]];
      RunOneMore(Step(s, Parse(header)), rows[..k], rows[k]);
      assert rows == rows[..k] + [rows[k]];
    }
  }

  /** What a page of 23 rows of 40 characters shows after its header and the packets behind it. */
  ghost predicate Shows(e: Pages, s: Pages, id: PageId, erase: bool, items: seq<Item>) {
    && id in e.images
    && forall n, j :: 1 <= n <= 23 && 0 <= j < COLUMNS ==> ShowsAt(e, s, id, erase, items, n, j)
  }

  ghost predicate ShowsAt(e: Pages, s: Pages, id: PageId, erase: bool, items: seq<Item>, n: nat, j: nat)
    requires 1 <= n <= 23 && 0 <= j < COLUMNS
  {
    id in e.images && e.images[id][40 * (n - 1) + j] ==
      match LastText(items, n)
      case Some(shown) => if j < |shown| then shown[j] else SPACE
      case None => if erase || id !in s.images then SPACE else s.images[id][40 * (n - 1) + j]
  }

  /** A header and what comes behind it. */
  ghost predicate PageSent(header: Row, rows: seq<Row>, id: PageId, erase: bool, items: seq<Item>) {
    && Sendable(id) && HeaderSent(header, id, erase) && |rows| == |items|
    && forall i :: 0 <= i < |rows| ==> Arrives(rows[i], id.page / 0x100, id.page, items[i])
  }

  /** A page as it is sent is a page as it is shown: each row the last copy of it that came behind the header, and otherwise
      what it was, or spaces when the page is new or was to be erased. */
  lemma PageBack(s: Pages, header: Row, rows: seq<Row>, id: PageId, erase: bool, items: seq<Item>)
    requires s.Valid() && PageSent(header, rows, id, erase, items)
    ensures Shows(Run(s, Packets([header] + rows)), s, id, erase, items)
  {
    hide Parse, Arrives, Decimal, IsDec, Decoded, LastText, LastLine, HeaderSent, Packets, Run, ShowsAt;
    PageParts(id);
    HeaderBack(header, id, erase);
    RunFirst(s, header, rows);
    var s1 := Step(s, Parse(header));
    StepValid(s, Parse(header));
    forall n, j | 1 <= n <= 23 && 0 <= j < COLUMNS
      ensures id in Run(s1, Packets(rows)).images && ShowsAt(Run(s1, Packets(rows)), s, id, erase, items, n, j)
    {
      PageRowBack(s, s1, rows, id, erase, items, n, j);
      SomewhereShown(Run(s1, Packets(rows)), s, id, erase, items, n, j);
    }
    assert ShowsAt(Run(s1, Packets(rows)), s, id, erase, items, 1, 0);
  }

  lemma SomewhereShown(e: Pages, s: Pages, id: PageId, erase: bool, items: seq<Item>, n: nat, j: nat)
    requires 1 <= n <= 23 && 0 <= j < COLUMNS && ShowsAt(e, s, id, erase, items, n, j)
    ensures id in e.images
  {
  }

  lemma PageRowBack(s: Pages, s1: Pages, rows: seq<Row>, id: PageId, erase: bool, items: seq<Item>, n: nat, j: nat)
    requires s.Valid() && s1.Valid() && id.InTable() && |rows| == |items| && 1 <= n <= 23 && j < COLUMNS
    requires s1 == Step(s, Header(id.page / 0x100, id, erase))
    requires forall i :: 0 <= i < |rows| ==> Arrives(rows[i], id.page / 0x100, id.page, items[i])
    ensures ShowsAt(Run(s1, Packets(rows)), s, id, erase, items, n, j)
  {
    hide Arrives, IsDec, Decimal, Decoded, LastText, LastLine, Packets, Run;
    var m := id.page / 0x100;
    PageParts(id);
    LastTextBack(rows, items, m, n, id.page);
    RowsAsReceived(s1, Packets(rows), m, n);
    var e := Run(s1, Packets(rows));
    assert LineOf(e.images[id], n)[j] == e.images[id][40 * (n - 1) + j];
    assert LineOf(s1.images[id], n)[j] == s1.images[id][40 * (n - 1) + j];
  }

  /** The cache shows a page as it was sent. */
  method ReceivePage(cache: Cache, header: Row, rows: seq<Row>, shown: seq<int>, ghost id: PageId, ghost erase: bool, ghost items: seq<Item>)
    requires cache.Valid() && PageSent(header, rows, id, erase, items)
    requires |shown| == |rows| + 1 && forall i :: 0 <= i < |shown| ==> shown[i] != -1
    modifies cache, cache.pagedata, cache.cachetable.Values
    ensures cache.Valid() && Shows(cache.Showing(), old(cache.Showing()), id, erase, items)
  {
    ShowingValid(cache);
    hide Cache.Valid, Cache.Showing, PageSent, Packets, Run, Shows;
    PageBack(cache.Showing(), header, rows, id, erase, items);
    cache.CacheThread([header] + rows, shown);
  }

  lemma ShowingValid(cache: Cache)
    requires cache.Valid()
    ensures cache.Showing().Valid()
  {
    hide Cache.Shaped, Cache.Contents;
  }
}
