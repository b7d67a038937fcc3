/** What a stream of teletext packets means: a map of pages, each a 23-row image, and the page each magazine is sending. */
module TeletextPackets {
  import opened Collections
  import opened Octets
  import opened PageCompression
  import opened TeletextCodes

  const ROW_BYTES: nat := 42
  const COLUMNS: nat := 40

  datatype PageId = PageId(page: int, subpage: int) {
    /** Magazines 1 to 8, two digits of page number, seven bits of subpage number. */
    predicate InTable() {
      0x100 <= page < 0x900 && 0 <= subpage < 0x80
    }

    function Magazine(): int { page / 256 }
  }

  predicate IsDec(page: int) {
    page % 16 <= 9 && page / 16 % 16 <= 9
  }

  type Image = s: seq<byte> | |s| == PAGE_BYTES witness seq(PAGE_BYTES, _ => SPACE)

  type Row = s: seq<byte> | |s| == ROW_BYTES witness seq(ROW_BYTES, _ => SPACE)

  datatype Packet =
    | Unreadable
    | NoPage(magazine: int)
    | Header(magazine: int, id: PageId, erase: bool)
    | Line(magazine: int, number: nat, bytes: seq<byte>)
    | Other(magazine: int)
  {
    predicate Valid() {
      match this
      case Header(m, id, _) => id.InTable() && id.Magazine() == m && 1 <= m <= 8
      case Line(m, n, bytes) => 1 <= n <= 23 && |bytes| == COLUMNS && 1 <= m <= 8
      case Unreadable => true
      case NoPage(m) => 1 <= m <= 8
      case Other(m) => 1 <= m <= 8
    }

    predicate Concerns(m: int) {
      !Unreadable? && magazine == m
    }
  }

  function MagazineOf(row: Row): (m: nat)
    ensures 1 <= m <= 8
  {
    var m := Dehamming(row[0] as nat) % 8;
    if m == 0 then 8 else m
  }

  function NumberOf(row: Row): nat {
    Dehamming(row[0] as nat) % 16 / 8 + 2 * Dehamming(row[1] as nat)
  }

  function PageOf(row: Row): int {
    MagazineOf(row) * 256 + Dehamming(row[3] as nat) * 16 + Dehamming(row[2] as nat)
  }

  function SubpageOf(row: Row): int {
    var low := Dehamming(row[4] as nat);
    if IsDec(PageOf(row)) then Dehamming(row[5] as nat) % 8 * 16 + low else low
  }

  /** Both digits of the page number and all of the subpage code can be read, and the page is not xFF. */
  predicate NamesPage(row: Row) {
    && Dehamming(row[3] as nat) != X && Dehamming(row[2] as nat) != X
    && !(Dehamming(row[3] as nat) == 15 && Dehamming(row[2] as nat) == 15)
    && Dehamming(row[7] as nat) != X && Dehamming(row[6] as nat) != X
    && Dehamming(row[5] as nat) != X && Dehamming(row[4] as nat) != X
  }

  /** What the header row of a magazine announces. */
  function ParseHeader(row: Row): (p: Packet)
    ensures p.Valid() && (p.NoPage? || p.Header?) && p.magazine == MagazineOf(row)
  {
    var m := MagazineOf(row);
    if NamesPage(row) then Header(m, PageId(PageOf(row), SubpageOf(row)), Dehamming(row[5] as nat) >= 8) else NoPage(m)
  }

  /** One of the rows 1 to 23. */
  function LineIn(row: Row, n: nat): (p: Packet)
    requires 1 <= n <= 23
    ensures p.Valid()
  {
    Line(MagazineOf(row), n, row[2..])
  }

  /** The packet in a row with a readable address. */
  function Numbered(n: nat, row: Row): (p: Packet)
    ensures p.Valid()
  {
    if n == 0 then ParseHeader(row)
    else if n <= 23 then LineIn(row, n)
    else Other(MagazineOf(row))
  }

  /** The packet in a row. */
  function Parse(row: Row): (p: Packet)
    ensures p.Valid()
  {
    if Dehamming(row[0] as nat) == X || Dehamming(row[1] as nat) == X then Unreadable else Numbered(NumberOf(row), row)
  }

  /** The bytes of a row as they are shown: parity removed, or four bits each in a magazine organisation table, or as sent. */
  function Decoded(page: int, bytes: seq<byte>): (line: seq<byte>)
    ensures |line| == |bytes|
  {
    seq(|bytes|, i requires 0 <= i < |bytes| => DecodedByte(page, bytes[i]))
  }

  function DecodedByte(page: int, b: byte): byte {
    if IsDec(page) then Deparity(b)
    else if page % 256 == 0xfe then Dehamming(b as nat) as byte
    else b
  }

  function WithLine(image: Image, n: nat, line: seq<byte>): Image
    requires 1 <= n <= 23 && |line| == COLUMNS
  {
    image[..40 * (n - 1)] + line + image[40 * n..]
  }

  function LineOf(image: Image, n: nat): seq<byte>
    requires 1 <= n <= 23
  {
    image[40 * (n - 1)..40 * n]
  }

  datatype Pages = Pages(images: map<PageId, Image>, current: map<int, PageId>) {
    /** The page a magazine is sending is in the map and belongs to that magazine. */
    ghost predicate Valid() {
      && (forall id :: id in images ==> id.InTable())
      && (forall m :: m in current ==> 1 <= m <= 8 && current[m] in images && current[m].Magazine() == m)
    }
  }

  function Step(s: Pages, p: Packet): Pages
    requires p.Valid()
  {
    match p
    case Unreadable => s
    case Other(_) => s
    case NoPage(m) => s.(current := s.current - {m})
    case Header(m, id, erase) =>
      Pages(s.images[id := if erase || id !in s.images then Blank() else s.images[id]], s.current[m := id])
    case Line(m, n, bytes) =>
      if m in s.current && s.current[m] in s.images then
        var id := s.current[m];
        s.(images := s.images[id := WithLine(s.images[id], n, Decoded(id.page, bytes))])
      else s
  }

  function Run(s: Pages, ps: seq<Packet>): Pages
    requires forall p :: p in ps ==> p.Valid()
  {
    if ps == [] then s else Step(Run(s, ps[..|ps| - 1]), ps[|ps| - 1])
  }

  function Packets(rows: seq<Row>): (ps: seq<Packet>)
    ensures |ps| == |rows| && forall p :: p in ps ==> p.Valid()
  {
    if rows == [] then [] else Packets(rows[..|rows| - 1]) + [Parse(rows[|rows| - 1])]
  }

  lemma StepValid(s: Pages, p: Packet)
    requires s.Valid() && p.Valid()
    ensures Step(s, p).Valid()
  {
  }

  lemma {:induction false} RunValid(s: Pages, ps: seq<Packet>)
    requires s.Valid() && forall p :: p in ps ==> p.Valid()
    ensures Run(s, ps).Valid()
  {
    if ps != [] {
      RunValid(s, ps[..|ps| - 1]);
      StepValid(Run(s, ps[..|ps| - 1]), ps[|ps| - 1]);
    }
  }

  /** A packet changes no image but that of the page its own magazine is sending afterwards. */
  lemma StepTouchesOnePage(s: Pages, p: Packet, id: PageId)
    requires s.Valid() && p.Valid()
    requires id in s.images && !(p.Concerns(id.Magazine()) && id.Magazine() in Step(s, p).current && Step(s, p).current[id.Magazine()] == id)
    ensures id in Step(s, p).images && Step(s, p).images[id] == s.images[id]
  {
  }

  // ----- magazines do not disturb one another

  function Only(ps: seq<Packet>, m: int): (r: seq<Packet>)
    ensures forall p :: p in r ==> p in ps
  {
    if ps == [] then []
    else
      var last := ps[|ps| - 1];
      Only(ps[..|ps| - 1], m) + if last.Concerns(m) then [last] else []
  }

  /** What belongs to one magazine. */
  ghost function Part(s: Pages, m: int): Pages {
    Pages(ImagesOf(s.images, m), map k | k in s.current && k == m :: s.current[k])
  }

  ghost function ImagesOf(images: map<PageId, Image>, m: int): map<PageId, Image> {
    map id | id in images && id.Magazine() == m :: images[id]
  }

  lemma ImagesOfUpdate(images: map<PageId, Image>, m: int, id: PageId, image: Image)
    ensures ImagesOf(images[id := image], m)
         == if id.Magazine() == m then ImagesOf(images, m)[id := image] else ImagesOf(images, m)
  {
  }

  lemma ImagesOfAt(images: map<PageId, Image>, m: int, id: PageId)
    ensures id.Magazine() == m ==>
      && (id in ImagesOf(images, m) <==> id in images)
      && (id in images ==> ImagesOf(images, m)[id] == images[id])
  {
  }

  lemma StepPart(s: Pages, p: Packet, m: int)
    requires s.Valid() && p.Valid()
    ensures Part(Step(s, p), m) == if p.Concerns(m) then Step(Part(s, m), p) else Part(s, m)
  {
    hide Step;
    StepPartCurrent(s, p, m);
    StepPartImages(s, p, m);
    var alone := if p.Concerns(m) then Step(Part(s, m), p) else Part(s, m);
    assert Part(Step(s, p), m) == Pages(alone.images, alone.current) == alone;
  }

  lemma StepPartCurrent(s: Pages, p: Packet, m: int)
    requires s.Valid() && p.Valid()
    ensures Part(Step(s, p), m).current == if p.Concerns(m) then Step(Part(s, m), p).current else Part(s, m).current
  {
    hide WithLine, Decoded, Blank;
  }

  lemma StepPartImages(s: Pages, p: Packet, m: int)
    requires s.Valid() && p.Valid()
    ensures Part(Step(s, p), m).images == if p.Concerns(m) then Step(Part(s, m), p).images else Part(s, m).images
  {
    hide WithLine, Decoded, Blank, ImagesOf;
    match p
    case Header(k, id, erase) =>
      ImagesOfUpdate(s.images, m, id, Step(s, p).images[id]);
      ImagesOfAt(s.images, m, id);
    case Line(k, n, bytes) =>
      if k in s.current {
        ImagesOfUpdate(s.images, m, s.current[k], Step(s, p).images[s.current[k]]);
        ImagesOfAt(s.images, m, s.current[k]);
      }
    case _ =>
  }

  /** However the packets of the magazines are interleaved, each magazine's pages are those of its own packets alone. */
  lemma {:induction false} MagazinesIndependent(s: Pages, ps: seq<Packet>, m: int)
    requires s.Valid() && forall p :: p in ps ==> p.Valid()
    ensures Part(Run(s, ps), m) == Run(Part(s, m), Only(ps, m))
  {
    hide Step, Part;
    if ps == [] {
      assert Run(s, ps) == s && Only(ps, m) == [];
    } else {
      var n := |ps| - 1;
      MagazinesIndependent(s, ps[..n], m);
      RunValid(s, ps[..n]);
      StepPart(Run(s, ps[..n]), ps[n], m);
      var only := Only(ps[..n], m);
      assert only + [] == only && (only + [ps[n]])[..|only|] == only;
    }
  }

  // ----- a page is the last copy of each of its rows

  predicate KeepsPage(p: Packet, m: int) {
    p.Concerns(m) ==> p.Line? || p.Other?
  }

  function LastLine(ps: seq<Packet>, m: int, n: nat): Option<seq<byte>> {
    if ps == [] then None
    else
      var last := ps[|ps| - 1];
      if last.Line? && last.magazine == m && last.number == n then Some(last.bytes) else LastLine(ps[..|ps| - 1], m, n)
  }

  lemma WithLineLines(image: Image, n: nat, line: seq<byte>, k: nat)
    requires 1 <= n <= 23 && 1 <= k <= 23 && |line| == COLUMNS
    ensures LineOf(WithLine(image, n, line), k) == if k == n then line else LineOf(image, k)
  {
    if k < n {
      assert 40 * k <= 40 * (n - 1);
    } else if k > n {
      assert 40 * n <= 40 * (k - 1);
    }
  }

  /** Until the next header of its magazine, each row of the page being sent is the last copy received, or what it was. */
  lemma {:induction false} RowsAsReceived(s: Pages, ps: seq<Packet>, m: int, n: nat)
    requires s.Valid() && m in s.current && 1 <= n <= 23
    requires forall p :: p in ps ==> p.Valid() && KeepsPage(p, m)
    ensures m in Run(s, ps).current && Run(s, ps).current[m] == s.current[m]
    ensures s.current[m] in Run(s, ps).images
    ensures LineOf(Run(s, ps).images[s.current[m]], n)
         == var last := LastLine(ps, m, n);
            if last.Some? then Decoded(s.current[m].page, last.value) else LineOf(s.images[s.current[m]], n)
  {
    hide LineOf, WithLine, Decoded, Blank;
    if ps != [] {
      var k := |ps| - 1;
      RowsAsReceived(s, ps[..k], m, n);
      RunValid(s, ps[..k]);
      var before, p := Run(s, ps[..k]), ps[k];
      assert p in ps && p.Valid() && KeepsPage(p, m);
      if p.Line? && p.magazine == m {
        WithLineLines(before.images[s.current[m]], p.number, Decoded(s.current[m].page, p.bytes), n);
      }
    }
  }
}
