/**
 The PDF file around a kit's page: nine objects, a cross-reference table of
 their positions (section 7.5.4 of ISO 32000-1) and a trailer.

 The objects are the catalog, the list of pages, the page, its content, four fonts
 and the title. A file is written front to back, and the position of each object
 is noted as it is written. A reader goes the other way: from the end of the file
 to the number of the table, from there to an entry, and from the entry to its
 object. Both directions are modelled, and proved to meet, for every content that
 keeps the file under ten thousand million bytes.
 */
module KitDocuments {
  import opened Common
  import opened Decimal
  import opened KitPages
  import opened ModularPower
  import opened PdfText

  const OBJECT_COUNT := 9
  const FONTS := 4

  /**
   A short piece of a file without a literal string. Pieces are joined from short
   literals: the verifier checks a literal character by character.
   */
  type Frame = b: CleanText | |b| <= 60

  /** A file header, whose second line marks the file as binary. */
  function Header(): (b: seq<byte>)
    ensures |b| <= 20 && Clean(b) && FileMark() <= b
  {
    Bytes("%PDF-1.7\n%") + [0xe2, 0xe3, 0xcf, 0xd3, 10]
  }

  /** What every PDF file starts with. */
  function FileMark(): (b: seq<byte>)
    ensures |b| == 5
  {
    Bytes("%PDF-")
  }

  function FontName(i: nat): Frame {
    Bytes(
      if i == 0 then "Helvetica" else if i == 1 then "Helvetica-Bold"
      else if i == 2 then "Courier" else "Courier-Bold")
  }

  function FontHeadText(): Frame {
    Bytes("<< /Type /Font ") + Bytes("/Subtype /Type1 ") + Bytes("/Name /F")
  }

  function FontEndText(): Frame {
    Bytes(" /Encoding ") + Bytes("/WinAnsiEncoding >>")
  }

  /** A number in decimal. */
  function Number(n: nat): CleanText {
    Bytes(Numeral(n))
  }

  /** The dictionary of a font; the four are named F1 to F4. */
  function FontText(i: nat): CleanText
    requires i < FONTS
  {
    FontHeadText() + Number(i + 1) + Bytes(" /BaseFont /") + FontName(i) + FontEndText()
  }

  function CatalogText(): Frame {
    Bytes("<< /Type /Catalog ") + Bytes("/Pages 2 0 R >>")
  }

  function KidsText(): Frame {
    Bytes("/Kids [3 0 R] ") + Bytes("/Count 1 >>")
  }

  function PagesHead(): Frame {
    Bytes("<< /Type /Pages ")
  }

  function PagesText(): CleanText {
    PagesHead() + KidsText()
  }

  function PageHeadText(): Frame {
    Bytes("<< /Type /Page ") + Bytes("/Parent 2 0 R ")
  }

  function MediaBoxText(): Frame {
    Bytes("/MediaBox ") + Bytes("[0 0 595 842] ")
  }

  function ResourcesText(): Frame {
    Bytes("/Resources << ") + Bytes("/Font << /F1 5 0 R ")
  }

  function MoreFontsText(): Frame {
    Bytes("/F2 6 0 R /F3 7 0 R ") + Bytes("/F4 8 0 R ")
  }

  function PageEndText(): Frame {
    Bytes(">> >> ") + Bytes("/Contents 4 0 R >>")
  }

  function PageText(): CleanText {
    PageHeadText() + MediaBoxText() + ResourcesText() + MoreFontsText() + PageEndText()
  }

  function Producer(): Frame {
    Bytes("Zvault")
  }

  function TitleHead(): Frame {
    Bytes("<< /Title ")
  }

  function ProducerHead(): Frame {
    Bytes(" /Producer ")
  }

  function InfoEnd(): Frame {
    Bytes(" >>")
  }

  /** Nothing personal: no author, subject or dates. */
  function InfoText(): seq<byte> {
    TitleHead() + ([OPEN] + Title() + [CLOSE]) + ProducerHead() + ([OPEN] + Producer() + [CLOSE]) + InfoEnd()
  }

  function StreamHead(length: nat): CleanText {
    Bytes("<< /Length ") + Number(length) + Bytes(" >>\nstream\n")
  }

  function StreamEnd(): Frame {
    Bytes("\nendstream")
  }

  function ContentText(content: seq<byte>): seq<byte> {
    StreamHead(|content|) + content + StreamEnd()
  }

  /** What stands in the n-th object. */
  function ObjectText(content: seq<byte>, n: nat): seq<byte>
    requires 1 <= n <= OBJECT_COUNT
  {
    if n == 1 then CatalogText()
    else if n == 2 then PagesText()
    else if n == 3 then PageText()
    else if n == 4 then ContentText(content)
    else if n < 9 then FontText(n - 5)
    else InfoText()
  }

  function ObjectMark(n: nat): CleanText {
    Number(n) + Bytes(" 0 obj\n")
  }

  function ObjectEnd(): Frame {
    Bytes("\nendobj\n")
  }

  function Object(n: nat, text: seq<byte>): seq<byte> {
    ObjectMark(n) + text + ObjectEnd()
  }

  /** The header and the first n objects. */
  function Body(content: seq<byte>, n: nat): seq<byte>
    requires n <= OBJECT_COUNT
  {
    if n == 0 then Header() else Body(content, n - 1) + Object(n, ObjectText(content, n))
  }

  function TableHead(): (b: seq<byte>)
    ensures |b| == 30 && Clean(b)
  {
    Bytes("xref\n0 10\n") + Bytes("0000000000 65535 f \n")
  }

  function EntryEnd(): (b: seq<byte>)
    ensures |b| == 10 && Clean(b)
  {
    Bytes(" 00000 n \n")
  }

  function Entry(offset: nat): CleanText {
    Bytes(ZeroPadded(offset, 10)) + EntryEnd()
  }

  function Entries(offsets: seq<nat>): CleanText {
    if offsets == [] then [] else Entries(offsets[..|offsets| - 1]) + Entry(offsets[|offsets| - 1])
  }

  function TrailerHead(): Frame {
    Bytes("trailer\n<< /Size 10 ") + Bytes("/Root 1 0 R ")
  }

  function InfoReference(): Frame {
    Bytes("/Info 9 0 R >>\n")
  }

  function XrefMark(): Frame {
    Bytes("startxref\n")
  }

  function TrailerEnd(): Frame {
    Bytes("\n%%EOF\n")
  }

  function Trailer(xref: nat): CleanText {
    TrailerHead() + InfoReference() + XrefMark() + Number(xref) + TrailerEnd()
  }

  function Offsets(content: seq<byte>): (offsets: seq<nat>)
    ensures |offsets| == OBJECT_COUNT
  {
    seq(OBJECT_COUNT, i requires 0 <= i < OBJECT_COUNT => |Body(content, i)|)
  }

  function Document(content: seq<byte>): seq<byte> {
    Body(content, OBJECT_COUNT) + TableHead() + Entries(Offsets(content)) + Trailer(|Body(content, OBJECT_COUNT)|)
  }

  // ---------------------------------------------------------------- the objects as they read

  lemma Spell(a: string, b: string)
    ensures Bytes(a + b) == Bytes(a) + Bytes(b)
  {
  }

  /** The catalog leads to the pages, and these to the page. */
  lemma CatalogAndPages()
    ensures CatalogText() == Bytes("<< /Type /Catalog " + "/Pages 2 0 R >>")
    ensures PagesText() == Bytes("<< /Type /Pages " + "/Kids [3 0 R] /Count 1 >>")
  {
    hide Bytes;
    Spell("<< /Type /Catalog ", "/Pages 2 0 R >>");
    Spell("/Kids [3 0 R] ", "/Count 1 >>");
    Spell("<< /Type /Pages ", "/Kids [3 0 R] " + "/Count 1 >>");
    assert "/Kids [3 0 R] " + "/Count 1 >>" == "/Kids [3 0 R] /Count 1 >>";
  }

  /** The page names its parent, its size in points, its four fonts and its content. */
  lemma PageReads()
    ensures PageText() == Bytes("<< /Type /Page " + "/Parent 2 0 R ") + Bytes("/MediaBox " + "[0 0 595 842] ")
                          + Bytes("/Resources << " + "/Font << /F1 5 0 R ")
                          + Bytes("/F2 6 0 R /F3 7 0 R " + "/F4 8 0 R ") + Bytes(">> >> " + "/Contents 4 0 R >>")
  {
    hide Bytes;
    Spell("<< /Type /Page ", "/Parent 2 0 R ");
    Spell("/MediaBox ", "[0 0 595 842] ");
    Spell("/Resources << ", "/Font << /F1 5 0 R ");
    Spell("/F2 6 0 R /F3 7 0 R ", "/F4 8 0 R ");
    Spell(">> >> ", "/Contents 4 0 R >>");
  }

  /** The content stands in a stream whose length is the number written before it. */
  lemma StreamReads(content: seq<byte>)
    ensures Value(Numeral(|content|)) == |content|
    ensures ContentText(content)
         == Bytes("<< /Length " + Numeral(|content|) + " >>\nstream\n") + content + Bytes("\nendstream")
  {
    hide Bytes, Numeral;
    NumeralValue(|content|);
    Spell("<< /Length ", Numeral(|content|));
    Spell("<< /Length " + Numeral(|content|), " >>\nstream\n");
  }

  /** The trailer names the size of the table, the catalog and the document's information. */
  lemma TrailerReads(xref: nat)
    ensures Trailer(xref) == Bytes("trailer\n<< /Size 10 " + "/Root 1 0 R ") + Bytes("/Info 9 0 R >>\n")
                             + Bytes("startxref\n") + Bytes(Numeral(xref)) + Bytes("\n%%EOF\n")
    ensures TableHead() == Bytes("xref\n0 10\n" + "0000000000 65535 f \n")
  {
    hide Bytes, Numeral;
    Spell("trailer\n<< /Size 10 ", "/Root 1 0 R ");
    Spell("xref\n0 10\n", "0000000000 65535 f \n");
  }

  // ---------------------------------------------------------------- writing

  /** Appends an object and notes where it starts. */
  method AppendObject(out: seq<byte>, offsets: array<nat>, n: nat, text: seq<byte>) returns (r: seq<byte>)
    requires 1 <= n <= offsets.Length
    modifies offsets
    ensures r == out + Object(n, text)
    ensures offsets[..] == old(offsets[..])[n - 1 := |out|]
  {
    hide ObjectEnd, ObjectMark;
    offsets[n - 1] := |out|;
    Associative(out, ObjectMark(n), text);
    Associative(out, ObjectMark(n) + text, ObjectEnd());
    r := out + ObjectMark(n) + text + ObjectEnd();
  }

  /** The objects written so far stand where the table will say. */
  ghost predicate Recorded(content: seq<byte>, out: seq<byte>, offsets: seq<nat>, n: nat) {
    && n <= OBJECT_COUNT == |offsets|
    && out == Body(content, n)
    && offsets[..n] == Offsets(content)[..n]
  }

  lemma RecordNext(content: seq<byte>, out: seq<byte>, offsets: seq<nat>, n: nat)
    requires n < OBJECT_COUNT && Recorded(content, out, offsets, n)
    ensures Recorded(content, out + Object(n + 1, ObjectText(content, n + 1)), offsets[n := |out|], n + 1)
  {
    hide Object, ObjectText, Header;
    var next := offsets[n := |out|];
    assert next[..n + 1] == offsets[..n] + [|out|];
    assert Offsets(content)[..n + 1] == Offsets(content)[..n] + [|Body(content, n)|];
  }

  method WriteDocument(content: seq<byte>) returns (out: seq<byte>)
    ensures out == Document(content)
  {
    hide Recorded, Object, Body, Entries, Trailer, TableHead, Offsets;
    hide Header, CatalogText, PagesText, PageText, ContentText, FontText, InfoText;
    var offsets := new nat[OBJECT_COUNT](_ => 0);
    out := Header();
    assert Recorded(content, out, offsets[..], 0) by { Starts(content, offsets[..]); }
    RecordNext(content, out, offsets[..], 0);
    out := AppendObject(out, offsets, 1, CatalogText());
    RecordNext(content, out, offsets[..], 1);
    out := AppendObject(out, offsets, 2, PagesText());
    RecordNext(content, out, offsets[..], 2);
    out := AppendObject(out, offsets, 3, PageText());
    RecordNext(content, out, offsets[..], 3);
    out := AppendObject(out, offsets, 4, ContentText(content));
    var font := 0;
    while font < FONTS
      invariant 0 <= font <= FONTS
      invariant Recorded(content, out, offsets[..], 4 + font)
    {
      RecordNext(content, out, offsets[..], 4 + font);
      out := AppendObject(out, offsets, 5 + font, FontText(font));
      font := font + 1;
    }
    RecordNext(content, out, offsets[..], 8);
    out := AppendObject(out, offsets, 9, InfoText());
    AllRecorded(content, out, offsets[..]);
    var xref := |out|;
    out := out + TableHead();
    ghost var start := out;
    var i := 0;
    assert offsets[..0] == [];
    NoEntries();
    assert start + [] == start;
    while i < OBJECT_COUNT
      invariant 0 <= i <= OBJECT_COUNT
      invariant offsets[..] == Offsets(content)
      invariant out == start + Entries(offsets[..i])
    {
      EntriesGrow(offsets[..], i);
      Associative(start, Entries(offsets[..i]), Entry(offsets[i]));
      out := out + Entry(offsets[i]);
      i := i + 1;
    }
    assert offsets[..i] == offsets[..];
    out := out + Trailer(xref);
  }

  lemma Starts(content: seq<byte>, offsets: seq<nat>)
    requires |offsets| == OBJECT_COUNT
    ensures Recorded(content, Header(), offsets, 0)
  {
    hide Header;
  }

  lemma AllRecorded(content: seq<byte>, out: seq<byte>, offsets: seq<nat>)
    requires Recorded(content, out, offsets, OBJECT_COUNT)
    ensures out == Body(content, OBJECT_COUNT) && offsets == Offsets(content)
  {
    hide Body;
    assert offsets[..OBJECT_COUNT] == offsets && Offsets(content)[..OBJECT_COUNT] == Offsets(content);
  }

  lemma NoEntries()
    ensures Entries([]) == []
  {
  }

  lemma EntriesGrow(offsets: seq<nat>, i: nat)
    requires i < |offsets|
    ensures Entries(offsets[..i + 1]) == Entries(offsets[..i]) + Entry(offsets[i])
  {
    hide Entry;
    assert offsets[..i + 1][..i] == offsets[..i];
  }

  // ---------------------------------------------------------------- the table leads to the objects

  lemma {:induction false} EntriesAt(offsets: seq<nat>, i: nat)
    requires forall k :: 0 <= k < |offsets| ==> |Entry(offsets[k])| == 20
    requires i < |offsets|
    ensures |Entries(offsets)| == 20 * |offsets|
    ensures Entries(offsets)[20 * i..20 * i + 20] == Entry(offsets[i])
  {
    hide Entry;
    var n := |offsets| - 1;
    if n > 0 {
      EntriesAt(offsets[..n], if i < n then i else 0);
    }
    var before, last := Entries(offsets[..n]), Entry(offsets[n]);
    assert |before| == 20 * n;
    if i < n {
      assert (before + last)[20 * i..20 * i + 20] == before[20 * i..20 * i + 20];
    } else {
      assert (before + last)[20 * i..20 * i + 20] == last;
    }
  }

  lemma EntryLength(offset: nat)
    requires offset < Pow(10, 10)
    ensures |Entry(offset)| == 20
  {
    PaddedExact(offset, 10);
  }

  lemma {:induction false} BodyGrows(content: seq<byte>, m: nat, n: nat)
    requires m <= n <= OBJECT_COUNT
    ensures Body(content, m) <= Body(content, n)
  {
    hide Header, Object, ObjectText;
    if m < n {
      BodyGrows(content, m, n - 1);
    }
  }

  function Chars(b: seq<byte>): string {
    seq(|b|, i requires 0 <= i < |b| => b[i] as char)
  }

  predicate AsciiOnly(s: string) {
    forall i :: 0 <= i < |s| ==> s[i] as int < 128
  }

  lemma CharsOfBytes(s: string)
    requires AsciiOnly(s)
    ensures Chars(Bytes(s)) == s
  {
  }

  /** Where a reader that trusts the table at `xref` looks for object n: the ten digits of its entry. */
  function Lookup(pdf: seq<byte>, xref: nat, n: nat): Option<nat> {
    var at := xref + 10 + 20 * n;
    if at + 10 > |pdf| then None
    else Parse(Chars(pdf[at..at + 10]), Pow(10, 10))
  }

  lemma LookupEntry(pdf: seq<byte>, xref: nat, n: nat, offset: nat)
    requires offset < Pow(10, 10)
    requires xref + 10 + 20 * n + 20 <= |pdf| && pdf[xref + 10 + 20 * n..xref + 10 + 20 * n + 20] == Entry(offset)
    ensures Lookup(pdf, xref, n) == Some(offset)
  {
    hide Chars, Parse, Pow, ZeroPadded;
    var at := xref + 10 + 20 * n;
    PaddedReads(offset);
    assert pdf[at..at + 10] == pdf[at..at + 20][..10];
  }

  lemma PaddedReads(offset: nat)
    requires offset < Pow(10, 10)
    ensures Entry(offset)[..10] == Bytes(ZeroPadded(offset, 10))
    ensures Parse(Chars(Bytes(ZeroPadded(offset, 10))), Pow(10, 10)) == Some(offset)
  {
    var digits := ZeroPadded(offset, 10);
    PaddedExact(offset, 10);
    assert AsciiOnly(digits) by {
      forall i | 0 <= i < |digits| ensures digits[i] as int < 128 {
        assert IsDigit(digits[i]);
      }
    }
    CharsOfBytes(digits);
    assert IsDigit(digits[0]);
    DigitsAll(digits);
  }

  // How a reader finds the table: the number between the last marks of the file.

  predicate EndsWith(b: seq<byte>, mark: seq<byte>) {
    |mark| <= |b| && b[|b| - |mark|..] == mark
  }

  predicate DigitByte(b: byte) {
    48 <= b <= 57
  }

  /** How many digits some bytes end with. */
  function DigitRun(b: seq<byte>): (n: nat)
    ensures n <= |b|
  {
    if b != [] && DigitByte(b[|b| - 1]) then 1 + DigitRun(b[..|b| - 1]) else 0
  }

  function StartXref(pdf: seq<byte>): Option<nat> {
    if !EndsWith(pdf, TrailerEnd()) then None
    else
      var b := pdf[..|pdf| - |TrailerEnd()|];
      var k := |b| - DigitRun(b);
      if EndsWith(b[..k], XrefMark()) then Parse(Chars(b[k..]), Pow(10, 10)) else None
  }

  lemma {:induction false} DigitRunIs(front: seq<byte>, digits: seq<byte>)
    requires front != [] && !DigitByte(front[|front| - 1])
    requires forall i :: 0 <= i < |digits| ==> DigitByte(digits[i])
    ensures DigitRun(front + digits) == |digits|
  {
    if digits == [] {
      assert front + digits == front;
    } else {
      DigitRunIs(front, digits[..|digits| - 1]);
      assert (front + digits)[..|front + digits| - 1] == front + digits[..|digits| - 1];
    }
  }

  lemma NumberReads(n: nat)
    ensures forall i :: 0 <= i < |Number(n)| ==> DigitByte(Number(n)[i])
    ensures Chars(Number(n)) == Numeral(n)
  {
    var digits := Numeral(n);
    forall i | 0 <= i < |digits| ensures digits[i] as int < 128 && DigitByte(Number(n)[i]) {
      assert IsDigit(digits[i]);
    }
    CharsOfBytes(digits);
  }

  lemma XrefMarkEnds()
    ensures XrefMark() != [] && !DigitByte(XrefMark()[|XrefMark()| - 1])
  {
  }

  /** The number in the trailer is read as it was written. */
  lemma StartXrefReads(front: seq<byte>, xref: nat)
    requires xref < Pow(10, 10)
    ensures StartXref(front + Trailer(xref)) == Some(xref)
  {
    hide Number, Chars, XrefMark, TrailerEnd, Parse, Pow, TrailerHead, InfoReference, DigitByte, StartXref;
    FiveJoined(front, TrailerHead(), InfoReference(), XrefMark(), Number(xref), TrailerEnd());
    NumberReads(xref);
    StartXrefOf(front + (TrailerHead() + InfoReference()), Number(xref));
    ParsePrinted(xref, Pow(10, 10));
  }

  lemma StartXrefOf(front: seq<byte>, digits: seq<byte>)
    requires forall i :: 0 <= i < |digits| ==> DigitByte(digits[i])
    ensures StartXref(front + XrefMark() + digits + TrailerEnd()) == Parse(Chars(digits), Pow(10, 10))
  {
    hide Chars, XrefMark, TrailerEnd, DigitRun, Parse, Pow, DigitByte;
    var before := front + XrefMark();
    XrefMarkEnds();
    LastPart(before + digits, TrailerEnd());
    LastPart(before, digits);
    LastPart(front, XrefMark());
    DigitRunIs(before, digits);
  }

  lemma LastPart(a: seq<byte>, b: seq<byte>)
    ensures (a + b)[|a + b| - |b|..] == b && (a + b)[..|a + b| - |b|] == a
    ensures b != [] ==> (a + b)[|a + b| - 1] == b[|b| - 1]
  {
  }

  lemma FiveJoined(front: seq<byte>, a: seq<byte>, b: seq<byte>, c: seq<byte>, d: seq<byte>, e: seq<byte>)
    ensures front + (a + b + c + d + e) == front + (a + b) + c + d + e
  {
  }

  lemma DocumentXref(content: seq<byte>)
    requires |Body(content, OBJECT_COUNT)| < Pow(10, 10)
    ensures StartXref(Document(content)) == Some(|Body(content, OBJECT_COUNT)|)
  {
    hide Body, Entries, Trailer, TableHead, Offsets, Pow, StartXref;
    var body := Body(content, OBJECT_COUNT);
    StartXrefReads(body + TableHead() + Entries(Offsets(content)), |body|);
  }

  /** A table at xref whose entry for n is this offset. */
  predicate HasEntry(pdf: seq<byte>, xref: nat, n: nat, offset: nat) {
    xref <= |pdf| && TableHead() <= pdf[xref..] && Lookup(pdf, xref, n) == Some(offset)
  }

  /** Following the trailer to the table, and the table's entry for n, leads to these bytes. */
  ghost predicate Leads(pdf: seq<byte>, n: nat, item: seq<byte>) {
    exists xref: nat, at: nat ::
      StartXref(pdf) == Some(xref) && HasEntry(pdf, xref, n, at) && at <= |pdf| && item <= pdf[at..]
  }

  lemma TableInDocument(content: seq<byte>, n: nat)
    requires 1 <= n <= OBJECT_COUNT && |Body(content, OBJECT_COUNT)| < Pow(10, 10)
    ensures HasEntry(Document(content), |Body(content, OBJECT_COUNT)|, n, |Body(content, n - 1)|)
  {
    hide Body, Entries, Trailer, TableHead, Lookup, Entry, Offsets, Pow;
    var pdf, body, offsets := Document(content), Body(content, OBJECT_COUNT), Offsets(content);
    EntryOf(content, n);
    Slices(body, TableHead(), Entries(offsets), Trailer(|body|), 20 * (n - 1));
    hide Document;
    LookupEntry(pdf, |body|, n, |Body(content, n - 1)|);
  }

  lemma EntryOf(content: seq<byte>, n: nat)
    requires 1 <= n <= OBJECT_COUNT && |Body(content, OBJECT_COUNT)| < Pow(10, 10)
    ensures var entries, at := Entries(Offsets(content)), |Body(content, n - 1)|;
            && |entries| == 20 * OBJECT_COUNT && at <= |Body(content, OBJECT_COUNT)|
            && entries[20 * (n - 1)..20 * n] == Entry(at)
  {
    hide Body, Entries, Entry, Offsets, Pow;
    var offsets := Offsets(content);
    forall k | 0 <= k < OBJECT_COUNT ensures |Entry(offsets[k])| == 20 {
      OffsetIs(content, k);
      EntryLength(offsets[k]);
    }
    OffsetIs(content, n - 1);
    EntriesAt(offsets, n - 1);
  }

  /** A reader that follows the trailer to the table, and the table's entry for n, finds object n. */
  lemma TableLeadsToObjects(content: seq<byte>, n: nat)
    requires 1 <= n <= OBJECT_COUNT && |Body(content, OBJECT_COUNT)| < Pow(10, 10)
    ensures Leads(Document(content), n, Object(n, ObjectText(content, n)))
  {
    hide Body, HasEntry, Object, ObjectText, Pow, StartXref, Entries, Trailer, Offsets, TableHead;
    DocumentXref(content);
    TableInDocument(content, n);
    BodyGrows(content, n - 1, OBJECT_COUNT);
    BodyGrows(content, n, OBJECT_COUNT);
    ObjectInBody(content, n, Document(content));
    var xref, at := |Body(content, OBJECT_COUNT)|, |Body(content, n - 1)|;
    assert StartXref(Document(content)) == Some(xref) && HasEntry(Document(content), xref, n, at);
  }

  lemma OffsetIs(content: seq<byte>, k: nat)
    requires k < OBJECT_COUNT
    ensures Offsets(content)[k] == |Body(content, k)| <= |Body(content, OBJECT_COUNT)|
  {
    hide Body;
    BodyGrows(content, k, OBJECT_COUNT);
  }

  lemma Slices(body: seq<byte>, head: seq<byte>, entries: seq<byte>, trailer: seq<byte>, k: nat)
    requires |head| == 30 && k + 20 <= |entries|
    ensures var pdf, xref := body + head + entries + trailer, |body|;
            && head <= pdf[xref..]
            && pdf[xref + 30 + k..xref + 50 + k] == entries[k..k + 20]
  {
  }

  lemma ObjectInBody(content: seq<byte>, n: nat, pdf: seq<byte>)
    requires 1 <= n <= OBJECT_COUNT && Body(content, n) <= pdf
    ensures Object(n, ObjectText(content, n)) <= pdf[|Body(content, n - 1)|..]
  {
    hide Object, ObjectText;
    var before, item := Body(content, n - 1), Object(n, ObjectText(content, n));
    assert pdf[..|before + item|] == before + item;
    assert pdf[|before|..][..|item|] == pdf[..|before + item|][|before|..] == item;
  }

  // ---------------------------------------------------------------- the strings in the file

  /** The strings of the n-th object, when the content stream has these. */
  function ObjectStrings(texts: seq<seq<byte>>, n: nat): seq<seq<byte>> {
    if n == 4 then texts else if n == 9 then [Title(), Producer()] else []
  }

  /** The strings of the first n objects. */
  function BodyStrings(texts: seq<seq<byte>>, n: nat): seq<seq<byte>> {
    if n == 0 then [] else BodyStrings(texts, n - 1) + ObjectStrings(texts, n)
  }

  lemma InfoHolds()
    ensures Holds(InfoText(), [Title(), Producer()])
  {
    TitleIsPlain();
    ProducerIsPlain();
    hide Holds, Clean, Title, Producer, Escaped, TitleHead, ProducerHead, InfoEnd;
    PlainIsUnescaped(Title());
    PlainIsUnescaped(Producer());
    var a, b := [OPEN] + Title() + [CLOSE], [OPEN] + Producer() + [CLOSE];
    StringHolds(Title());
    StringHolds(Producer());
    CleanHolds(TitleHead());
    CleanHolds(ProducerHead());
    CleanHolds(InfoEnd());
    HoldsConcat(TitleHead(), [], a, [Title()]);
    HoldsConcat(TitleHead() + a, [] + [Title()], ProducerHead(), []);
    HoldsConcat(TitleHead() + a + ProducerHead(), [] + [Title()] + [], b, [Producer()]);
    HoldsConcat(TitleHead() + a + ProducerHead() + b, [] + [Title()] + [] + [Producer()], InfoEnd(), []);
    assert [] + [Title()] + [] + [Producer()] + [] == [Title(), Producer()];
  }

  lemma TitleIsPlain()
    ensures forall i :: 0 <= i < |Title()| ==> Plain(Title()[i])
  {
  }

  lemma ProducerIsPlain()
    ensures forall i :: 0 <= i < |Producer()| ==> Plain(Producer()[i])
  {
  }

  lemma ContentHolds(content: seq<byte>, texts: seq<seq<byte>>)
    requires Holds(content, texts)
    ensures Holds(ContentText(content), texts)
  {
    hide Holds, Clean, StreamHead, StreamEnd;
    var head, end := StreamHead(|content|), StreamEnd();
    CleanHolds(head);
    CleanHolds(end);
    HoldsConcat(head, [], content, texts);
    HoldsConcat(head + content, [] + texts, end, []);
    assert [] + texts + [] == texts;
  }

  lemma ObjectHolds(content: seq<byte>, texts: seq<seq<byte>>, n: nat)
    requires 1 <= n <= OBJECT_COUNT && Holds(content, texts)
    ensures Holds(Object(n, ObjectText(content, n)), ObjectStrings(texts, n))
  {
    hide Holds, Clean, ContentText, InfoText, CatalogText, PagesText, PageText, FontText, ObjectEnd, Title, Producer;
    var text, strings := ObjectText(content, n), ObjectStrings(texts, n);
    if n == 4 {
      ContentHolds(content, texts);
    } else if n == 9 {
      InfoHolds();
    } else {
      CleanHolds(text);
    }
    CleanHolds(ObjectMark(n));
    CleanHolds(ObjectEnd());
    HoldsConcat(ObjectMark(n), [], text, strings);
    HoldsConcat(ObjectMark(n) + text, [] + strings, ObjectEnd(), []);
    assert [] + strings + [] == strings;
  }

  lemma {:induction false} BodyHolds(content: seq<byte>, texts: seq<seq<byte>>, n: nat)
    requires n <= OBJECT_COUNT && Holds(content, texts)
    ensures Holds(Body(content, n), BodyStrings(texts, n))
  {
    hide Holds, Object, ObjectText, ObjectStrings, Header, Clean;
    if n == 0 {
      CleanHolds(Header());
    } else {
      BodyHolds(content, texts, n - 1);
      ObjectHolds(content, texts, n);
      HoldsConcat(Body(content, n - 1), BodyStrings(texts, n - 1),
                  Object(n, ObjectText(content, n)), ObjectStrings(texts, n));
    }
  }

  lemma AllBodyStrings(texts: seq<seq<byte>>)
    ensures BodyStrings(texts, OBJECT_COUNT) == texts + [Title(), Producer()]
  {
    hide Title, Producer;
    assert BodyStrings(texts, 1) == [];
    assert BodyStrings(texts, 2) == [];
    assert BodyStrings(texts, 3) == [];
    assert BodyStrings(texts, 4) == texts;
    assert BodyStrings(texts, 6) == texts;
    assert BodyStrings(texts, 8) == texts;
  }

  /** The file's literal strings are those of its content stream, then the title and the producer. */
  lemma DocumentStrings(content: seq<byte>, texts: seq<seq<byte>>)
    requires Holds(content, texts)
    ensures LiteralStrings(Document(content)) == texts + [Title(), Producer()]
  {
    hide Holds, Body, TableHead, Entries, Trailer, Offsets, Clean, BodyStrings, Title, Producer, LiteralStrings;
    var body := Body(content, OBJECT_COUNT);
    var entries: CleanText, trailer: CleanText := Entries(Offsets(content)), Trailer(|body|);
    var all := texts + [Title(), Producer()];
    BodyHolds(content, texts, OBJECT_COUNT);
    AllBodyStrings(texts);
    CleanHolds(TableHead());
    CleanHolds(entries);
    CleanHolds(trailer);
    HoldsConcat(body, all, TableHead(), []);
    HoldsConcat(body + TableHead(), all + [], entries, []);
    HoldsConcat(body + TableHead() + entries, all + [] + [], trailer, []);
    assert all + [] + [] + [] == all;
    HoldsExactly(Document(content), all);
  }

  // ---------------------------------------------------------------- the size of the file

  lemma ObjectSize(content: seq<byte>, n: nat)
    requires 1 <= n <= OBJECT_COUNT && |content| < Pow(10, 10)
    ensures |Object(n, ObjectText(content, n))| <= 400 + (if n == 4 then |content| else 0)
  {
    hide FontHeadText, FontName, FontEndText, CatalogText, PagesHead, KidsText, PageHeadText, MediaBoxText,
      ResourcesText, MoreFontsText, PageEndText, Title, Producer, TitleHead, ProducerHead, InfoEnd, StreamEnd,
      ObjectEnd, Pow;
    NumeralLength(|content|, 10);
    assert |Numeral(n)| == 1;
  }

  lemma {:induction false} BodySize(content: seq<byte>, n: nat)
    requires n <= OBJECT_COUNT && |content| < Pow(10, 10)
    ensures |Body(content, n)| <= 20 + 400 * n + |content|
    ensures n < 4 ==> |Body(content, n)| <= 20 + 400 * n
  {
    hide Object, ObjectText, Header, Pow;
    if n > 0 {
      BodySize(content, n - 1);
      ObjectSize(content, n);
    }
  }

  const FRAME_MAX := 4200

  /** The file is little longer than its content stream. */
  lemma DocumentSize(content: seq<byte>)
    requires |content| <= PAGE_CAPACITY
    ensures |Body(content, OBJECT_COUNT)| < Pow(10, 10)
    ensures |Document(content)| <= |content| + FRAME_MAX
  {
    hide Body, Entry, Entries, Offsets, TrailerHead, InfoReference, XrefMark, TrailerEnd, Pow, TableHead;
    TenDigits();
    BodySize(content, OBJECT_COUNT);
    var offsets := Offsets(content);
    forall k | 0 <= k < OBJECT_COUNT ensures |Entry(offsets[k])| == 20 {
      OffsetIs(content, k);
      EntryLength(offsets[k]);
    }
    EntriesAt(offsets, 0);
    NumeralLength(|Body(content, OBJECT_COUNT)|, 10);
  }

  lemma TenDigits()
    ensures Pow(10, 10) == 10_000_000_000
  {
    assert Pow(10, 2) == 100;
    assert Pow(10, 4) == 10_000;
    assert Pow(10, 6) == 1_000_000;
    assert Pow(10, 8) == 100_000_000;
  }
}
