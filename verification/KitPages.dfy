/**
 The page of an Emergency Kit: what is printed on it and in which order. Where
 things stand and in which font is left to a layout, since only text is read back.

 A page is a list of drawing operations, each a shape or a line of text. A layout
 gives for each operation its operators, any short bytes without parentheses and
 backslashes, which is what the numbers, colours and fonts of a content stream
 are. So what is proved here holds for every arrangement: that the stream fits the
 buffer reserved for it, and that the texts are found again in their order. What a
 kit accepts as its email and its address is here too, because their lengths bound
 the page.
 */
module KitPages {
  import opened Calendar
  import opened Chunks
  import opened Common
  import opened Decimal
  import opened PdfText
  import opened SecretKeys

  /** The bytes of a text; every text here is ASCII. */
  function Bytes(s: string): (b: seq<byte>)
    ensures |b| == |s|
  {
    seq(|s|, i requires 0 <= i < |s| => s[i] as int % 256)
  }

  // ---------------------------------------------------------------- what may be printed

  const MAX_EMAIL_LEN := 254
  const MAX_URL_LEN := 200
  const AT: byte := 64

  datatype Error = InvalidEmail | InvalidSignInUrl

  datatype Kit = Kit(email: seq<byte>, signInUrl: seq<byte>, secretKey: SecretKey, createdOn: Date)

  predicate Graphic(b: byte) {
    33 <= b <= 126
  }

  predicate AllGraphic(s: seq<byte>) {
    forall i :: 0 <= i < |s| ==> Graphic(s[i])
  }

  function FirstAt(s: seq<byte>): (i: nat)
    ensures i <= |s|
    ensures AT in s <==> i < |s|
  {
    if s == [] || s[0] == AT then 0 else 1 + FirstAt(s[1..])
  }

  function ValidateEmail(email: seq<byte>): Result<(), Error> {
    var shaped := 0 < FirstAt(email) < |email| - 1;
    if 3 <= |email| <= MAX_EMAIL_LEN && AllGraphic(email) && shaped then Ok(()) else Err(InvalidEmail)
  }

  function HttpsPrefix(): (b: seq<byte>)
    ensures |b| == 8 && b[0] == 104
  {
    Bytes("https://")
  }

  function ValidateUrl(url: seq<byte>): Result<(), Error> {
    if |url| <= MAX_URL_LEN && HttpsPrefix() < url && AllGraphic(url) then Ok(()) else Err(InvalidSignInUrl)
  }

  /** An email is 3 to 254 visible characters, with an @ that is neither the first nor the last and none in front. */
  lemma EmailMeaning(email: seq<byte>)
    ensures ValidateEmail(email).Ok? <==>
            && 3 <= |email| <= 254
            && (forall i :: 0 <= i < |email| ==> '!' <= email[i] as char <= '~')
            && email[0] != '@' as int
            && exists i :: 0 < i < |email| - 1 && email[i] == '@' as int
  {
    FirstAtIsFirst(email);
    if ValidateEmail(email).Ok? {
      assert email[FirstAt(email)] == AT;
    }
  }

  lemma {:induction false} FirstAtIsFirst(s: seq<byte>)
    ensures FirstAt(s) < |s| ==> s[FirstAt(s)] == AT
    ensures forall i :: 0 <= i < FirstAt(s) ==> s[i] != AT
  {
    if s != [] && s[0] != AT {
      FirstAtIsFirst(s[1..]);
      forall i | 0 <= i < FirstAt(s) ensures s[i] != AT {
        assert i == 0 || s[i] == s[1..][i - 1];
      }
    }
  }

  /** A sign-in address is "https://" and more, at most 200 visible characters in all. */
  lemma UrlMeaning(url: seq<byte>, https: seq<byte>)
    requires https == ['h' as int, 't' as int, 't' as int, 'p' as int, 's' as int, ':' as int, '/' as int, '/' as int]
    ensures ValidateUrl(url).Ok? <==>
            && 8 < |url| <= 200 && https <= url
            && forall i :: 0 <= i < |url| ==> '!' <= url[i] as char <= '~'
  {
    assert HttpsPrefix() == https;
  }

  // ---------------------------------------------------------------- words on the page

  // Long texts are joined from shorter literals: the verifier's work on a literal grows with the square of its length.

  const TEXT_MAX := 100

  type Words = s: seq<byte> | |s| <= TEXT_MAX

  function Title(): (s: seq<byte>)
    ensures |s| == 20 && s[1] == 118
  {
    Bytes("Zvault Emergency Kit")
  }

  function Tagline(): (s: seq<byte>)
    ensures 6 < |s| <= 100 && s[0] == 89
  {
    Bytes("Your way back into " + "your account. Keep it safe and keep it private.")
  }

  function AddressLabel(): (s: seq<byte>)
    ensures |s| == 15 && s[0] == 83
  {
    Bytes("SIGN-IN ADDRESS")
  }

  function EmailLabel(): (s: seq<byte>)
    ensures |s| == 5 && s[0] == 69 && AllGraphic(s)
  {
    Bytes("EMAIL")
  }

  function KeyLabel(): (s: seq<byte>)
    ensures |s| == 10 && s[0] == 83 && s[6] == 32
  {
    Bytes("SECRET KEY")
  }

  function PrivacyNote(): Words {
    Bytes("Created on this device and never sent to Zvault. Letters are not case sensitive.")
  }

  function PasswordLabel(): Words {
    Bytes("MASTER PASSWORD")
  }

  function PasswordNote(): Words {
    Bytes("Write it by hand after printing. Never type it into this file.")
  }

  function AdviceTitle(): Words {
    Bytes("What to do with this kit")
  }

  /** Where to keep the kit. */
  function KeepingAdvice(i: nat): Words {
    if i == 0 then
      Bytes("Print this page, or keep the file somewhere " + "only you can reach, like an encrypted drive.")
    else
      Bytes("Store the printed copy with your important papers, " + "such as your passport or will.")
  }

  /** What the kit is for. */
  function UsingAdvice(i: nat): Words {
    if i == 0 then
      Bytes("You need your Secret Key and master password to sign in on a new device.")
    else if i == 1 then
      Bytes("Zvault can't see or reset either of them. " + "If you lose both, your data can't be recovered.")
    else
      Bytes("Anyone with this kit and your master password " + "can open your vault, so keep it private.")
  }

  const ADVICE_LINES := 5

  function Advice(i: nat): Words {
    if i < 2 then KeepingAdvice(i) else UsingAdvice(i - 2)
  }

  const MONTHS := ["January", "February", "March", "April", "May", "June", "July", "August", "September", "October",
                   "November", "December"]

  /** "24 September 2026" */
  function LongDate(d: Date): string
    requires 1 <= d.month <= 12
  {
    Numeral(d.day) + " " + MONTHS[d.month - 1] + " " + Numeral(d.year)
  }

  /** The months by name. */
  lemma MonthNames(m: nat)
    requires 1 <= m <= 12
    ensures MONTHS[m - 1] ==
            if m == 1 then "January" else if m == 2 then "February" else if m == 3 then "March"
            else if m == 4 then "April" else if m == 5 then "May" else if m == 6 then "June"
            else if m == 7 then "July" else if m == 8 then "August" else if m == 9 then "September"
            else if m == 10 then "October" else if m == 11 then "November" else "December"
  {
  }

  function Footer(d: Date): seq<byte>
    requires 1 <= d.month <= 12
  {
    Bytes("Created on " + LongDate(d))
  }

  /** The date is printed with its day first and its month in letters. */
  lemma FooterMeaning(d: Date, month: string)
    requires 1 <= d.month <= 12 && MONTHS[d.month - 1] == month
    ensures Footer(d) == Bytes("Created on " + Numeral(d.day) + " " + month + " " + Numeral(d.year))
  {
    hide Numeral, Bytes;
    SixJoined("Created on ", Numeral(d.day), " ", month, " ", Numeral(d.year));
  }

  lemma SixJoined(a: string, b: string, c: string, d: string, e: string, f: string)
    ensures a + (b + c + d + e + f) == a + b + c + d + e + f
  {
  }

  /** What a reader looks for. */
  lemma LabelsAre()
    ensures EmailLabel() == ['E' as int, 'M' as int, 'A' as int, 'I' as int, 'L' as int]
    ensures KeyLabel() == ['S' as int, 'E' as int, 'C' as int, 'R' as int, 'E' as int, 'T' as int, ' ' as int,
                           'K' as int, 'E' as int, 'Y' as int]
  {
  }

  // ---------------------------------------------------------------- what is drawn

  /** One drawing operation: a shape, or a line of text. */
  datatype Item = Shape | Text(s: seq<byte>)

  const OPERATOR_MAX := 128

  /** Operators are short and hold no parenthesis and no backslash. */
  type Operator = b: CleanText | |b| <= OPERATOR_MAX

  /** The operators around the n-th operation: a shape's own, or what precedes a text. */
  datatype Layout = Layout(shape: nat -> Operator, head: nat -> Operator)

  function TextEnd(): Operator {
    Bytes(" Tj ET\n")
  }

  function Drawn(layout: Layout, n: nat, item: Item): seq<byte> {
    match item
    case Shape => layout.shape(n)
    case Text(s) => layout.head(n) + [OPEN] + Escaped(s) + [CLOSE] + TextEnd()
  }

  /** The content stream of some operations. */
  function Stream(layout: Layout, items: seq<Item>): seq<byte> {
    if items == [] then []
    else
      var n := |items| - 1;
      Stream(layout, items[..n]) + Drawn(layout, n, items[n])
  }

  /** A value is wrapped at the width of the page in Courier. */
  const PER_LINE := 69

  function Lines(parts: seq<seq<byte>>): seq<Item> {
    if parts == [] then [] else Lines(parts[..|parts| - 1]) + [Text(parts[|parts| - 1])]
  }

  lemma LinesGrow(parts: seq<seq<byte>>, i: nat)
    requires i < |parts|
    ensures Lines(parts[..i + 1]) == Lines(parts[..i]) + [Text(parts[i])]
  {
    assert parts[..i + 1][..i] == parts[..i];
  }

  function Bullets(n: nat): seq<Item> {
    if n == 0 then [] else Bullets(n - 1) + [Text([0x95])] + [Text(Advice(n - 1))]
  }

  /** Everything up to the Secret Key. */
  function UpToKey(kit: Kit, key: seq<byte>): seq<Item> {
    [] + [Shape] + [Text(Title())] + [Text(Tagline())]
    + [Text(AddressLabel())] + Lines(ChunksOf(kit.signInUrl, PER_LINE))
    + [Text(EmailLabel())] + Lines(ChunksOf(kit.email, PER_LINE))
    + [Text(KeyLabel())] + [Shape] + [Shape] + [Text(key)]
  }

  function PageItems(kit: Kit, key: seq<byte>): seq<Item>
    requires 1 <= kit.createdOn.month <= 12
  {
    UpToKey(kit, key) + [Text(PrivacyNote())] + [Text(PasswordLabel())] + [Shape] + [Text(PasswordNote())] + [Shape]
    + [Text(AdviceTitle())] + Bullets(ADVICE_LINES) + [Text(Footer(kit.createdOn))]
  }

  /** The page being written; `drawn` numbers its operations, and `items` remembers them. */
  class Page {
    var ops: seq<byte>
    var drawn: nat
    ghost var items: seq<Item>
    const layout: Layout

    ghost predicate Valid()
      reads this
    {
      drawn == |items| && ops == Stream(layout, items)
    }

    constructor (layout: Layout)
      ensures Valid() && items == [] && this.layout == layout
    {
      ops, drawn, items, this.layout := [], 0, [], layout;
    }

    /** A filled or stroked rectangle, or a line. */
    method Draw()
      requires Valid()
      modifies this
      ensures Valid() && items == old(items) + [Shape]
    {
      StreamGrows(layout, items, Shape);
      ops := ops + layout.shape(drawn);
      items := items + [Shape];
      drawn := drawn + 1;
    }

    /** One line of text. */
    method Show(s: seq<byte>)
      requires Valid()
      modifies this
      ensures Valid() && items == old(items) + [Text(s)]
    {
      hide Stream, Escaped, TextEnd;
      StreamGrows(layout, items, Text(s));
      ops := ops + layout.head(drawn);
      ops := ops + [OPEN];
      ops := EscapeInto(ops, s);
      ops := ops + [CLOSE];
      ops := ops + TextEnd();
      items := items + [Text(s)];
      drawn := drawn + 1;
    }

    /** A label with a value wrapped under it. */
    method Field(name: seq<byte>, value: seq<byte>)
      requires Valid()
      modifies this
      ensures Valid() && items == old(items) + [Text(name)] + Lines(ChunksOf(value, PER_LINE))
    {
      hide Stream, ChunksOf, EmailLabel, AddressLabel;
      Show(name);
      ghost var start := items;
      var parts := ChunksOf(value, PER_LINE);
      var i := 0;
      assert start + [] == start;
      while i < |parts|
        invariant 0 <= i <= |parts|
        invariant Valid() && items == start + Lines(parts[..i])
      {
        LinesGrow(parts, i);
        Associative(start, Lines(parts[..i]), [Text(parts[i])]);
        Show(parts[i]);
        i := i + 1;
      }
      assert parts[..i] == parts;
    }

    /** 0x95 is the bullet in the page's encoding. */
    method Bullet(s: seq<byte>)
      requires Valid()
      modifies this
      ensures Valid() && items == old(items) + [Text([0x95])] + [Text(s)]
    {
      Show([0x95]);
      Show(s);
    }

    method Advise()
      requires Valid()
      modifies this
      ensures Valid() && items == old(items) + Bullets(ADVICE_LINES)
    {
      hide Stream, Advice;
      ghost var start := items;
      var i := 0;
      assert start + [] == start;
      while i < ADVICE_LINES
        invariant 0 <= i <= ADVICE_LINES
        invariant Valid() && items == start + Bullets(i)
      {
        Bullet(Advice(i));
        i := i + 1;
      }
    }
  }

  lemma StreamGrows(layout: Layout, items: seq<Item>, item: Item)
    ensures Stream(layout, items + [item]) == Stream(layout, items) + Drawn(layout, |items|, item)
  {
    assert (items + [item])[..|items|] == items;
  }

  // ---------------------------------------------------------------- the stream fits its buffer

  const PAGE_CAPACITY := 65536
  const ITEM_MAX := 658
  const ITEMS_MAX := 40

  predicate ShortItem(item: Item) {
    item.Shape? || |item.s| <= TEXT_MAX
  }

  ghost predicate Short(items: seq<Item>) {
    forall i :: 0 <= i < |items| ==> ShortItem(items[i])
  }

  lemma {:induction false} EscapedLength(s: seq<byte>)
    ensures |Escaped(s)| <= 4 * |s|
  {
    if s != [] {
      EscapedLength(s[1..]);
    }
  }

  lemma {:induction false} StreamFits(layout: Layout, items: seq<Item>)
    requires Short(items)
    ensures |Stream(layout, items)| <= ITEM_MAX * |items|
  {
    hide Escaped, TextEnd, Clean;
    if items != [] {
      var n := |items| - 1;
      StreamFits(layout, items[..n]);
      assert ShortItem(items[n]);
      var shape: Operator, head: Operator := layout.shape(n), layout.head(n);
      if items[n].Text? {
        EscapedLength(items[n].s);
      }
    }
  }

  lemma {:induction false} LinesAreShort(parts: seq<seq<byte>>)
    requires forall i :: 0 <= i < |parts| ==> |parts[i]| <= TEXT_MAX
    ensures |Lines(parts)| == |parts| && Short(Lines(parts))
  {
    if parts != [] {
      LinesAreShort(parts[..|parts| - 1]);
    }
  }

  lemma {:induction false} BulletsAreShort(n: nat)
    ensures |Bullets(n)| == 2 * n && Short(Bullets(n))
  {
    hide Advice;
    if n > 0 {
      BulletsAreShort(n - 1);
    }
  }

  /** The date fields of the source fit in a byte and in sixteen bits. */
  predicate IsKitDate(d: Date) {
    1 <= d.month <= 12 && d.day < 256 && d.year < 0x1_0000
  }

  lemma FooterIsShort(d: Date)
    requires IsKitDate(d)
    ensures |Footer(d)| <= TEXT_MAX
  {
    NumeralLength(d.day, 10);
    NumeralLength(d.year, 10);
    assert |MONTHS[d.month - 1]| <= 9;
  }

  predicate Printable(kit: Kit) {
    ValidateEmail(kit.email).Ok? && ValidateUrl(kit.signInUrl).Ok? && IsKey(kit.secretKey) && IsKitDate(kit.createdOn)
  }

  lemma WrappedIsShort(value: seq<byte>)
    requires |value| <= MAX_EMAIL_LEN
    ensures var lines := Lines(ChunksOf(value, PER_LINE)); |lines| <= 4 && Short(lines)
  {
    ChunkCount(value, PER_LINE);
    LinesAreShort(ChunksOf(value, PER_LINE));
  }

  lemma PageIsShort(kit: Kit, key: seq<byte>)
    requires Printable(kit) && |key| <= TEXT_MAX
    ensures |PageItems(kit, key)| <= 40 && Short(PageItems(kit, key))
  {
    hide Lines, Bullets, Footer, ChunksOf, Title, Tagline, AddressLabel, EmailLabel, KeyLabel, PrivacyNote,
      PasswordLabel, PasswordNote, AdviceTitle;
    WrappedIsShort(kit.email);
    WrappedIsShort(kit.signInUrl);
    BulletsAreShort(ADVICE_LINES);
    FooterIsShort(kit.createdOn);
  }

  /** Writes the page; the stream never outgrows the buffer reserved for it. */
  method WritePage(kit: Kit, key: seq<byte>, layout: Layout) returns (ops: seq<byte>)
    requires Printable(kit) && |key| <= TEXT_MAX
    ensures ops == Stream(layout, PageItems(kit, key)) && |ops| <= 65536
  {
    hide ValidateEmail, ValidateUrl, IsKey, ShortItem, Stream, Lines, ChunksOf, Bytes, Footer, Title, Tagline,
      AddressLabel, EmailLabel, KeyLabel, PrivacyNote, PasswordLabel, PasswordNote, AdviceTitle, Advice;
    var p := new Page(layout);
    p.Draw();
    p.Show(Title());
    p.Show(Tagline());
    p.Field(AddressLabel(), kit.signInUrl);
    p.Field(EmailLabel(), kit.email);
    p.Show(KeyLabel());
    p.Draw();
    p.Draw();
    p.Show(key);
    assert p.items == UpToKey(kit, key);
    p.Show(PrivacyNote());
    p.Show(PasswordLabel());
    p.Draw();
    p.Show(PasswordNote());
    p.Draw();
    p.Show(AdviceTitle());
    p.Advise();
    p.Show(Footer(kit.createdOn));
    PageIsShort(kit, key);
    StreamFits(layout, p.items);
    assert |p.ops| <= PAGE_CAPACITY;
    ops := p.ops;
  }

  // ---------------------------------------------------------------- the strings in the stream

  function TextOf(item: Item): seq<seq<byte>> {
    match item
    case Shape => []
    case Text(s) => [s]
  }

  function TextsOf(items: seq<Item>): seq<seq<byte>> {
    if items == [] then [] else TextsOf(items[..|items| - 1]) + TextOf(items[|items| - 1])
  }

  lemma DrawnString(layout: Layout, n: nat, item: Item)
    ensures Holds(Drawn(layout, n, item), TextOf(item))
  {
    hide Holds, Escaped, Clean, TextEnd;
    match item {
      case Shape =>
        CleanHolds(layout.shape(n));
      case Text(s) =>
        var quoted := [OPEN] + Escaped(s) + [CLOSE];
        CleanHolds(layout.head(n));
        StringHolds(s);
        CleanHolds(TextEnd());
        HoldsConcat(layout.head(n), [], quoted, [s]);
        HoldsConcat(layout.head(n) + quoted, [] + [s], TextEnd(), []);
        assert layout.head(n) + quoted + TextEnd() == Drawn(layout, n, item);
        assert [] + [s] + [] == [s];
    }
  }

  /** The texts of a page are found again, in their order, for every layout and whatever follows. */
  lemma {:induction false} StreamStrings(layout: Layout, items: seq<Item>)
    ensures Holds(Stream(layout, items), TextsOf(items))
  {
    hide Holds, Drawn, TextOf;
    if items == [] {
      CleanHolds([]);
    } else {
      var n := |items| - 1;
      StreamStrings(layout, items[..n]);
      DrawnString(layout, n, items[n]);
      HoldsConcat(Stream(layout, items[..n]), TextsOf(items[..n]), Drawn(layout, n, items[n]), TextOf(items[n]));
    }
  }

  lemma {:induction false} TextsConcat(a: seq<Item>, b: seq<Item>)
    ensures TextsOf(a + b) == TextsOf(a) + TextsOf(b)
  {
    if b == [] {
      assert a + b == a;
    } else {
      var n := |b| - 1;
      assert (a + b)[..|a + b| - 1] == a + b[..n];
      TextsConcat(a, b[..n]);
      Associative(TextsOf(a), TextsOf(b[..n]), TextOf(b[n]));
    }
  }

  lemma {:induction false} TextsOfLines(parts: seq<seq<byte>>)
    ensures TextsOf(Lines(parts)) == parts
  {
    if parts != [] {
      var n := |parts| - 1;
      TextsOfLines(parts[..n]);
      TextsConcat(Lines(parts[..n]), [Text(parts[n])]);
      assert [Text(parts[n])][..0] == [];
    }
  }

  /** The texts up to the Secret Key, in reading order. */
  function Opening(kit: Kit, key: seq<byte>): seq<seq<byte>> {
    [Title()] + [Tagline()] + [AddressLabel()] + ChunksOf(kit.signInUrl, PER_LINE)
    + [EmailLabel()] + ChunksOf(kit.email, PER_LINE) + [KeyLabel()] + [key]
  }

  lemma TextsAppend(a: seq<Item>, item: Item)
    ensures TextsOf(a + [item]) == TextsOf(a) + TextOf(item) && TextsOf([]) == []
  {
    assert (a + [item])[..|a|] == a;
  }

  lemma TextsOfUpToKey(kit: Kit, key: seq<byte>)
    ensures TextsOf(UpToKey(kit, key)) == Opening(kit, key)
  {
    hide ChunksOf, Lines, TextsOf, Title, Tagline, AddressLabel, EmailLabel, KeyLabel;
    var url, email := ChunksOf(kit.signInUrl, PER_LINE), ChunksOf(kit.email, PER_LINE);
    var i1 := [] + [Shape];
    var i2 := i1 + [Text(Title())] + [Text(Tagline())] + [Text(AddressLabel())];
    TextsAppend([], Shape);
    TextsAppend(i1, Text(Title()));
    TextsAppend(i1 + [Text(Title())], Text(Tagline()));
    TextsAppend(i1 + [Text(Title())] + [Text(Tagline())], Text(AddressLabel()));
    TextsConcat(i2, Lines(url));
    TextsOfLines(url);
    var i3 := i2 + Lines(url);
    TextsAppend(i3, Text(EmailLabel()));
    TextsConcat(i3 + [Text(EmailLabel())], Lines(email));
    TextsOfLines(email);
    var i4 := i3 + [Text(EmailLabel())] + Lines(email);
    TextsAppend(i4, Text(KeyLabel()));
    var i5 := i4 + [Text(KeyLabel())];
    TextsAppend(i5, Shape);
    TextsAppend(i5 + [Shape], Shape);
    TextsAppend(i5 + [Shape] + [Shape], Text(key));
    assert [] + [Title()] == [Title()];
    assert TextsOf(i5) + [] == TextsOf(i5);
  }

  /** The page starts with those texts; what follows them cannot matter to a reader looking for a first one. */
  lemma PageTexts(kit: Kit, key: seq<byte>) returns (after: seq<seq<byte>>)
    requires 1 <= kit.createdOn.month <= 12
    ensures TextsOf(PageItems(kit, key)) == Opening(kit, key) + after
  {
    hide Opening, UpToKey, Bullets, TextsOf, Footer;
    var more := [Text(PrivacyNote())] + [Text(PasswordLabel())] + [Shape] + [Text(PasswordNote())] + [Shape]
    + [Text(AdviceTitle())] + Bullets(ADVICE_LINES) + [Text(Footer(kit.createdOn))];
    assert PageItems(kit, key) == UpToKey(kit, key) + more by {
      hide PrivacyNote, PasswordLabel, PasswordNote, AdviceTitle;
    }
    TextsOfUpToKey(kit, key);
    TextsConcat(UpToKey(kit, key), more);
    after := TextsOf(more);
  }

  /** The texts after the Secret Key, in reading order. */
  function Closing(d: Date): seq<seq<byte>>
    requires 1 <= d.month <= 12
  {
    [PrivacyNote()] + [PasswordLabel()] + [PasswordNote()] + [AdviceTitle()] + Advised(5) + [Footer(d)]
  }

  /** Each piece of advice after its bullet. */
  function Advised(n: nat): seq<seq<byte>> {
    if n == 0 then [] else Advised(n - 1) + [[0x95]] + [Advice(n - 1)]
  }

  lemma {:induction false} TextsOfBullets(n: nat)
    ensures TextsOf(Bullets(n)) == Advised(n)
  {
    hide Advice, TextsOf;
    TextsAppend([], Shape);
    if n > 0 {
      TextsOfBullets(n - 1);
      TextsAppend(Bullets(n - 1), Text([0x95]));
      TextsAppend(Bullets(n - 1) + [Text([0x95])], Text(Advice(n - 1)));
    }
  }

  /** All the texts of a page. */
  lemma AllTexts(kit: Kit, key: seq<byte>)
    requires 1 <= kit.createdOn.month <= 12
    ensures TextsOf(PageItems(kit, key)) == Opening(kit, key) + Closing(kit.createdOn)
  {
    hide Opening, UpToKey, Bullets, TextsOf, Footer, PrivacyNote, PasswordLabel, PasswordNote, AdviceTitle, Advised;
    var i0 := UpToKey(kit, key);
    TextsOfUpToKey(kit, key);
    TextsAppend(i0, Text(PrivacyNote()));
    var i1 := i0 + [Text(PrivacyNote())];
    TextsAppend(i1, Text(PasswordLabel()));
    var i2 := i1 + [Text(PasswordLabel())];
    TextsAppend(i2, Shape);
    TextsAppend(i2 + [Shape], Text(PasswordNote()));
    var i3 := i2 + [Shape] + [Text(PasswordNote())];
    TextsAppend(i3, Shape);
    TextsAppend(i3 + [Shape], Text(AdviceTitle()));
    var i4 := i3 + [Shape] + [Text(AdviceTitle())];
    TextsConcat(i4, Bullets(ADVICE_LINES));
    TextsOfBullets(ADVICE_LINES);
    TextsAppend(i4 + Bullets(ADVICE_LINES), Text(Footer(kit.createdOn)));
    Regrouped(Opening(kit, key), PrivacyNote(), PasswordLabel(), PasswordNote(), AdviceTitle(), Advised(5),
              Footer(kit.createdOn));
  }

  lemma Regrouped(opening: seq<seq<byte>>, a: seq<byte>, b: seq<byte>, c: seq<byte>, d: seq<byte>,
                  advised: seq<seq<byte>>, last: seq<byte>)
    ensures opening + [a] + [b] + [] + [c] + [] + [d] + advised + [last]
         == opening + ([a] + [b] + [c] + [d] + advised + [last])
  {
  }
}
