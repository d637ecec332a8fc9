/**
 Rendering an Emergency Kit, reading one back, and exactly when reading gives
 what was rendered.
 */
module KitReading {
  import opened Chunks
  import opened Common
  import opened KitDocuments
  import opened KitPages
  import opened PdfText
  import opened SecretKeys
  import Utf8

  // ---------------------------------------------------------------- rendering

  function Rendered(kit: Kit, layout: Layout): seq<byte>
    requires 1 <= kit.createdOn.month <= 12
  {
    Document(Stream(layout, PageItems(kit, Display(kit.secretKey))))
  }

  /** Renders a kit, or says which of its two lines cannot be printed. */
  method Render(kit: Kit, layout: Layout) returns (r: Result<seq<byte>, Error>)
    requires IsKey(kit.secretKey) && IsKitDate(kit.createdOn)
    ensures r == if ValidateEmail(kit.email).Err? then Err(InvalidEmail)
                 else if ValidateUrl(kit.signInUrl).Err? then Err(InvalidSignInUrl)
                 else Ok(Rendered(kit, layout))
  {
    hide IsKey, Stream, PageItems, Document, Display;
    var email := ValidateEmail(kit.email);
    if email.Err? {
      return Err(email.error);
    }
    var url := ValidateUrl(kit.signInUrl);
    if url.Err? {
      return Err(url.error);
    }
    DisplayLength(kit.secretKey);
    var key := ToDisplayString(kit.secretKey);
    var page := WritePage(kit, key, layout);
    var pdf := WriteDocument(page);
    r := Ok(pdf);
  }

  lemma DisplayLength(key: SecretKey)
    requires IsKey(key)
    ensures |Display(key)| <= TEXT_MAX
  {
    hide Symbols;
    ChunkCount(key.secret, GROUP_CHARS);
    GroupsLength(ChunksOf(key.secret, GROUP_CHARS));
  }

  lemma {:induction false} GroupsLength(parts: seq<seq<byte>>)
    requires forall i :: 0 <= i < |parts| ==> |parts[i]| <= GROUP_CHARS
    ensures |Groups(parts)| <= 6 * |parts|
  {
    if parts != [] {
      GroupsLength(parts[1..]);
    }
  }

  // ---------------------------------------------------------------- reading

  const MAX_KIT_BYTES := 1048576

  datatype ReadKit = ReadKit(email: Option<seq<byte>>, secretKey: SecretKey)

  predicate IsText(s: seq<byte>) {
    Utf8.Decode(s).Some?
  }

  /** The bytes of "Z1-". */
  function KeyMark(): seq<byte> {
    [90, 49, 45]
  }

  /** The Secret Key a string is, if it starts like one. */
  function KeyIn(s: seq<byte>): Option<SecretKey> {
    if KeyMark() <= s && IsText(s) then SecretKeys.Parse(s) else None
  }

  function FirstKey(strings: seq<seq<byte>>): Option<SecretKey> {
    if strings == [] then None
    else
      var key := KeyIn(strings[0]);
      if key.Some? then key else FirstKey(strings[1..])
  }

  /** The strings before the key's label, joined. */
  function Gathered(strings: seq<seq<byte>>): Option<seq<byte>> {
    if strings == [] || strings[0] == KeyLabel() then Some([])
    else if !IsText(strings[0]) then None
    else match Gathered(strings[1..])
      case None => None
      case Some(more) => Some(strings[0] + more)
  }

  predicate LooksLikeEmail(s: seq<byte>) {
    AllGraphic(s) && AT in s
  }

  function EmailOf(strings: seq<seq<byte>>): Option<seq<byte>> {
    if strings == [] then None
    else if strings[0] != EmailLabel() then EmailOf(strings[1..])
    else match Gathered(strings[1..])
      case None => None
      case Some(email) => if LooksLikeEmail(email) then Some(email) else None
  }

  function ReadBack(pdf: seq<byte>): Option<ReadKit> {
    if |pdf| > MAX_KIT_BYTES || !(FileMark() <= pdf) then None
    else
      var strings := LiteralStrings(pdf);
      match FirstKey(strings)
      case None => None
      case Some(key) => Some(ReadKit(EmailOf(strings), key))
  }

  // ---------------------------------------------------------------- what is looked for

  /** A key is a text that starts with "Z1-" and that the key parser accepts. */
  lemma KeyInMeaning(s: seq<byte>, key: SecretKey)
    ensures KeyIn(s) == Some(key) <==>
            ['Z' as int, '1' as int, '-' as int] <= s && Utf8.Decode(s).Some? && SecretKeys.Parse(s) == Some(key)
  {
  }

  /** String number k is the first one that is a key. */
  ghost predicate FirstKeyAt(strings: seq<seq<byte>>, k: nat) {
    k < |strings| && KeyIn(strings[k]).Some? && forall j :: 0 <= j < k ==> KeyIn(strings[j]).None?
  }

  lemma {:induction false} FirstKeyIs(strings: seq<seq<byte>>)
    ensures forall k: nat :: FirstKeyAt(strings, k) ==> FirstKey(strings) == KeyIn(strings[k])
    ensures FirstKey(strings).None? <==> forall s :: s in strings ==> KeyIn(s).None?
  {
    hide KeyIn;
    if strings != [] {
      var rest := strings[1..];
      FirstKeyIs(rest);
      assert strings == [strings[0]] + rest;
      forall k: nat | FirstKeyAt(strings, k) && k > 0 ensures FirstKeyAt(rest, k - 1) && strings[k] == rest[k - 1] {
        forall j | 0 <= j < k - 1 ensures KeyIn(rest[j]).None? {
          assert rest[j] == strings[j + 1];
        }
      }
    }
  }

  /** The email stands between the first string "EMAIL" and the next "SECRET KEY", or the end. */
  ghost predicate EmailBetween(strings: seq<seq<byte>>, i: nat, j: nat) {
    && i < j <= |strings| && strings[i] == EmailLabel()
    && (forall k :: 0 <= k < i ==> strings[k] != EmailLabel())
    && (forall k :: i < k < j ==> strings[k] != KeyLabel())
    && (j < |strings| ==> strings[j] == KeyLabel())
  }

  lemma {:induction false} GatheredIs(strings: seq<seq<byte>>, j: nat)
    requires j <= |strings| && (forall k :: 0 <= k < j ==> strings[k] != KeyLabel())
    requires j < |strings| ==> strings[j] == KeyLabel()
    ensures Gathered(strings) == if forall s :: s in strings[..j] ==> IsText(s) then Some(Flat(strings[..j])) else None
  {
    hide KeyLabel, IsText;
    if j > 0 {
      var rest := strings[1..];
      assert rest[..j - 1] == strings[..j][1..];
      assert strings[..j] == [strings[0]] + strings[..j][1..];
      forall k | 0 <= k < j - 1 ensures rest[k] != KeyLabel() {
        assert rest[k] == strings[k + 1];
      }
      GatheredIs(rest, j - 1);
    } else {
      assert strings[..j] == [];
    }
  }

  /** Some strings joined: the email, if each is a text and the whole is visible characters with an @. */
  ghost predicate Joins(between: seq<seq<byte>>, email: seq<byte>) {
    && (forall s :: s in between ==> Utf8.Decode(s).Some?)
    && email == Flat(between)
    && (forall b :: b in email ==> '!' <= b as char <= '~') && '@' as int in email
  }

  lemma EmailAtLabel(strings: seq<seq<byte>>, j: nat, email: seq<byte>)
    requires EmailBetween(strings, 0, j)
    ensures EmailOf(strings) == Some(email) <==> Joins(strings[1..j], email)
  {
    hide EmailLabel, KeyLabel, IsText, Flat, LooksLikeEmail;
    var rest, between := strings[1..], strings[1..j];
    forall k | 0 <= k < j - 1 ensures rest[k] != KeyLabel() {
      assert rest[k] == strings[k + 1];
    }
    GatheredIs(rest, j - 1);
    assert rest[..j - 1] == between;
    assert j < |strings| ==> rest[j - 1] == strings[j];
    TextsAreUtf8(between);
    VisibleBytes(Flat(between));
    LabelledEmail(strings, email);
    hide EmailOf, Gathered;
  }

  lemma LabelledEmail(strings: seq<seq<byte>>, email: seq<byte>)
    requires strings != [] && strings[0] == EmailLabel()
    ensures EmailOf(strings) == Some(email) <==> Gathered(strings[1..]) == Some(email) && LooksLikeEmail(email)
  {
    hide EmailLabel, LooksLikeEmail, Gathered;
  }

  lemma TextsAreUtf8(strings: seq<seq<byte>>)
    ensures (forall s :: s in strings ==> IsText(s)) <==> forall s :: s in strings ==> Utf8.Decode(s).Some?
  {
    if forall s :: s in strings ==> Utf8.Decode(s).Some? {
      forall s | s in strings ensures IsText(s) {
      }
    }
    if forall s :: s in strings ==> IsText(s) {
      forall s | s in strings ensures Utf8.Decode(s).Some? {
        assert IsText(s);
      }
    }
  }

  /** The email read is the strings between the labels, joined. */
  lemma {:induction false} JoinedEmail(strings: seq<seq<byte>>, i: nat, j: nat, email: seq<byte>)
    requires EmailBetween(strings, i, j)
    ensures EmailOf(strings) == Some(email) <==> Joins(strings[i + 1..j], email)
  {
    hide EmailLabel, KeyLabel, Joins, Gathered;
    if i == 0 {
      EmailAtLabel(strings, j, email);
    } else {
      var rest := strings[1..];
      forall k | 0 <= k < |rest| ensures rest[k] == strings[k + 1] {
      }
      assert rest[i..j - 1] == strings[i + 1..j];
      JoinedEmail(rest, i - 1, j - 1, email);
    }
  }

  lemma {:induction false} NoEmail(strings: seq<seq<byte>>)
    requires EmailLabel() !in strings
    ensures EmailOf(strings) == None
  {
    hide EmailLabel;
    if strings != [] {
      assert strings[0] in strings;
      NoEmail(strings[1..]);
    }
  }

  lemma VisibleBytes(s: seq<byte>)
    ensures LooksLikeEmail(s) <==> (forall b :: b in s ==> '!' <= b as char <= '~') && '@' as int in s
  {
    forall i | 0 <= i < |s| ensures s[i] in s {
    }
  }

  /** What a file reads as: nothing when it is too long, no PDF, or holds no key; else its first key and its email. */
  lemma ReadMeaning(pdf: seq<byte>, mark: seq<byte>, k: nat)
    requires mark == ['%' as int, 'P' as int, 'D' as int, 'F' as int, '-' as int]
    ensures var strings := LiteralStrings(pdf);
            && (ReadBack(pdf).None? <==>
                  |pdf| > 1048576 || !(mark <= pdf) || forall s :: s in strings ==> KeyIn(s).None?)
            && (ReadBack(pdf).Some? ==>
                  && ReadBack(pdf).value.email == EmailOf(strings)
                  && (FirstKeyAt(strings, k) ==> KeyIn(strings[k]) == Some(ReadBack(pdf).value.secretKey)))
  {
    hide LiteralStrings, EmailOf, KeyIn, FirstKey;
    FirstKeyIs(LiteralStrings(pdf));
    assert FileMark() == mark;
  }

  method FindEmail(strings: seq<seq<byte>>) returns (r: Option<seq<byte>>)
    ensures r == EmailOf(strings)
  {
    hide EmailLabel, KeyLabel, LooksLikeEmail, IsText;
    var start := 0;
    assert strings[0..] == strings;
    while start < |strings| && strings[start] != EmailLabel()
      invariant 0 <= start <= |strings|
      invariant EmailOf(strings) == EmailOf(strings[start..])
    {
      DropOfDrop(strings, start, 1);
      start := start + 1;
    }
    if start == |strings| {
      return None;
    }
    DropOfDrop(strings, start, 1);
    start := start + 1;
    var email := [];
    var i := start;
    ghost var goal := Gathered(strings[start..]);
    assert goal.Some? ==> [] + goal.value == goal.value;
    while i < |strings| && strings[i] != KeyLabel()
      invariant start <= i <= |strings|
      invariant goal.None? <==> Gathered(strings[i..]).None?
      invariant goal.Some? ==> goal.value == email + Gathered(strings[i..]).value
    {
      DropOfDrop(strings, i, 1);
      if !IsText(strings[i]) {
        return None;
      }
      if goal.Some? {
        Associative(email, strings[i], Gathered(strings[i + 1..]).value);
      }
      email := email + strings[i];
      i := i + 1;
    }
    assert email + [] == email;
    r := if LooksLikeEmail(email) then Some(email) else None;
  }

  method Read(pdf: seq<byte>) returns (r: Option<ReadKit>)
    ensures r == ReadBack(pdf)
  {
    hide LiteralStrings, EmailOf, KeyIn, FileMark;
    if |pdf| > MAX_KIT_BYTES || !(FileMark() <= pdf) {
      return None;
    }
    var strings := ReadStrings(pdf);
    var i := 0;
    assert strings[0..] == strings;
    while i < |strings| && KeyIn(strings[i]).None?
      invariant 0 <= i <= |strings|
      invariant FirstKey(strings) == FirstKey(strings[i..])
    {
      DropOfDrop(strings, i, 1);
      i := i + 1;
    }
    if i == |strings| {
      return None;
    }
    var email := FindEmail(strings);
    r := Some(ReadKit(email, KeyIn(strings[i]).value));
  }

  // ---------------------------------------------------------------- what a rendered kit reads as

  function UrlLines(kit: Kit): seq<seq<byte>> {
    ChunksOf(kit.signInUrl, PER_LINE)
  }

  function EmailLines(kit: Kit): seq<seq<byte>> {
    ChunksOf(kit.email, PER_LINE)
  }

  function OrElse<T>(a: Option<T>, b: Option<T>): Option<T> {
    if a.Some? then a else b
  }

  lemma {:induction false} FirstKeyConcat(a: seq<seq<byte>>, b: seq<seq<byte>>)
    ensures FirstKey(a + b) == OrElse(FirstKey(a), FirstKey(b))
  {
    hide KeyIn;
    if a == [] {
      assert a + b == b;
    } else {
      FirstKeyConcat(a[1..], b);
      DropOfConcat(a, b, 1);
    }
  }

  lemma {:induction false} AsciiIsText(s: seq<byte>)
    requires forall i :: 0 <= i < |s| ==> s[i] < 128
    ensures IsText(s)
  {
    if s != [] {
      AsciiIsText(s[1..]);
    }
  }

  lemma GraphicIsText(s: seq<byte>)
    requires AllGraphic(s)
    ensures IsText(s)
  {
    forall i | 0 <= i < |s| ensures s[i] < 128 {
      assert Graphic(s[i]);
    }
    AsciiIsText(s);
  }

  lemma {:induction false} GroupsAscii(parts: seq<seq<byte>>)
    requires forall i :: 0 <= i < |parts| ==> Symbols(parts[i])
    ensures forall x :: x in Groups(parts) ==> x < 128
  {
    hide Symbol;
    if parts != [] {
      GroupsAscii(parts[1..]);
      SymbolsAscii(parts[0]);
    }
  }

  lemma SymbolsAscii(s: seq<byte>)
    requires Symbols(s)
    ensures forall x :: x in s ==> x < 128
  {
    hide Symbol;
    forall x | x in s ensures x < 128 {
      var i :| 0 <= i < |s| && s[i] == x;
      assert Symbol(s[i]);
      SymbolRange(x);
    }
  }

  lemma DisplayIsAscii(key: SecretKey)
    requires IsKey(key)
    ensures forall i :: 0 <= i < |Display(key)| ==> Display(key)[i] < 128
  {
    hide Symbol;
    var parts := ChunksOf(key.secret, GROUP_CHARS);
    forall i | 0 <= i < |parts| ensures Symbols(parts[i]) {
      forall j | 0 <= j < |parts[i]| ensures Symbol(parts[i][j]) {
        assert parts[i][j] in key.secret;
      }
    }
    GroupsAscii(parts);
    SymbolsAscii(key.id);
    var head, groups := VERSION + [DASH], Groups(parts);
    forall i | 0 <= i < |Display(key)| ensures Display(key)[i] < 128 {
      var x := Display(key)[i];
      assert x in head || x in key.id || x in groups;
    }
  }

  /** The printed key is found in its own string. */
  lemma KeyInDisplay(key: SecretKey)
    requires IsKey(key)
    ensures KeyIn(Display(key)) == Some(key)
  {
    hide Symbol, SecretKeys.Parse, IsText;
    DisplayIsAscii(key);
    AsciiIsText(Display(key));
    ParseDisplayed(key);
    assert Display(key)[..3] == KeyMark();
  }

  /** No label is a key, and none before the address is the email's. */
  lemma LabelsApart()
    ensures KeyIn(Title()).None? && KeyIn(Tagline()).None? && KeyIn(AddressLabel()).None?
    ensures KeyIn(EmailLabel()).None? && KeyIn(KeyLabel()).None?
    ensures EmailLabel() !in [Title()] + [Tagline()] + [AddressLabel()]
  {
    hide Title, Tagline, AddressLabel, EmailLabel, KeyLabel, SecretKeys.Parse, IsText;
  }

  lemma SingleKey(s: seq<byte>)
    ensures FirstKey([s]) == KeyIn(s)
    ensures s != [] && s[0] != 90 ==> KeyIn(s).None?
  {
    hide SecretKeys.Parse, IsText;
    assert FirstKey([]).None?;
  }

  lemma OpeningKey(kit: Kit, key: SecretKey)
    requires IsKey(key)
    ensures FirstKey(Opening(kit, Display(key))) == OrElse(FirstKey(UrlLines(kit) + EmailLines(kit)), Some(key))
  {
    hide FirstKey, KeyIn, Title, Tagline, AddressLabel, EmailLabel, KeyLabel, Display, ChunksOf, IsKey;
    var url, email := UrlLines(kit), EmailLines(kit);
    var top := [Title()] + [Tagline()] + [AddressLabel()];
    LabelsApart();
    SingleKey(Title());
    SingleKey(Tagline());
    SingleKey(AddressLabel());
    SingleKey(EmailLabel());
    SingleKey(KeyLabel());
    SingleKey(Display(key));
    KeyInDisplay(key);
    FirstKeyConcat([Title()], [Tagline()]);
    FirstKeyConcat([Title()] + [Tagline()], [AddressLabel()]);
    FirstKeyConcat(top, url);
    FirstKeyConcat(top + url, [EmailLabel()]);
    FirstKeyConcat(top + url + [EmailLabel()], email);
    FirstKeyConcat(top + url + [EmailLabel()] + email, [KeyLabel()]);
    FirstKeyConcat(top + url + [EmailLabel()] + email + [KeyLabel()], [Display(key)]);
    FirstKeyConcat(url, email);
  }

  // ---------------------------------------------------------------- the email

  lemma {:induction false} EmailSkips(a: seq<seq<byte>>, b: seq<seq<byte>>)
    requires EmailLabel() !in a
    ensures EmailOf(a + b) == EmailOf(b)
  {
    hide EmailLabel, LooksLikeEmail, Gathered;
    if a == [] {
      assert a + b == b;
    } else {
      assert a[0] in a;
      EmailSkips(a[1..], b);
      DropOfConcat(a, b, 1);
    }
  }

  ghost predicate GraphicLines(lines: seq<seq<byte>>) {
    forall i :: 0 <= i < |lines| ==> AllGraphic(lines[i])
  }

  lemma {:induction false} GatherLines(lines: seq<seq<byte>>, rest: seq<seq<byte>>)
    requires GraphicLines(lines)
    ensures Gathered(lines + [KeyLabel()] + rest) == Some(Flat(lines))
  {
    hide KeyLabel, IsText;
    var all := lines + [KeyLabel()] + rest;
    if lines == [] {
      assert all[0] == KeyLabel();
    } else {
      assert AllGraphic(lines[0]);
      GraphicIsText(lines[0]);
      if |lines[0]| > 6 {
        assert Graphic(lines[0][6]);
      }
      assert lines[0] != KeyLabel();
      GatherLines(lines[1..], rest);
      assert all[1..] == lines[1..] + [KeyLabel()] + rest;
    }
  }

  lemma {:induction false} FullChunks(s: seq<byte>, size: nat, i: nat)
    requires size > 0 && i + 1 < |ChunksOf(s, size)|
    ensures |ChunksOf(s, size)[i]| == size
  {
    if i > 0 {
      FullChunks(s[size..], size, i - 1);
    }
  }

  lemma LinesAreGraphic(value: seq<byte>)
    requires AllGraphic(value)
    ensures GraphicLines(ChunksOf(value, PER_LINE))
  {
    var lines := ChunksOf(value, PER_LINE);
    forall i | 0 <= i < |lines| ensures AllGraphic(lines[i]) {
      forall j | 0 <= j < |lines[i]| ensures Graphic(lines[i][j]) {
        assert lines[i][j] in lines[i];
        var k :| 0 <= k < |value| && value[k] == lines[i][j];
        assert Graphic(value[k]);
      }
    }
  }

  /** What follows a label EMAIL, up to the key's label, is the email that is read. */
  lemma EmailAfterLabel(lines: seq<seq<byte>>, rest: seq<seq<byte>>)
    requires GraphicLines(lines) && LooksLikeEmail(Flat(lines))
    ensures EmailOf([EmailLabel()] + (lines + [KeyLabel()] + rest)) == Some(Flat(lines))
  {
    hide EmailLabel, KeyLabel, LooksLikeEmail, GraphicLines, Gathered;
    GatherLines(lines, rest);
    var more := lines + [KeyLabel()] + rest;
    assert ([EmailLabel()] + more)[1..] == more;
  }

  /** The email that is read: the one printed, unless the address wraps to a last line saying EMAIL. */
  function EmailAsRead(kit: Kit): seq<byte> {
    if EmailLabel() in UrlLines(kit) then EmailLabel() + kit.email else kit.email
  }

  lemma OnlyLastCanBeLabel(kit: Kit)
    requires EmailLabel() in UrlLines(kit)
    ensures var lines := UrlLines(kit);
            && lines != []
            && lines == lines[..|lines| - 1] + [EmailLabel()]
            && EmailLabel() !in lines[..|lines| - 1]
  {
    hide EmailLabel;
    var lines := UrlLines(kit);
    var n := |lines| - 1;
    forall i | 0 <= i < n ensures lines[i] != EmailLabel() {
      FullChunks(kit.signInUrl, PER_LINE, i);
    }
    var j :| 0 <= j < |lines| && lines[j] == EmailLabel();
    assert j == n;
    assert lines == lines[..n] + [lines[n]];
  }

  lemma OpeningParts(kit: Kit, key: seq<byte>, after: seq<seq<byte>>)
    ensures Opening(kit, key) + after ==
            [Title()] + [Tagline()] + [AddressLabel()]
            + (UrlLines(kit) + ([EmailLabel()] + (EmailLines(kit) + [KeyLabel()] + ([key] + after))))
  {
    hide Title, Tagline, AddressLabel, EmailLabel, KeyLabel, ChunksOf;
    var top, url, email := [Title()] + [Tagline()] + [AddressLabel()], UrlLines(kit), EmailLines(kit);
    var tail := [key] + after;
    Associative(top + url + [EmailLabel()] + email + [KeyLabel()], [key], after);
    Associative(top + url + [EmailLabel()], email, [KeyLabel()]);
    Associative(top + url + [EmailLabel()], email + [KeyLabel()], tail);
    Associative(top + url, [EmailLabel()], email + [KeyLabel()] + tail);
    Associative(top, url, [EmailLabel()] + (email + [KeyLabel()] + tail));
  }

  lemma EmailIsPrinted(kit: Kit)
    requires Printable(kit)
    ensures GraphicLines(EmailLines(kit)) && Flat(EmailLines(kit)) == kit.email
    ensures LooksLikeEmail(kit.email)
  {
    LinesAreGraphic(kit.email);
    FlatChunks(kit.email, PER_LINE);
  }

  lemma OpeningEmail(kit: Kit, key: seq<byte>, after: seq<seq<byte>>)
    requires Printable(kit)
    ensures EmailOf(Opening(kit, key) + after) == Some(EmailAsRead(kit))
  {
    hide Printable, Opening, UrlLines, EmailLines, EmailOf, Title, Tagline, AddressLabel, EmailLabel, KeyLabel,
      GraphicLines, LooksLikeEmail, Flat;
    var url, lines, rest := UrlLines(kit), EmailLines(kit), [key] + after;
    var tail := [EmailLabel()] + (lines + [KeyLabel()] + rest);
    OpeningParts(kit, key, after);
    LabelsApart();
    EmailSkips([Title()] + [Tagline()] + [AddressLabel()], url + tail);
    EmailIsPrinted(kit);
    if EmailLabel() in url {
      OnlyLastCanBeLabel(kit);
      var before, more := url[..|url| - 1], [EmailLabel()] + lines;
      Associative(before, [EmailLabel()], tail);
      EmailSkips(before, [EmailLabel()] + tail);
      LabelThenLines(lines);
      assert tail == more + [KeyLabel()] + rest;
      EmailAfterLabel(more, rest);
    } else {
      EmailSkips(url, tail);
      EmailAfterLabel(lines, rest);
    }
  }

  lemma LabelThenLines(lines: seq<seq<byte>>)
    requires GraphicLines(lines) && LooksLikeEmail(Flat(lines))
    ensures GraphicLines([EmailLabel()] + lines)
    ensures Flat([EmailLabel()] + lines) == EmailLabel() + Flat(lines)
    ensures LooksLikeEmail(EmailLabel() + Flat(lines))
  {
    hide EmailLabel;
    var more := [EmailLabel()] + lines;
    assert more[1..] == lines;
    forall i | 0 <= i < |more| ensures AllGraphic(more[i]) {
      if i > 0 {
        assert more[i] == lines[i - 1];
      }
    }
  }

  // ---------------------------------------------------------------- the round trip

  /** The Secret Key that is read: the first wrapped line that is a key, or else the one printed. */
  function KeyAsRead(kit: Kit): SecretKey {
    OrElse(FirstKey(UrlLines(kit) + EmailLines(kit)), Some(kit.secretKey)).value
  }

  lemma RenderedStrings(kit: Kit, layout: Layout) returns (after: seq<seq<byte>>)
    requires Printable(kit)
    ensures LiteralStrings(Rendered(kit, layout)) == Opening(kit, Display(kit.secretKey)) + after
  {
    hide LiteralStrings, Document, Stream, TextsOf, PageItems, Opening, Display, ValidateEmail, ValidateUrl, IsKey,
      Title, Producer;
    var key := Display(kit.secretKey);
    var items := PageItems(kit, key);
    var content, texts := Stream(layout, items), TextsOf(items);
    StreamStrings(layout, items);
    DocumentStrings(content, texts);
    var more := PageTexts(kit, key);
    Associative(Opening(kit, key), more, [Title(), Producer()]);
    after := more + [Title(), Producer()];
  }

  lemma RenderedSize(kit: Kit, layout: Layout)
    requires Printable(kit)
    ensures |Rendered(kit, layout)| <= MAX_KIT_BYTES && FileMark() <= Rendered(kit, layout)
  {
    hide Stream, ValidateEmail, ValidateUrl, IsKey, PageItems, Body, Display, Header, FileMark;
    var key := Display(kit.secretKey);
    DisplayLength(kit.secretKey);
    PageIsShort(kit, key);
    var content := Stream(layout, PageItems(kit, key));
    StreamFits(layout, PageItems(kit, key));
    DocumentSize(content);
    BodyGrows(content, 0, OBJECT_COUNT);
    HeaderIsBody(content);
  }

  lemma HeaderIsBody(content: seq<byte>)
    ensures Body(content, 0) == Header() && FileMark() <= Body(content, 0)
  {
    hide Header, FileMark;
  }

  /** What every rendered kit reads as, for every address, email, key, date and layout. */
  lemma RenderedReadsAs(kit: Kit, layout: Layout)
    requires Printable(kit)
    ensures ReadBack(Rendered(kit, layout)) == Some(ReadKit(Some(EmailAsRead(kit)), KeyAsRead(kit)))
  {
    hide Rendered, LiteralStrings, Opening, FirstKey, EmailOf, FileMark, Display, UrlLines, EmailLines, EmailAsRead,
      ValidateEmail, ValidateUrl, IsKey;
    var after := RenderedStrings(kit, layout);
    RenderedSize(kit, layout);
    OpeningKey(kit, kit.secretKey);
    FirstKeyConcat(Opening(kit, Display(kit.secretKey)), after);
    OpeningEmail(kit, Display(kit.secretKey), after);
  }

  /** No wrapped line of the address or the email is a Secret Key other than this one. */
  predicate NoOtherKey(kit: Kit) {
    FirstKey(UrlLines(kit) + EmailLines(kit)) in {None, Some(kit.secretKey)}
  }

  /**
   A kit reads back as it was made exactly when its address does not wrap to a
   line saying EMAIL and no line before the key reads as another key.
   */
  lemma ReadsBackExactly(kit: Kit, layout: Layout)
    requires Printable(kit)
    ensures ReadBack(Rendered(kit, layout)) == Some(ReadKit(Some(kit.email), kit.secretKey)) <==>
            EmailLabel() !in UrlLines(kit) && NoOtherKey(kit)
  {
    hide Rendered, ReadBack, FirstKey, UrlLines, EmailLines, Printable, EmailLabel;
    RenderedReadsAs(kit, layout);
    assert |EmailLabel() + kit.email| > |kit.email|;
  }

  /** An email of one line is never read as a key: it holds an @. */
  lemma OneLineEmailIsNoKey(kit: Kit)
    requires ValidateEmail(kit.email).Ok? && |kit.email| <= PER_LINE
    ensures FirstKey(EmailLines(kit)).None?
  {
    SingleKey(kit.email);
    SymbolRange(AT);
    StrangerIsNoKey(kit.email, AT);
    hide SecretKeys.Parse, IsText, Symbol;
  }

  /** With an address of one line, only an email line that is a key can spoil the reading. */
  lemma ShortAddressReadsBack(kit: Kit, layout: Layout)
    requires Printable(kit)
    requires |kit.signInUrl| <= PER_LINE && (|kit.email| <= PER_LINE || FirstKey(EmailLines(kit)).None?)
    ensures ReadBack(Rendered(kit, layout)) == Some(ReadKit(Some(kit.email), kit.secretKey))
  {
    hide Rendered, ReadBack, FirstKey, KeyIn, IsKey, ValidateEmail, EmailLabel, EmailLines;
    ReadsBackExactly(kit, layout);
    assert UrlLines(kit) == [kit.signInUrl];
    assert kit.signInUrl[0] == HttpsPrefix()[0];
    SingleKey(kit.signInUrl);
    FirstKeyConcat(UrlLines(kit), EmailLines(kit));
    if |kit.email| <= PER_LINE {
      OneLineEmailIsNoKey(kit);
    }
  }

  // ---------------------------------------------------------------- where reading back fails

  /** An address whose second line is EMAIL. */
  function HidingUrl(): seq<byte> {
    HttpsPrefix() + seq(61, _ => 97 as byte) + EmailLabel()
  }

  lemma AddressCanSpoilTheEmail(kit: Kit, layout: Layout)
    requires Printable(kit) && kit.signInUrl == HidingUrl()
    ensures ReadBack(Rendered(kit, layout)) == Some(ReadKit(Some(EmailLabel() + kit.email), KeyAsRead(kit)))
  {
    hide Rendered, ReadBack, Printable, EmailLabel, UrlLines, HidingUrl, KeyAsRead;
    RenderedReadsAs(kit, layout);
    HidingUrlWraps(kit);
  }

  lemma HidingUrlWraps(kit: Kit)
    requires kit.signInUrl == HidingUrl()
    ensures EmailLabel() in UrlLines(kit)
  {
    hide EmailLabel, HttpsPrefix;
    var url := HidingUrl();
    assert |url| == 74 && url[69..] == EmailLabel();
    assert UrlLines(kit)[1] == ChunksOf(url[69..], PER_LINE)[0] == EmailLabel();
  }

  /** An email whose first line is a key: 31 zeros after the version and a run of dashes. */
  function KeyLine(): seq<byte> {
    KeyMark() + seq(35, _ => DASH) + seq(31, _ => 48 as byte)
  }

  function ShadowingEmail(): seq<byte> {
    KeyLine() + [AT, 120]
  }

  function ZeroKey(): SecretKey {
    SecretKey(seq(6, _ => 48 as byte), seq(25, _ => 48 as byte))
  }

  lemma {:induction false} NormalDashes(n: nat)
    ensures Normal(seq(n, _ => DASH)) == []
  {
    if n > 0 {
      assert seq(n, _ => DASH)[1..] == seq(n - 1, _ => DASH);
      NormalDashes(n - 1);
    }
  }

  lemma KeyLineIsZeroKey()
    ensures KeyIn(KeyLine()) == Some(ZeroKey())
  {
    hide SecretKeys.Parse, Normal, IsText, Symbol;
    KeyLineReads();
    var key := ZeroKey();
    SymbolRange(48);
    ParseExact(KeyLine(), key);
    AsciiIsText(KeyLine());
    assert KeyLine()[..3] == KeyMark();
  }

  lemma KeyLineReads()
    ensures Normal(KeyLine()) == VERSION + ZeroKey().id + ZeroKey().secret
  {
    hide Normal, Symbol;
    var zeros, dashes := seq(31, _ => 48 as byte), seq(35, _ => DASH);
    SymbolRange(48);
    NormalDashes(35);
    NormalSymbols(zeros);
    NormalConcat(KeyMark() + dashes, zeros);
    NormalConcat(KeyMark(), dashes);
    NormalPrefix();
    assert KeyMark() == VERSION + [DASH];
    assert VERSION + [] + zeros == VERSION + ZeroKey().id + ZeroKey().secret;
  }

  /** Both are values a kit accepts. */
  lemma SpoilersAreValid()
    ensures ValidateUrl(HidingUrl()).Ok? && ValidateEmail(ShadowingEmail()).Ok?
  {
    hide FirstAt, EmailLabel;
    NoAtBefore(KeyLine(), [AT, 120]);
  }

  lemma {:induction false} NoAtBefore(a: seq<byte>, b: seq<byte>)
    requires AT !in a && b != [] && b[0] == AT
    ensures FirstAt(a + b) == |a|
  {
    if a == [] {
      assert a + b == b;
    } else {
      NoAtBefore(a[1..], b);
      DropOfConcat(a, b, 1);
    }
  }

  lemma EmailCanSpoilTheKey(kit: Kit, layout: Layout)
    requires Printable(kit) && |kit.signInUrl| <= PER_LINE && kit.email == ShadowingEmail()
    ensures ReadBack(Rendered(kit, layout)) == Some(ReadKit(Some(EmailAsRead(kit)), ZeroKey()))
    ensures kit.secretKey != ZeroKey() ==> ReadBack(Rendered(kit, layout)).value.secretKey != kit.secretKey
  {
    hide Rendered, ReadBack, FirstKey, KeyIn, IsKey, ValidateEmail, ShadowingEmail, EmailLines, EmailAsRead, ZeroKey;
    RenderedReadsAs(kit, layout);
    assert UrlLines(kit) == [kit.signInUrl];
    assert kit.signInUrl[0] == HttpsPrefix()[0];
    SingleKey(kit.signInUrl);
    FirstKeyConcat(UrlLines(kit), EmailLines(kit));
    ShadowingEmailHoldsKey(kit);
  }

  lemma ShadowingEmailHoldsKey(kit: Kit)
    requires kit.email == ShadowingEmail()
    ensures FirstKey(EmailLines(kit)) == Some(ZeroKey())
  {
    hide FirstKey, KeyIn, ZeroKey;
    var email := ShadowingEmail();
    assert email[..69] == KeyLine();
    assert EmailLines(kit) == [KeyLine()] + ChunksOf(email[69..], PER_LINE);
    FirstKeyConcat([KeyLine()], ChunksOf(email[69..], PER_LINE));
    SingleKey(KeyLine());
    KeyLineIsZeroKey();
  }
}
