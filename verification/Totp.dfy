/** One-time-password setups as `otpauth://` URIs: printing them and parsing them back. */
module OneTimePassword {
  import opened Common
  import opened Text
  import opened Percent
  import Base32
  import Bits
  import Decimal
  import Utf8

  const MIN_SECRET_BYTES: nat := 10
  const MAX_SECRET_BYTES: nat := 128
  const MAX_LABEL_CHARS: nat := 256
  const MAX_INPUT: nat := 4096
  const U32_MAX: nat := 0xFFFF_FFFF
  const U64_MAX: nat := 0xFFFF_FFFF_FFFF_FFFF

  datatype Algorithm = Sha1 | Sha256 | Sha512

  datatype OtpError = Invalid | Hotp | TooShort | Unsupported

  datatype Totp = Totp(secret: seq<nat>, algorithm: Algorithm, digits: nat, period: nat, issuer: string,
                       account: string)
  {
    /** What the constructor accepts; every setup in use satisfies it. */
    predicate Valid() {
      && MIN_SECRET_BYTES <= |secret| <= MAX_SECRET_BYTES
      && (forall i :: 0 <= i < |secret| ==> secret[i] < 256)
      && 6 <= digits <= 8 && 1 <= period <= 300
      && |issuer| <= MAX_LABEL_CHARS && |account| <= MAX_LABEL_CHARS
    }
  }

  function Name(a: Algorithm): string {
    match a case Sha1 => "SHA1" case Sha256 => "SHA256" case Sha512 => "SHA512"
  }

  // ---------------------------------------------------------------- printing

  function Label(t: Totp): string {
    (if t.issuer != "" then PercentEncode(t.issuer) + ":" else "") + PercentEncode(t.account)
  }

  function SecretText(t: Totp): string
    requires t.Valid()
  {
    Base32.DecodeEncode(t.secret);
    Base32.Spelled(Base32.Encoded(t.secret))
  }

  function Optional(given: bool, param: string): seq<string> {
    if given then [param] else []
  }

  /** The parameters after the secret, each only when it differs from its default. */
  function Extras(t: Totp): seq<string> {
    Optional(t.issuer != "", "issuer=" + PercentEncode(t.issuer)) +
    Optional(t.algorithm != Sha1, "algorithm=" + Name(t.algorithm)) +
    Optional(t.digits != 6, "digits=" + Decimal.Numeral(t.digits)) +
    Optional(t.period != 30, "period=" + Decimal.Numeral(t.period))
  }

  function Ampersands(params: seq<string>): string {
    if params == [] then "" else "&" + params[0] + Ampersands(params[1..])
  }

  function ToUri(t: Totp): string
    requires t.Valid()
  {
    "otpauth://totp/" + Label(t) + "?secret=" + SecretText(t) + Ampersands(Extras(t))
  }

  // ---------------------------------------------------------------- parsing

  function New(secret: seq<nat>, algorithm: Algorithm, digits: nat, period: nat, issuer: string, account: string):
    Result<Totp, OtpError>
  {
    if |secret| < MIN_SECRET_BYTES then Err(TooShort)
    else if |secret| > MAX_SECRET_BYTES then Err(Invalid)
    else if !(6 <= digits <= 8) || !(1 <= period <= 300) then Err(Unsupported)
    else if |issuer| > MAX_LABEL_CHARS || |account| > MAX_LABEL_CHARS then Err(Invalid)
    else Ok(Totp(secret, algorithm, digits, period, issuer, account))
  }

  /** What the query has said so far. */
  datatype Fields = Fields(secret: Option<seq<nat>>, issuer: Option<string>, algorithm: Algorithm, digits: nat,
                           period: nat)

  const DEFAULTS := Fields(None, None, Sha1, 6, 30)

  function KeyValue(pair: string): (string, string) {
    var kv := SplitOnce(pair, '=');
    if kv.None? then (pair, "") else kv.value
  }

  function Apply(f: Fields, pair: string): Result<Fields, OtpError> {
    var (k, raw) := KeyValue(pair);
    match PercentDecode(raw)
    case None => Err(Invalid)
    case Some(v) => Assign(f, Lower(k), v)
  }

  function Assign(f: Fields, key: string, v: string): Result<Fields, OtpError> {
    if key == "secret" then
      var bytes := Base32.RustDecoded(v);
      if bytes.None? then Err(Invalid) else Ok(f.(secret := bytes))
    else if key == "issuer" then Ok(f.(issuer := Some(Trim(v))))
    else if key == "algorithm" then
      var name := Upper(v);
      if name == "SHA1" then Ok(f.(algorithm := Sha1))
      else if name == "SHA256" then Ok(f.(algorithm := Sha256))
      else if name == "SHA512" then Ok(f.(algorithm := Sha512))
      else Err(Unsupported)
    else if key == "digits" then
      var n := Decimal.Parse(v, U32_MAX);
      if n.None? then Err(Unsupported) else Ok(f.(digits := n.value))
    else if key == "period" then
      var n := Decimal.Parse(v, U64_MAX);
      if n.None? then Err(Unsupported) else Ok(f.(period := n.value))
    else Ok(f)
  }

  function ApplyAll(f: Fields, pairs: seq<string>): Result<Fields, OtpError>
    decreases |pairs|
  {
    if pairs == [] then Ok(f)
    else if pairs[0] == "" then ApplyAll(f, pairs[1..])
    else match Apply(f, pairs[0])
      case Err(e) => Err(e)
      case Ok(g) => ApplyAll(g, pairs[1..])
  }

  function LabelParts(text: string): (string, string) {
    match SplitOnce(text, ':')
    case Some((i, a)) => (Trim(i), Trim(a))
    case None => ("", Trim(text))
  }

  function Assemble(f: Fields, labelIssuer: string, account: string): Result<Totp, OtpError> {
    if f.secret.None? then Err(Invalid)
    else
      var issuer := if f.issuer.Some? && f.issuer.value != "" then f.issuer.value else labelIssuer;
      New(f.secret.value, f.algorithm, f.digits, f.period, issuer, account)
  }

  function LabelQuery(rest: string): (string, string) {
    var lq := SplitOnce(rest, '?');
    if lq.None? then (rest, "") else lq.value
  }

  function FromUri(uri: string): Result<Totp, OtpError>
    requires |uri| >= 10
  {
    match SplitOnce(uri[10..], '/')
    case None => Err(Invalid)
    case Some((kind, rest)) =>
      if Lower(kind) == "hotp" then Err(Hotp)
      else if Lower(kind) != "totp" then Err(Invalid)
      else
        var (place, query) := LabelQuery(rest);
        match PercentDecode(place)
        case None => Err(Invalid)
        case Some(text) =>
          var (labelIssuer, account) := LabelParts(text);
          match ApplyAll(DEFAULTS, Split(query, '&'))
          case Err(e) => Err(e)
          case Ok(f) => Assemble(f, labelIssuer, account)
  }

  function FromKey(key: string): Result<Totp, OtpError> {
    match Base32.RustDecoded(key) case None => Err(Invalid) case Some(secret) => New(secret, Sha1, 6, 30, "", "")
  }

  function Parse(given: string): Result<Totp, OtpError> {
    var input := Trim(given);
    if |Utf8.Encode(input)| > MAX_INPUT then Err(Invalid)
    else if |input| >= 10 && Lower(input[..10]) == "otpauth://" then FromUri(input)
    else FromKey(input)
  }

  // ---------------------------------------------------------------- the parsing loop

  method ParseQuery(query: string) returns (r: Result<Fields, OtpError>)
    ensures r == ApplyAll(DEFAULTS, Split(query, '&'))
  {
    hide Apply, Split;
    var pairs, f, i := Split(query, '&'), DEFAULTS, 0;
    assert pairs[0..] == pairs;
    while i < |pairs|
      invariant 0 <= i <= |pairs|
      invariant ApplyAll(DEFAULTS, pairs) == ApplyAll(f, pairs[i..])
    {
      DropOfDrop(pairs, i, 1);
      if pairs[i] != "" {
        var g := Apply(f, pairs[i]);
        if g.Err? {
          return g;
        }
        f := g.value;
      }
      i := i + 1;
    }
    r := Ok(f);
  }

  // ---------------------------------------------------------------- printed URIs are visible ASCII

  predicate Graphic(c: char) {
    '!' <= c <= '~'
  }

  ghost predicate AllGraphic(s: string) {
    forall i :: 0 <= i < |s| ==> Graphic(s[i])
  }

  lemma {:induction false} AmpersandsGraphic(params: seq<string>)
    requires GoodParams(params)
    ensures AllGraphic(Ampersands(params))
  {
    if params != [] {
      AmpersandsGraphic(params[1..]);
    }
  }

  lemma EncodedGraphic(s: string)
    ensures AllGraphic(PercentEncode(s))
    ensures '/' !in PercentEncode(s) && '?' !in PercentEncode(s) && '&' !in PercentEncode(s)
  {
    EncodedChars(s);
  }

  /** Base32 symbols and decimal digits: nothing that means something in a URI. */
  predicate Plain(c: char) {
    'A' <= c <= 'Z' || '0' <= c <= '9'
  }

  ghost predicate AllPlain(s: string) {
    forall i :: 0 <= i < |s| ==> Plain(s[i])
  }

  lemma SecretPlain(t: Totp)
    requires t.Valid()
    ensures AllPlain(SecretText(t))
  {
    Base32.DecodeEncode(t.secret);
    hide Base32.Encoded;
  }

  lemma PlainText(s: string)
    requires AllPlain(s)
    ensures AllGraphic(s) && PercentDecode(s) == Some(s) && '&' !in s
  {
    DecodeLiteral(s);
  }

  lemma NamePlain(a: Algorithm)
    ensures AllPlain(Name(a)) && Upper(Name(a)) == Name(a)
  {
  }

  ghost predicate GoodParams(params: seq<string>) {
    forall i :: 0 <= i < |params| ==> AllGraphic(params[i]) && '&' !in params[i]
  }

  lemma GoodOptional(given: bool, key: string, v: string)
    requires AllGraphic(key) && AllGraphic(v) && '&' !in key && '&' !in v
    ensures GoodParams(Optional(given, key + v))
  {
  }

  lemma GoodConcat(a: seq<string>, b: seq<string>)
    requires GoodParams(a) && GoodParams(b)
    ensures GoodParams(a + b)
  {
  }

  lemma KeysVisible()
    ensures AllGraphic("issuer=") && AllGraphic("algorithm=") && AllGraphic("digits=") && AllGraphic("period=")
    ensures '&' !in "issuer=" && '&' !in "algorithm=" && '&' !in "digits=" && '&' !in "period="
  {
  }

  lemma ExtrasGood(t: Totp)
    ensures GoodParams(Extras(t))
  {
    hide PercentEncode, Decimal.Numeral, Name, Extras, GoodParams, Optional, AllGraphic;
    KeysVisible();
    EncodedGraphic(t.issuer);
    NamePlain(t.algorithm);
    PlainText(Name(t.algorithm));
    PlainText(Decimal.Numeral(t.digits));
    PlainText(Decimal.Numeral(t.period));
    GoodOptional(t.issuer != "", "issuer=", PercentEncode(t.issuer));
    GoodOptional(t.algorithm != Sha1, "algorithm=", Name(t.algorithm));
    GoodOptional(t.digits != 6, "digits=", Decimal.Numeral(t.digits));
    GoodOptional(t.period != 30, "period=", Decimal.Numeral(t.period));
    GoodExtras(t);
  }

  lemma GoodExtras(t: Totp)
    requires GoodParams(Optional(t.issuer != "", "issuer=" + PercentEncode(t.issuer)))
    requires GoodParams(Optional(t.algorithm != Sha1, "algorithm=" + Name(t.algorithm)))
    requires GoodParams(Optional(t.digits != 6, "digits=" + Decimal.Numeral(t.digits)))
    requires GoodParams(Optional(t.period != 30, "period=" + Decimal.Numeral(t.period)))
    ensures GoodParams(Extras(t))
  {
    hide PercentEncode, Decimal.Numeral, Name, GoodParams, Optional;
    var a := Optional(t.issuer != "", "issuer=" + PercentEncode(t.issuer));
    var b := Optional(t.algorithm != Sha1, "algorithm=" + Name(t.algorithm));
    var c := Optional(t.digits != 6, "digits=" + Decimal.Numeral(t.digits));
    var d := Optional(t.period != 30, "period=" + Decimal.Numeral(t.period));
    GoodConcat(a, b);
    GoodConcat(a + b, c);
    GoodConcat(a + b + c, d);
  }

  lemma LabelGraphic(t: Totp)
    ensures AllGraphic(Label(t)) && '?' !in Label(t)
  {
    EncodedGraphic(t.issuer);
    EncodedGraphic(t.account);
    hide PercentEncode;
  }

  lemma {:induction false} AsciiSize(s: string)
    requires AllGraphic(s)
    ensures |Utf8.Encode(s)| == |s|
  {
    if s != [] {
      AsciiSize(s[1..]);
    }
  }

  function Query(t: Totp): string
    requires t.Valid()
  {
    "secret=" + SecretText(t) + Ampersands(Extras(t))
  }

  /** A printed URI is its own trimmed form, one byte a character. */
  lemma UriVisible(t: Totp)
    requires t.Valid()
    ensures Trim(ToUri(t)) == ToUri(t) && |Utf8.Encode(ToUri(t))| == |ToUri(t)|
  {
    hide Label, Extras, Ampersands, SecretText, Utf8.Encode, AllPlain, GoodParams, Trim;
    LabelGraphic(t);
    ExtrasGood(t);
    AmpersandsGraphic(Extras(t));
    SecretPlain(t);
    PlainText(SecretText(t));
    GraphicUri(Label(t), SecretText(t), Ampersands(Extras(t)));
    AsciiSize(ToUri(t));
    TrimNothing(ToUri(t));
  }

  lemma GraphicUri(a: string, b: string, c: string)
    requires AllGraphic(a) && AllGraphic(b) && AllGraphic(c)
    ensures AllGraphic("otpauth://totp/" + a + "?secret=" + b + c)
  {
  }

  lemma UriParts(t: Totp)
    requires t.Valid()
    ensures ToUri(t) == "otpauth://" + ("totp" + "/" + (Label(t) + "?" + Query(t)))
  {
    hide Label, Extras, Ampersands, SecretText;
    Rearranged(Label(t), SecretText(t), Ampersands(Extras(t)));
  }

  lemma Rearranged(a: string, b: string, c: string)
    ensures "otpauth://totp/" + a + "?secret=" + b + c
         == "otpauth://" + ("totp" + "/" + (a + "?" + ("secret=" + b + c)))
  {
    assert "otpauth://totp/" == "otpauth://" + "totp" + "/" && "?secret=" == "?" + "secret=";
  }

  // ---------------------------------------------------------------- reading the query

  lemma SplitKey(key: string, v: string)
    requires '=' !in key
    ensures KeyValue(key + "=" + v) == (key, v)
  {
    SplitOnceAt(key, v, '=');
  }

  lemma LowerStays()
    ensures Lower("secret") == "secret" && Lower("issuer") == "issuer" && Lower("algorithm") == "algorithm"
    ensures Lower("digits") == "digits" && Lower("period") == "period"
    ensures Lower("otpauth://") == "otpauth://" && Lower("totp") == "totp"
  {
  }

  lemma ApplySecret(f: Fields, t: Totp)
    requires t.Valid()
    ensures Apply(f, "secret=" + SecretText(t)) == Ok(f.(secret := Some(t.secret)))
  {
    hide PercentDecode, Lower;
    assert "secret=" + SecretText(t) == "secret" + "=" + SecretText(t);
    SplitKey("secret", SecretText(t));
    LowerStays();
    SecretPlain(t);
    PlainText(SecretText(t));
    Base32.RoundTrip(t.secret);
  }

  lemma ApplyIssuer(f: Fields, issuer: string)
    ensures Apply(f, "issuer=" + PercentEncode(issuer)) == Ok(f.(issuer := Some(Trim(issuer))))
  {
    hide PercentDecode, Lower, PercentEncode, Trim;
    assert "issuer=" + PercentEncode(issuer) == "issuer" + "=" + PercentEncode(issuer);
    SplitKey("issuer", PercentEncode(issuer));
    LowerStays();
    DecodeEncode(issuer);
  }

  lemma ApplyAlgorithm(f: Fields, a: Algorithm)
    ensures Apply(f, "algorithm=" + Name(a)) == Ok(f.(algorithm := a))
  {
    hide PercentDecode, Lower, Upper;
    assert "algorithm=" + Name(a) == "algorithm" + "=" + Name(a);
    SplitKey("algorithm", Name(a));
    LowerStays();
    NamePlain(a);
    PlainText(Name(a));
  }

  lemma ApplyDigits(f: Fields, n: nat)
    requires n <= 300
    ensures Apply(f, "digits=" + Decimal.Numeral(n)) == Ok(f.(digits := n))
  {
    hide PercentDecode, Lower, Decimal.Numeral, Decimal.Parse;
    assert "digits=" + Decimal.Numeral(n) == "digits" + "=" + Decimal.Numeral(n);
    SplitKey("digits", Decimal.Numeral(n));
    LowerStays();
    PlainText(Decimal.Numeral(n));
    Decimal.ParsePrinted(n, U32_MAX);
  }

  lemma ApplyPeriod(f: Fields, n: nat)
    requires n <= 300
    ensures Apply(f, "period=" + Decimal.Numeral(n)) == Ok(f.(period := n))
  {
    hide PercentDecode, Lower, Decimal.Numeral, Decimal.Parse;
    assert "period=" + Decimal.Numeral(n) == "period" + "=" + Decimal.Numeral(n);
    SplitKey("period", Decimal.Numeral(n));
    LowerStays();
    PlainText(Decimal.Numeral(n));
    Decimal.ParsePrinted(n, U64_MAX);
  }

  lemma {:induction false} ApplyAllConcat(f: Fields, a: seq<string>, b: seq<string>)
    ensures ApplyAll(f, a + b) == match ApplyAll(f, a) case Err(e) => Err(e) case Ok(g) => ApplyAll(g, b)
    decreases |a|
  {
    hide Apply;
    if a == [] {
      assert a + b == b;
    } else {
      assert (a + b)[1..] == a[1..] + b;
      if a[0] == "" {
        ApplyAllConcat(f, a[1..], b);
      } else if Apply(f, a[0]).Ok? {
        ApplyAllConcat(Apply(f, a[0]).value, a[1..], b);
      }
    }
  }

  lemma ApplyOptional(f: Fields, given: bool, param: string)
    requires param != ""
    ensures ApplyAll(f, Optional(given, param)) == if given then Apply(f, param) else Ok(f)
  {
    hide Apply;
    assert [param][1..] == [];
    assert Apply(f, param).Ok? ==> ApplyAll(Apply(f, param).value, []) == Ok(Apply(f, param).value);
  }

  /** What the printed query says: the secret and settings, and the issuer trimmed. */
  function Said(t: Totp): Fields {
    Fields(Some(t.secret), if t.issuer != "" then Some(Trim(t.issuer)) else None, t.algorithm, t.digits, t.period)
  }

  lemma QueryReads(t: Totp)
    requires t.Valid()
    ensures ApplyAll(DEFAULTS, ["secret=" + SecretText(t)] + Extras(t)) == Ok(Said(t))
  {
    hide Apply, PercentEncode, Decimal.Numeral, Name, SecretText, Trim, ApplyAll, Optional;
    var first := Optional(true, "secret=" + SecretText(t));
    var a := Optional(t.issuer != "", "issuer=" + PercentEncode(t.issuer));
    var b := Optional(t.algorithm != Sha1, "algorithm=" + Name(t.algorithm));
    var c := Optional(t.digits != 6, "digits=" + Decimal.Numeral(t.digits));
    var d := Optional(t.period != 30, "period=" + Decimal.Numeral(t.period));
    var f0 := DEFAULTS.(secret := Some(t.secret));
    var f1 := if t.issuer != "" then f0.(issuer := Some(Trim(t.issuer))) else f0;
    var f2 := f1.(algorithm := t.algorithm);
    var f3 := f2.(digits := t.digits);
    ApplySecret(DEFAULTS, t);
    ApplyOptional(DEFAULTS, true, "secret=" + SecretText(t));
    ApplyIssuer(f0, t.issuer);
    ApplyOptional(f0, t.issuer != "", "issuer=" + PercentEncode(t.issuer));
    ApplyAlgorithm(f1, t.algorithm);
    ApplyOptional(f1, t.algorithm != Sha1, "algorithm=" + Name(t.algorithm));
    ApplyDigits(f2, t.digits);
    ApplyOptional(f2, t.digits != 6, "digits=" + Decimal.Numeral(t.digits));
    ApplyPeriod(f3, t.period);
    ApplyOptional(f3, t.period != 30, "period=" + Decimal.Numeral(t.period));
    ApplyAllConcat(DEFAULTS, first, a);
    ApplyAllConcat(DEFAULTS, first + a, b);
    ApplyAllConcat(DEFAULTS, first + a + b, c);
    ApplyAllConcat(DEFAULTS, first + a + b + c, d);
    Grouped(first, a, b, c, d);
    OptionalGiven("secret=" + SecretText(t));
  }

  lemma Grouped<T>(first: seq<T>, a: seq<T>, b: seq<T>, c: seq<T>, d: seq<T>)
    ensures first + (a + b + c + d) == first + a + b + c + d
  {
  }

  lemma OptionalGiven(param: string)
    ensures Optional(true, param) == [param]
  {
  }

  lemma {:induction false} JoinedParams(first: string, params: seq<string>)
    ensures Join([first] + params, '&') == first + Ampersands(params)
    decreases |params|
  {
    var all := [first] + params;
    if params == [] {
      assert all == [first] && first + "" == first;
    } else {
      JoinedParams(params[0], params[1..]);
      assert all[1..] == params && [params[0]] + params[1..] == params;
      assert "&" + params[0] + Ampersands(params[1..]) == "&" + (params[0] + Ampersands(params[1..]));
      var more := params[0] + Ampersands(params[1..]);
      assert first + "&" + more == first + ("&" + more);
    }
  }

  lemma QuerySplits(t: Totp)
    requires t.Valid()
    ensures Split(Query(t), '&') == ["secret=" + SecretText(t)] + Extras(t)
  {
    hide SecretText, Extras, Ampersands, Split, Join;
    var params := ["secret=" + SecretText(t)] + Extras(t);
    JoinedParams("secret=" + SecretText(t), Extras(t));
    SecretPlain(t);
    PlainText(SecretText(t));
    ExtrasGood(t);
    assert '&' !in "secret=";
    SplitJoin(params, '&');
  }

  // ---------------------------------------------------------------- the round trip

  /** The printed label, decoded. */
  function LabelText(t: Totp): string {
    if t.issuer != "" then t.issuer + ":" + t.account else t.account
  }

  lemma LabelDecodes(t: Totp)
    ensures PercentDecode(Label(t)) == Some(LabelText(t))
  {
    hide PercentEncode, PercentDecode;
    if t.issuer != "" {
      DecodeLabel(t.issuer, t.account);
    } else {
      DecodeEncode(t.account);
      assert "" + PercentEncode(t.account) == PercentEncode(t.account);
    }
  }

  /** What parsing a printed URI gives, whatever the labels. */
  lemma ParsedUri(t: Totp)
    requires t.Valid()
    ensures var (labelIssuer, account) := LabelParts(LabelText(t));
            Parse(ToUri(t)) ==
            if |ToUri(t)| > MAX_INPUT then Err(Invalid) else Assemble(Said(t), labelIssuer, account)
  {
    hide Label, Query, ToUri, Split, ApplyAll, Lower, PercentDecode, Utf8.Encode, Trim, Assemble, Said, LabelParts,
      LabelText, AllGraphic;
    UriVisible(t);
    UriParts(t);
    LowerStays();
    LabelGraphic(t);
    LabelDecodes(t);
    QuerySplits(t);
    QueryReads(t);
    var uri := ToUri(t);
    var rest := Label(t) + "?" + Query(t);
    assert uri[10..] == "totp" + "/" + rest && uri[..10] == "otpauth://";
    SplitOnceAt("totp", rest, '/');
    SplitOnceAt(Label(t), Query(t), '?');
  }

  /** The labels that come back as they were. */
  predicate Faithful(t: Totp) {
    && Trim(t.issuer) == t.issuer && Trim(t.account) == t.account
    && ':' !in t.issuer
    && (t.issuer == "" ==> ':' !in t.account)
  }

  lemma LabelsComeBack(t: Totp)
    ensures var (labelIssuer, account) := LabelParts(LabelText(t));
            var said := if t.issuer != "" && Trim(t.issuer) != "" then Trim(t.issuer) else labelIssuer;
            said == t.issuer && account == t.account <==> Faithful(t)
  {
    hide Trim;
    var text := LabelText(t);
    var (labelIssuer, account) := LabelParts(text);
    SplitOnceIs(text, ':');
    TrimEmpty();
    if t.issuer != "" {
      SplitHere(t.issuer, t.account);
    }
    match SplitOnce(text, ':')
    case None =>
      TrimTrimmed(text);
      CountZero(t.account, ':');
    case Some((head, tail)) =>
      TrimTrimmed(head);
      TrimTrimmed(tail);
      TrimTrimmed(t.issuer);
      TrimCounts(tail, ':');
      CountConcat(head + ":", tail, ':');
      CountConcat(head, ":", ':');
      CountZero(head, ':');
      CountZero(t.issuer, ':');
      assert Count(":", ':') == 1;
      if t.issuer != "" {
        CountConcat(t.issuer + ":", t.account, ':');
        CountConcat(t.issuer, ":", ':');
      }
  }

  lemma TrimEmpty()
    ensures Trim("") == ""
  {
  }

  lemma SplitHere(issuer: string, account: string)
    ensures ':' !in issuer ==> SplitOnce(issuer + ":" + account, ':') == Some((issuer, account))
    ensures SplitOnce(issuer + ":" + account, ':').Some?
  {
    SplitOnceIs(issuer + ":" + account, ':');
    assert (issuer + ":" + account)[|issuer|] == ':';
    if ':' !in issuer {
      SplitOnceAt(issuer, account, ':');
    }
  }

  /** Parsing a printed setup gives it back exactly when its labels are faithful and the URI is not too long. */
  lemma UriRoundTrip(t: Totp)
    requires t.Valid()
    ensures Parse(ToUri(t)) == Ok(t) <==> Faithful(t) && |ToUri(t)| <= MAX_INPUT
  {
    hide Parse, ToUri, LabelParts, LabelText, Faithful, Trim;
    ParsedUri(t);
    LabelsComeBack(t);
  }

  // ---------------------------------------------------------------- what each input means

  /** What a setup must satisfy, and the error when it does not. */
  lemma NewMeaning(secret: seq<nat>, algorithm: Algorithm, digits: nat, period: nat, issuer: string, account: string)
    ensures var r := New(secret, algorithm, digits, period, issuer, account);
            && (r == Err(TooShort) <==> |secret| < 10)
            && (r == Err(Unsupported) <==>
                  10 <= |secret| <= 128 && (digits !in {6, 7, 8} || period == 0 || period > 300))
            && (r == Err(Invalid) <==>
                  || |secret| > 128
                  || (10 <= |secret| && digits in {6, 7, 8} && 1 <= period <= 300
                      && (|issuer| > 256 || |account| > 256)))
            && (r.Ok? ==> r.value == Totp(secret, algorithm, digits, period, issuer, account))
            && r != Err(Hotp)
  {
  }

  /** A key on its own is base32 for 10 to 128 bytes, and means SHA-1, six digits and thirty seconds. */
  lemma BareKey(given: string)
    requires |Utf8.Encode(Trim(given))| <= 4096
    requires |Trim(given)| >= 10 ==> Lower(Trim(given)[..10]) != "otpauth://"
    ensures var secret := Base32.RustDecoded(Trim(given));
            && (secret == None ==> Parse(given) == Err(Invalid))
            && (secret != None && |secret.value| < 10 ==> Parse(given) == Err(TooShort))
            && (secret != None && |secret.value| > 128 ==> Parse(given) == Err(Invalid))
            && (secret != None && 10 <= |secret.value| <= 128 ==>
                  Parse(given) == Ok(Totp(secret.value, Sha1, 6, 30, "", "")))
  {
    hide Base32.RustDecoded, Utf8.Encode, Trim, Lower, FromUri;
  }

  /** Input of more than 4096 bytes is not looked at. */
  lemma TooLong(given: string)
    requires |Utf8.Encode(Trim(given))| > 4096
    ensures Parse(given) == Err(Invalid)
  {
  }

  /** What follows the scheme is the kind, in any case: counters are named as unsupported, other kinds are not known. */
  lemma KindMeaning(scheme: string, kind: string, rest: string)
    requires |scheme| == 10 && '/' !in kind
    ensures FromUri(scheme + kind) == Err(Invalid)
    ensures Lower(kind) == "hotp" ==> FromUri(scheme + kind + "/" + rest) == Err(Hotp)
    ensures Lower(kind) != "hotp" && Lower(kind) != "totp" ==> FromUri(scheme + kind + "/" + rest) == Err(Invalid)
  {
    hide Lower, PercentDecode, ApplyAll, LabelParts, LabelQuery, Split;
    var uri := scheme + kind + "/" + rest;
    assert uri[10..] == kind + ['/'] + rest;
    SplitOnceAt(kind, rest, '/');
    assert (scheme + kind)[10..] == kind;
    SplitOnceIs(kind, '/');
  }

  /** One parameter of the query, its name in any case. */
  lemma ParameterMeaning(f: Fields, key: string, raw: string, v: string)
    requires '=' !in key
    ensures PercentDecode(raw) == None ==> Apply(f, key + "=" + raw) == Err(Invalid)
    ensures PercentDecode(raw) == Some(v) ==>
              var r, name, bytes := Apply(f, key + "=" + raw), Lower(key), Base32.RustDecoded(v);
              var small, large := Decimal.Parse(v, 0xFFFF_FFFF), Decimal.Parse(v, 0xFFFF_FFFF_FFFF_FFFF);
              && (name == "secret" ==> r == if bytes == None then Err(Invalid) else Ok(f.(secret := bytes)))
              && (name == "issuer" ==> r == Ok(f.(issuer := Some(Trim(v)))))
              && (name == "algorithm" ==> AlgorithmMeans(f, Upper(v), r))
              && (name == "digits" ==> r == if small == None then Err(Unsupported) else Ok(f.(digits := small.value)))
              && (name == "period" ==> r == if large == None then Err(Unsupported) else Ok(f.(period := large.value)))
              && (name !in {"secret", "issuer", "algorithm", "digits", "period"} ==> r == Ok(f))
  {
    hide PercentDecode, Lower, Upper, Trim, Base32.RustDecoded, Decimal.Parse;
    SplitKey(key, raw);
  }

  /** The three algorithms by name, in capitals. */
  predicate AlgorithmMeans(f: Fields, name: string, r: Result<Fields, OtpError>) {
    if name == "SHA1" then r == Ok(f.(algorithm := Sha1))
    else if name == "SHA256" then r == Ok(f.(algorithm := Sha256))
    else if name == "SHA512" then r == Ok(f.(algorithm := Sha512))
    else r == Err(Unsupported)
  }

  /** The printed form: the issuer twice, and only the settings that differ from the defaults. */
  lemma PrintedForm(t: Totp)
    requires t.Valid()
    ensures ToUri(t) ==
            "otpauth://totp/"
            + ((if t.issuer == "" then "" else PercentEncode(t.issuer) + ":") + PercentEncode(t.account))
            + "?secret=" + SecretText(t)
            + ((if t.issuer == "" then "" else "&" + ("issuer=" + PercentEncode(t.issuer)))
            + ((if t.algorithm == Sha1 then "" else if t.algorithm == Sha256 then "&algorithm=SHA256"
                else "&algorithm=SHA512")
            + ((if t.digits == 6 then "" else "&" + ("digits=" + Decimal.Numeral(t.digits)))
            + (if t.period == 30 then "" else "&" + ("period=" + Decimal.Numeral(t.period))))))
  {
    hide PercentEncode, SecretText, Decimal.Numeral, Ampersands, Optional, Name;
    FourOptional(t.issuer != "", "issuer=" + PercentEncode(t.issuer),
                 t.algorithm != Sha1, "algorithm=" + Name(t.algorithm),
                 t.digits != 6, "digits=" + Decimal.Numeral(t.digits),
                 t.period != 30, "period=" + Decimal.Numeral(t.period));
    NameInUri(t.algorithm);
  }

  lemma FourOptional(ga: bool, a: string, gb: bool, b: string, gc: bool, c: string, gd: bool, d: string)
    ensures Ampersands(Optional(ga, a) + Optional(gb, b) + Optional(gc, c) + Optional(gd, d))
         == (if ga then "&" + a else "") + ((if gb then "&" + b else "") + ((if gc then "&" + c else "")
            + (if gd then "&" + d else "")))
  {
    hide Ampersands, Optional;
    var oa, ob, oc, od := Optional(ga, a), Optional(gb, b), Optional(gc, c), Optional(gd, d);
    AmpersandsOptional(ga, a, ob + (oc + od));
    AmpersandsOptional(gb, b, oc + od);
    AmpersandsOptional(gc, c, od);
    AmpersandsOptional(gd, d, []);
    assert od + [] == od && (if gd then "&" + d else "") + "" == if gd then "&" + d else "";
    assert oa + (ob + (oc + od)) == oa + ob + oc + od;
  }

  lemma NameInUri(a: Algorithm)
    ensures a == Sha256 ==> "&" + ("algorithm=" + Name(a)) == "&algorithm=SHA256"
    ensures a == Sha512 ==> "&" + ("algorithm=" + Name(a)) == "&algorithm=SHA512"
  {
    NamesInUris();
  }

  lemma NamesInUris()
    ensures "&" + ("algorithm=" + "SHA256") == "&algorithm=SHA256"
    ensures "&" + ("algorithm=" + "SHA512") == "&algorithm=SHA512"
  {
  }

  lemma AmpersandsOptional(given: bool, param: string, rest: seq<string>)
    ensures Ampersands([]) == ""
    ensures Ampersands(Optional(given, param) + rest) == (if given then "&" + param else "") + Ampersands(rest)
  {
    if given {
      assert ([param] + rest)[1..] == rest;
    } else {
      assert [] + rest == rest && "" + Ampersands(rest) == Ampersands(rest);
    }
  }
}
