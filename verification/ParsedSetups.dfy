/** Setups as the parser gives them: which of them come back from the URI they are stored as. */
module ParsedSetups {
  import opened Bits
  import opened Common
  import opened OneTimePassword
  import opened Percent
  import opened Text
  import Base32
  import Utf8

  // ---------------------------------------------------------------- every parsed setup

  /** What has been read so far is trimmed, and the secret is bytes. */
  ghost predicate Tidy(f: Fields) {
    && (f.issuer.Some? ==> Trim(f.issuer.value) == f.issuer.value)
    && (f.secret.Some? ==> Base32.Bytes(f.secret.value))
  }

  lemma DecodedBytes(s: string)
    ensures Base32.RustDecoded(s).Some? ==> Base32.Bytes(Base32.RustDecoded(s).value)
  {
    hide Gathered, Spread;
    if Base32.RustDecoded(s).Some? {
      var bits := Spread(Base32.Values(Base32.Cleaned(s)).value, 5);
      Base32.GatheredFit(bits, 8);
      Base32.DigitSizes();
    }
  }

  lemma ApplyKeepsTidy(f: Fields, pair: string)
    requires Tidy(f)
    ensures Apply(f, pair).Ok? ==> Tidy(Apply(f, pair).value)
  {
    hide Trim, Base32.RustDecoded, Base32.Bytes, PercentDecode, Lower, Upper;
    var raw := KeyValue(pair).1;
    if PercentDecode(raw).Some? {
      var v := PercentDecode(raw).value;
      TrimTrimmed(v);
      DecodedBytes(v);
    }
  }

  lemma {:induction false} ApplyAllKeepsTidy(f: Fields, pairs: seq<string>)
    requires Tidy(f)
    ensures ApplyAll(f, pairs).Ok? ==> Tidy(ApplyAll(f, pairs).value)
    decreases |pairs|
  {
    hide Tidy, Apply;
    if pairs != [] {
      if pairs[0] == "" {
        ApplyAllKeepsTidy(f, pairs[1..]);
      } else if Apply(f, pairs[0]).Ok? {
        ApplyKeepsTidy(f, pairs[0]);
        ApplyAllKeepsTidy(Apply(f, pairs[0]).value, pairs[1..]);
      }
    }
  }

  lemma LabelPartsTrimmed(text: string)
    ensures var (issuer, account) := LabelParts(text); Trim(issuer) == issuer && Trim(account) == account
  {
    hide Trim;
    TrimEmpty();
    match SplitOnce(text, ':')
    case Some((i, a)) =>
      TrimTrimmed(i);
      TrimTrimmed(a);
    case None =>
      TrimTrimmed(text);
  }

  ghost predicate Clean(t: Totp) {
    t.Valid() && Trim(t.issuer) == t.issuer && Trim(t.account) == t.account
  }

  lemma AssembledClean(f: Fields, labelIssuer: string, account: string)
    requires Tidy(f) && Trim(labelIssuer) == labelIssuer && Trim(account) == account
    ensures Assemble(f, labelIssuer, account).Ok? ==> Clean(Assemble(f, labelIssuer, account).value)
  {
    hide Trim;
  }

  /** The parser only makes valid setups with trimmed labels. */
  lemma ParsedIsClean(given: string)
    ensures Parse(given).Ok? ==> Clean(Parse(given).value)
  {
    hide Trim, Utf8.Encode, Lower, ApplyAll, Assemble, Clean, Split, PercentDecode, LabelParts, LabelQuery,
      Base32.RustDecoded, New;
    var input := Trim(given);
    if Parse(given).Ok? {
      if |input| >= 10 && Lower(input[..10]) == "otpauth://" {
        var (place, query) := LabelQuery(SplitOnce(input[10..], '/').value.1);
        var (labelIssuer, account) := LabelParts(PercentDecode(place).value);
        LabelPartsTrimmed(PercentDecode(place).value);
        DefaultsTidy();
        ApplyAllKeepsTidy(DEFAULTS, Split(query, '&'));
        AssembledClean(ApplyAll(DEFAULTS, Split(query, '&')).value, labelIssuer, account);
      } else {
        KeyIsClean(input);
      }
    }
  }

  lemma DefaultsTidy()
    ensures Tidy(DEFAULTS)
  {
  }

  lemma KeyIsClean(key: string)
    ensures FromKey(key).Ok? ==> Clean(FromKey(key).value)
  {
    hide Base32.RustDecoded;
    DecodedBytes(key);
    TrimEmpty();
  }

  /**
   Whatever text was parsed, the setup survives being stored as its URI exactly
   when its issuer holds no colon, its account holds none if there is no issuer,
   and the URI is short enough to be parsed.
   */
  lemma StoredRoundTrip(given: string)
    requires Parse(given).Ok?
    ensures var t := Parse(given).value;
            && Clean(t)
            && (Parse(ToUri(t)) == Ok(t) <==>
                ':' !in t.issuer && (t.issuer == "" ==> ':' !in t.account) && |ToUri(t)| <= MAX_INPUT)
  {
    hide Parse, ToUri, Trim;
    ParsedIsClean(given);
    UriRoundTrip(Parse(given).value);
  }

  // ---------------------------------------------------------------- where it fails

  /** A setup with the usual settings. */
  function Plainly(secret: seq<nat>, issuer: string, account: string): Totp {
    Totp(secret, Sha1, 6, 30, issuer, account)
  }

  ghost predicate IsSecret(secret: seq<nat>) {
    MIN_SECRET_BYTES <= |secret| <= MAX_SECRET_BYTES && Base32.Bytes(secret)
  }

  /** Such a setup as a URI whose label is written as it is. */
  function RawUri(secret: seq<nat>, place: string): string
    requires Plainly(secret, "", "").Valid()
  {
    "otpauth://" + ("totp" + "/" + (place + "?" + ("secret=" + SecretText(Plainly(secret, "", "")))))
  }

  lemma SecretSize(secret: seq<nat>)
    requires IsSecret(secret)
    ensures Plainly(secret, "", "").Valid() && |SecretText(Plainly(secret, "", ""))| <= 210
  {
    hide Gathered, Spread;
    var bits := Spread(secret, 8) + Falses(Base32.Padding(|secret|));
    SpreadGather(bits, 5);
    Base32.PaddingFills(|secret|);
  }

  lemma {:induction false} EncodeSize(s: string)
    ensures |Utf8.Encode(s)| <= 4 * |s|
  {
    hide Utf8.EncodeChar;
    if s != [] {
      EncodeSize(s[1..]);
    }
  }

  /** A URI that starts and ends in visible characters, of at most a thousand in all, is parsed as it is. */
  lemma ShortUri(uri: string)
    requires uri != [] && Graphic(uri[0]) && Graphic(uri[|uri| - 1]) && |uri| <= 1000
    ensures Trim(uri) == uri && |Utf8.Encode(uri)| <= MAX_INPUT
  {
    EncodeSize(uri);
    TrimNothing(uri);
    hide Utf8.Encode, Trim;
  }

  lemma QueryOfSecret(t: Totp)
    requires t.Valid()
    ensures SecretText(t) != "" ==> Graphic(SecretText(t)[|SecretText(t)| - 1])
    ensures Split("secret=" + SecretText(t), '&') == ["secret=" + SecretText(t)]
    ensures ApplyAll(DEFAULTS, ["secret=" + SecretText(t)]) == Ok(DEFAULTS.(secret := Some(t.secret)))
  {
    hide SecretText, Apply, AllPlain, Split;
    SecretPlain(t);
    PlainText(SecretText(t));
    SplitNone("secret=" + SecretText(t), '&');
    ApplySecret(DEFAULTS, t);
    ApplyNone(DEFAULTS.(secret := Some(t.secret)));
  }

  lemma ApplyNone(f: Fields)
    ensures ApplyAll(f, []) == Ok(f)
  {
  }

  lemma RawUriParses(secret: seq<nat>, place: string)
    requires IsSecret(secret) && Plainly(secret, "", "").Valid()
    requires '?' !in place && (forall i :: 0 <= i < |place| ==> Literal(place[i])) && |place| <= 700
    ensures Parse(RawUri(secret, place)) ==
            New(secret, Sha1, 6, 30, LabelParts(place).0, LabelParts(place).1)
  {
    hide Lower, PercentDecode, Trim, Utf8.Encode, ApplyAll, Split, LabelParts, New, SecretText, IsSecret;
    var t := Plainly(secret, "", "");
    var query := "secret=" + SecretText(t);
    var rest := place + "?" + query;
    var uri := RawUri(secret, place);
    SecretSize(secret);
    QueryOfSecret(t);
    ShortUri(uri);
    LowerStays();
    assert uri[10..] == "totp" + "/" + rest && uri[..10] == "otpauth://";
    SplitOnceAt("totp", rest, '/');
    SplitOnceAt(place, query, '?');
    DecodeLiteral(place);
  }

  lemma {:induction false} EncodedBytesSize(bytes: seq<byte>)
    ensures |EncodedBytes(bytes)| <= 3 * |bytes|
  {
    if bytes != [] {
      EncodedBytesSize(bytes[1..]);
    }
  }

  lemma ShortAccount(secret: seq<nat>, account: string)
    requires IsSecret(secret) && |account| <= 100 && Plainly(secret, "", account).Valid()
    ensures |ToUri(Plainly(secret, "", account))| <= MAX_INPUT
  {
    var t := Plainly(secret, "", account);
    EncodeSize(account);
    EncodedBytesSize(Utf8.Encode(account));
    SecretSize(secret);
    assert Extras(t) == [];
    hide Utf8.Encode, EncodedBytes, Base32.Encoded, Base32.Spelled;
  }

  /** A setup whose account holds a colon and which has no issuer is read, and comes back with its account cut. */
  lemma ColonIsMisread(secret: seq<nat>)
    requires IsSecret(secret)
    ensures Plainly(secret, "", "").Valid()
    ensures var t := Plainly(secret, "", "a:b");
            && t.Valid() && Parse(RawUri(secret, ":a:b")) == Ok(t)
            && Parse(ToUri(t)) == Ok(Plainly(secret, "a", "b"))
  {
    hide Parse, ToUri, RawUri, SplitOnce;
    var t := Plainly(secret, "", "a:b");
    RawUriParses(secret, ":a:b");
    SplitOnceAt("", "a:b", ':');
    SplitOnceAt("a", "b", ':');
    TrimEmpty();
    TrimNothing("a:b");
    TrimNothing("a");
    TrimNothing("b");
    assert "" + ":" + "a:b" == ":a:b" && "a" + ":" + "b" == "a:b";
    hide Trim;
    ShortAccount(secret, "a:b");
    ParsedUri(t);
  }

  // An issuer may have 256 characters, and each of these takes nine in a URI.
  const EURO := '\U{20AC}'

  function Euros(n: nat): (s: string)
    ensures |s| == n && forall i :: 0 <= i < n ==> s[i] == EURO
  {
    seq(n, _ => EURO)
  }

  const EURO_BYTES: seq<byte> := [226, 130, 172]

  lemma EuroFirst(n: nat)
    requires n > 0
    ensures Utf8.Encode(Euros(n)) == EURO_BYTES + Utf8.Encode(Euros(n - 1))
  {
    assert Euros(n)[1..] == Euros(n - 1);
    assert Utf8.EncodeChar(EURO) == EURO_BYTES;
  }

  lemma {:induction false} EurosEncoded(n: nat)
    ensures |PercentEncode(Euros(n))| == 9 * n
  {
    hide Utf8.Encode, EncodedBytes;
    if n > 0 {
      EurosEncoded(n - 1);
      EuroFirst(n);
      EuroEscaped(Utf8.Encode(Euros(n - 1)));
    } else {
      NothingEncoded();
    }
  }

  lemma NothingEncoded()
    ensures Utf8.Encode("") == [] && EncodedBytes([]) == []
  {
  }

  lemma EuroEscaped(more: seq<byte>)
    ensures |EncodedBytes(EURO_BYTES + more)| == 9 + |EncodedBytes(more)|
  {
    hide EncodedBytes;
    Escaped(226, [130, 172] + more);
    Escaped(130, [172] + more);
    Escaped(172, more);
    assert EURO_BYTES + more == [226] + ([130, 172] + more) && [130, 172] + more == [130] + ([172] + more);
  }

  lemma Escaped(b: byte, more: seq<byte>)
    requires b >= 128
    ensures |EncodedBytes([b] + more)| == 3 + |EncodedBytes(more)|
  {
    assert ([b] + more)[1..] == more;
  }

  /** A setup is read from a short URI, and its own URI is too long to be read again. */
  lemma LongUriIsRefused(secret: seq<nat>)
    requires IsSecret(secret)
    ensures Plainly(secret, "", "").Valid()
    ensures var t := Plainly(secret, Euros(256), "");
            && t.Valid() && Parse(RawUri(secret, Euros(256) + ":")) == Ok(t)
            && Parse(ToUri(t)) == Err(Invalid)
  {
    hide Parse, ToUri, RawUri, SplitOnce, PercentEncode;
    var issuer := Euros(256);
    var t := Plainly(secret, issuer, "");
    RawUriParses(secret, issuer + ":");
    SplitOnceAt(issuer, "", ':');
    assert issuer + ":" + "" == issuer + ":";
    TrimEmpty();
    TrimNothing(issuer);
    hide Trim;
    EurosEncoded(256);
    LabelInUri(t);
    ParsedUri(t);
  }

  /** The issuer is printed twice. */
  lemma LabelInUri(t: Totp)
    requires t.Valid() && t.issuer != ""
    ensures |ToUri(t)| >= 2 * |PercentEncode(t.issuer)|
  {
    hide PercentEncode, SecretText;
    var first := "issuer=" + PercentEncode(t.issuer);
    assert Extras(t)[0] == first;
    assert |Ampersands(Extras(t))| >= |first|;
  }
}
