/** The account Secret Key: how it is printed and how it is read as a person types it. */
module SecretKeys {
  import opened Chunks
  import opened Common

  const ALPHABET := "0123456789ABCDEFGHJKMNPQRSTVWXYZ"
  const VERSION: seq<byte> := [90, 49]
  const DASH: byte := 45
  const ID_CHARS := 6
  const GROUP_CHARS := 5
  const SECRET_CHARS := 25

  datatype SecretKey = SecretKey(id: seq<byte>, secret: seq<byte>)

  predicate Symbol(b: byte) {
    b as char in ALPHABET
  }

  predicate Symbols(s: seq<byte>) {
    forall i :: 0 <= i < |s| ==> Symbol(s[i])
  }

  /** What the fixed arrays of the type and its two makers guarantee. */
  predicate IsKey(key: SecretKey) {
    |key.id| == ID_CHARS && |key.secret| == SECRET_CHARS && Symbols(key.id) && Symbols(key.secret)
  }

  // ---------------------------------------------------------------- reading

  /** Dashes, spaces and tabs are skipped. */
  predicate Skipped(b: byte) {
    b == DASH || b == 32 || b == 9
  }

  function UpperAscii(b: byte): byte {
    if 97 <= b <= 122 then b - 32 else b
  }

  /** Case is ignored, O is read as 0, I and L as 1. */
  function Read(b: byte): byte {
    var u := UpperAscii(b);
    if u == 79 then 48 else if u == 73 || u == 76 then 49 else u
  }

  function Normal(input: seq<byte>): seq<byte> {
    if input == [] then []
    else if Skipped(input[0]) then Normal(input[1..])
    else [Read(input[0])] + Normal(input[1..])
  }

  function Parse(input: seq<byte>): Option<SecretKey> {
    var chars := Normal(input);
    if !(VERSION <= chars) then None
    else
      var rest := chars[|VERSION|..];
      if |rest| != ID_CHARS + SECRET_CHARS || !Symbols(rest) then None
      else Some(SecretKey(rest[..ID_CHARS], rest[ID_CHARS..]))
  }

  // ---------------------------------------------------------------- printing

  function Groups(parts: seq<seq<byte>>): seq<byte> {
    if parts == [] then [] else [DASH] + parts[0] + Groups(parts[1..])
  }

  /** `Z1-XXXXXX-XXXXX-XXXXX-XXXXX-XXXXX-XXXXX` */
  function Display(key: SecretKey): seq<byte> {
    VERSION + [DASH] + key.id + Groups(ChunksOf(key.secret, GROUP_CHARS))
  }

  method ToDisplayString(key: SecretKey) returns (out: seq<byte>)
    ensures out == Display(key)
  {
    out := VERSION;
    out := out + [DASH];
    out := out + key.id;
    ghost var start := out;
    var groups := ChunksOf(key.secret, GROUP_CHARS);
    var i := 0;
    assert groups[0..] == groups;
    while i < |groups|
      invariant 0 <= i <= |groups|
      invariant out + Groups(groups[i..]) == start + Groups(groups)
    {
      DropOfDrop(groups, i, 1);
      Associative(out, [DASH] + groups[i], Groups(groups[i + 1..]));
      Associative(out, [DASH], groups[i]);
      out := out + [DASH];
      out := out + groups[i];
      i := i + 1;
    }
    assert out + [] == out;
  }

  // ---------------------------------------------------------------- reading undoes printing

  lemma {:induction false} NormalConcat(a: seq<byte>, b: seq<byte>)
    ensures Normal(a + b) == Normal(a) + Normal(b)
  {
    if a == [] {
      assert a + b == b;
    } else {
      NormalConcat(a[1..], b);
      DropOfConcat(a, b, 1);
      Associative([Read(a[0])], Normal(a[1..]), Normal(b));
    }
  }

  lemma {:induction false} NormalSymbols(s: seq<byte>)
    requires Symbols(s)
    ensures Normal(s) == s
  {
    if s != [] {
      assert Symbol(s[0]);
      SymbolReadsAsItself(s[0]);
      NormalSymbols(s[1..]);
    }
  }

  lemma SymbolReadsAsItself(b: byte)
    requires Symbol(b)
    ensures !Skipped(b) && Read(b) == b
  {
    SymbolRange(b);
    hide Symbol;
  }

  /** No I, L, O or U among the letters. */
  predicate DigitOrLetter(b: byte) {
    48 <= b <= 57 || (65 <= b <= 90 && b !in {73, 76, 79, 85})
  }

  lemma SymbolRange(b: byte)
    ensures Symbol(b) <==> DigitOrLetter(b)
  {
    hide Symbol, DigitOrLetter;
    if Symbol(b) {
      SymbolInRange(b);
    }
    if DigitOrLetter(b) {
      RangeIsSymbols(b);
    }
  }

  lemma SymbolInRange(b: byte)
    requires Symbol(b)
    ensures DigitOrLetter(b)
  {
    var i :| 0 <= i < |ALPHABET| && ALPHABET[i] == b as char;
    if i < 8 {
    } else if i < 16 {
    } else if i < 24 {
    }
  }

  lemma RangeIsSymbols(b: byte)
    requires DigitOrLetter(b)
    ensures Symbol(b)
  {
    if b < 58 {
    } else if b < 73 {
    } else if b < 80 {
    }
  }

  lemma {:induction false} NormalGroups(s: seq<byte>, size: nat)
    requires Symbols(s) && size > 0
    ensures Normal(Groups(ChunksOf(s, size))) == s
    decreases |s|
  {
    hide Symbol, Read, Normal, Groups, ChunksOf;
    FirstGroup(s, size);
    if s != [] {
      var k := if |s| <= size then |s| else size;
      var head, tail := s[..k], s[k..];
      NormalGroups(tail, size);
      NormalSymbols(head);
      NormalConcat([DASH] + head, Groups(ChunksOf(tail, size)));
      NormalConcat([DASH], head);
      assert [] + head == head && head + tail == s;
    }
  }

  lemma FirstGroup(s: seq<byte>, size: nat)
    requires size > 0
    ensures Normal([DASH]) == []
    ensures if s == [] then Normal(Groups(ChunksOf(s, size))) == []
            else
              var k := if |s| <= size then |s| else size;
              Groups(ChunksOf(s, size)) == [DASH] + s[..k] + Groups(ChunksOf(s[k..], size))
  {
    hide Read;
  }

  /** Every key reads back from its printed form. */
  lemma ParseDisplayed(key: SecretKey)
    requires IsKey(key)
    ensures Parse(Display(key)) == Some(key)
  {
    hide Symbol;
    var groups := Groups(ChunksOf(key.secret, GROUP_CHARS));
    NormalConcat(VERSION + [DASH] + key.id, groups);
    NormalConcat(VERSION + [DASH], key.id);
    NormalGroups(key.secret, GROUP_CHARS);
    NormalSymbols(key.id);
    NormalPrefix();
    var chars := VERSION + key.id + key.secret;
    assert Normal(Display(key)) == chars;
    assert chars[|VERSION|..] == key.id + key.secret;
    assert (key.id + key.secret)[..ID_CHARS] == key.id && (key.id + key.secret)[ID_CHARS..] == key.secret;
  }

  lemma NormalPrefix()
    ensures Normal(VERSION + [DASH]) == VERSION
  {
    assert (VERSION + [DASH])[1..] == [49, DASH] && [49, DASH][1..] == [DASH];
    assert Normal([DASH]) == [];
  }

  /** A text is a key's exactly when what is left of it, read leniently, is that key's characters. */
  lemma ParseExact(input: seq<byte>, key: SecretKey)
    ensures Parse(input) == Some(key) <==> IsKey(key) && Normal(input) == ['Z' as int, '1' as int] + key.id + key.secret
  {
    hide Symbol, Normal;
    var chars := Normal(input);
    if Parse(input) == Some(key) {
      var rest := chars[|VERSION|..];
      assert rest == key.id + key.secret;
      assert chars == VERSION + rest;
    }
    if IsKey(key) && chars == VERSION + key.id + key.secret {
      var rest := chars[|VERSION|..];
      assert rest == key.id + key.secret;
      assert rest[..ID_CHARS] == key.id && rest[ID_CHARS..] == key.secret;
    }
  }

  lemma {:induction false} NormalIn(input: seq<byte>, b: byte)
    requires b in input && !Skipped(b)
    ensures Read(b) in Normal(input)
  {
    if input[0] != b {
      assert b in input[1..];
      NormalIn(input[1..], b);
    }
  }

  /** A text with a byte no key has is not a key. */
  lemma StrangerIsNoKey(input: seq<byte>, b: byte)
    requires b in input && !Skipped(b) && !Symbol(Read(b))
    ensures Parse(input).None?
  {
    NormalIn(input, b);
    if Parse(input).Some? {
      KeyCharactersAreSymbols(input);
    }
  }

  lemma KeyCharactersAreSymbols(input: seq<byte>)
    requires Parse(input).Some?
    ensures Symbols(Normal(input))
  {
    hide Normal;
    var chars := Normal(input);
    var rest := chars[|VERSION|..];
    assert chars == VERSION + rest;
  }

  // ---------------------------------------------------------------- how a key is typed and printed

  /** Dashes, spaces and tabs are dropped, O is zero, I and L are one, and other letters may be small. */
  lemma NormalEach(b: byte)
    ensures b as char in {'-', ' ', '\t'} ==> Normal([b]) == []
    ensures b as char in {'O', 'o'} ==> Normal([b]) == ['0' as int]
    ensures b as char in {'I', 'i', 'L', 'l'} ==> Normal([b]) == ['1' as int]
    ensures 'a' <= b as char <= 'z' && b as char !in {'o', 'i', 'l'} ==>
              Normal([b]) == ['A' as int + (b - 'a' as int)]
    ensures b as char !in {'-', ' ', '\t', 'O', 'I', 'L'} && !('a' <= b as char <= 'z') ==> Normal([b]) == [b]
  {
    assert [b][1..] == [];
  }

  /** A key is six characters and twenty-five, digits and capitals without I, L, O and U. */
  lemma KeyMeaning(key: SecretKey)
    ensures IsKey(key) <==>
            && |key.id| == 6 && |key.secret| == 25
            && forall b :: b in key.id + key.secret ==>
                 '0' <= b as char <= '9' || ('A' <= b as char <= 'Z' && b as char !in {'I', 'L', 'O', 'U'})
  {
    hide Symbol;
    forall b: byte ensures Symbol(b) <==> DigitOrLetter(b) {
      SymbolRange(b);
    }
    forall i | 0 <= i < |key.id| ensures key.id[i] in key.id + key.secret {
    }
    forall i | 0 <= i < |key.secret| ensures key.secret[i] in key.id + key.secret {
    }
  }

  /** The printed form: version, id, and five groups of five, with dashes between. */
  lemma DisplayMeaning(key: SecretKey)
    requires |key.secret| == 25
    ensures var s, dash := key.secret, ['-' as int];
            Display(key) == ['Z' as int, '1' as int] + dash + key.id + (dash + s[..5] + (dash + s[5..10] +
                            (dash + s[10..15] + (dash + s[15..20] + (dash + s[20..])))))
  {
    hide Normal, Groups, ChunksOf;
    var s := key.secret;
    FirstGroup(s, 5);
    FirstGroup(s[5..], 5);
    DropOfDrop(s, 5, 5);
    FirstGroup(s[10..], 5);
    DropOfDrop(s, 10, 5);
    FirstGroup(s[15..], 5);
    DropOfDrop(s, 15, 5);
    FirstGroup(s[20..], 5);
    DropOfDrop(s, 20, 5);
    FirstGroup(s[25..], 5);
    NoGroups();
    assert [DASH] + s[20..] + [] == [DASH] + s[20..];
    assert s[5..][..5] == s[5..10] && s[10..][..5] == s[10..15] && s[15..][..5] == s[15..20];
    assert s[20..][..5] == s[20..];
  }

  lemma NoGroups()
    ensures Groups(ChunksOf([], 5)) == []
  {
  }
}
