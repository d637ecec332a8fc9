/** Generated values: the characters an agent's random value is made of, all equally likely. */
module GeneratedValues {
  import opened Common
  import opened Generator
  import opened Sampling

  const CAPITALS := "ABCDEFGHJKLMNPQRSTUVWXYZ"
  const SMALL := "abcdefghijkmnopqrstuvwxyz"
  const NUMBERS := "23456789"
  const MARKS := "-_.~!@%^*+="

  /** The sixty-eight characters a value is drawn from. */
  const PASSWORD_CHARS := CAPITALS + SMALL + NUMBERS + MARKS
  const CHAR_COUNT: nat := 68

  lemma CapitalsDistinct()
    ensures |CAPITALS| == 24 && Distinct(CAPITALS) && forall c :: c in CAPITALS ==> Kind(c) == 1
  {
    var s := CAPITALS;
    forall i | 0 <= i < |s| ensures Kind(s[i]) == 1 && (i + 1 < |s| ==> s[i] < s[i + 1]) {
      if i < 5 {} else if i < 10 {} else if i < 15 {} else if i < 20 {}
    }
    AscendingDistinct(s);
  }

  lemma SmallDistinct()
    ensures |SMALL| == 25 && Distinct(SMALL) && forall c :: c in SMALL ==> Kind(c) == 0
  {
    var s := SMALL;
    forall i | 0 <= i < |s| ensures Kind(s[i]) == 0 && (i + 1 < |s| ==> s[i] < s[i + 1]) {
      if i < 5 {} else if i < 10 {} else if i < 15 {} else if i < 20 {}
    }
    AscendingDistinct(s);
  }

  lemma NumbersDistinct()
    ensures |NUMBERS| == 8 && Distinct(NUMBERS) && forall c :: c in NUMBERS ==> Kind(c) == 2
  {
    AscendingDistinct(NUMBERS);
  }

  lemma MarksDistinct()
    ensures |MARKS| == 11 && Distinct(MARKS) && forall c :: c in MARKS ==> Kind(c) == 3
  {
  }

  /** No character is listed twice. */
  lemma CharsDistinct()
    ensures |PASSWORD_CHARS| == CHAR_COUNT && Distinct(PASSWORD_CHARS)
  {
    hide Distinct, Kind;
    CapitalsDistinct();
    SmallDistinct();
    NumbersDistinct();
    MarksDistinct();
    var letters := CAPITALS + SMALL;
    DistinctConcat(CAPITALS, SMALL);
    DistinctConcat(letters, NUMBERS);
    DistinctConcat(letters + NUMBERS, MARKS);
  }

  /** Three of the 256 byte draws give any one character, the same number for each. */
  lemma CharactersAreUniform(c: char)
    requires c in PASSWORD_CHARS
    ensures |set b: nat | b < 256 && CharOf(PASSWORD_CHARS, b) == [c]| == 3
  {
    CharsDistinct();
    var r: nat :| r < CHAR_COUNT && PASSWORD_CHARS[r] == c;
    var draws := set b: nat | b < 256 && CharOf(PASSWORD_CHARS, b) == [c];
    forall b: nat ensures b in draws <==> b in Preimages(ByteLimit(CHAR_COUNT), CHAR_COUNT, r) {
      if b < ByteLimit(CHAR_COUNT) {
        SameCharacter(b % CHAR_COUNT, r);
      }
    }
    assert draws == Preimages(ByteLimit(CHAR_COUNT), CHAR_COUNT, r);
    BytesAreUniform(CHAR_COUNT, r);
  }

  lemma SameCharacter(i: nat, j: nat)
    requires i < CHAR_COUNT && j < CHAR_COUNT && |PASSWORD_CHARS| == CHAR_COUNT
    ensures PASSWORD_CHARS[i] == PASSWORD_CHARS[j] <==> i == j
  {
    CharsDistinct();
  }

  /** A value of at least 12 and at most 256 of these characters, unless the generator fails. */
  method GeneratePassword(wanted: nat, stream: seq<byte>) returns (r: Option<string>)
    requires |stream| % BUFFER == 0
    ensures var len, all := Clamped(wanted), AcceptedChars(PASSWORD_CHARS, stream);
            r == if |all| >= len then Some(all[..len]) else None
    ensures r.Some? ==> |r.value| == Clamped(wanted) && forall c :: c in r.value ==> c in PASSWORD_CHARS
  {
    hide AcceptedChars;
    CharsDistinct();
    r := GenerateValue(PASSWORD_CHARS, wanted, stream);
    AcceptedMembers(PASSWORD_CHARS, stream);
  }

  lemma {:induction false} AcceptedMembers(chars: string, draws: seq<byte>)
    requires chars != []
    ensures forall c :: c in AcceptedChars(chars, draws) ==> c in chars
  {
    if draws != [] {
      AcceptedMembers(chars, draws[1..]);
    }
  }
}
