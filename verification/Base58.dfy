/** Base58 and Base58Check: byte strings written in the 58-letter alphabet, leading zero bytes as leading ones. */
module Base58 {
  import opened Common
  import opened Digits

  function Alphabet(): (s: string)
    ensures |s| == 58
  {
    "123456789" + "ABCDEFGH" + "JKLMN" + "PQRSTUVWXYZ" + "abcdefghijk" + "mnopqrstuvwxyz"
  }

  /** The code of a letter, by the runs of consecutive letters the alphabet is made of. */
  ghost function Code(d: nat): nat {
    if d < 9 then 49 + d
    else if d < 17 then 65 + (d - 9)
    else if d < 22 then 74 + (d - 17)
    else if d < 33 then 80 + (d - 22)
    else if d < 44 then 97 + (d - 33)
    else 109 + (d - 44)
  }

  lemma AlphabetIs(d: nat)
    requires d < 58
    ensures Alphabet()[d] as int == Code(d)
  {
    var s := Alphabet();
    if d < 9 {
      assert s[d] == "123456789"[d];
    } else if d < 17 {
      assert s[d] == "ABCDEFGH"[d - 9];
    } else if d < 22 {
      assert s[d] == "JKLMN"[d - 17];
    } else if d < 33 {
      assert s[d] == "PQRSTUVWXYZ"[d - 22];
    } else if d < 44 {
      assert s[d] == "abcdefghijk"[d - 33];
    } else {
      assert s[d] == "mnopqrstuvwxyz"[d - 44];
    }
  }

  lemma LettersDiffer(d: nat, e: nat)
    requires d < 58 && e < 58 && Alphabet()[d] == Alphabet()[e]
    ensures d == e
  {
    hide Alphabet;
    AlphabetIs(d);
    AlphabetIs(e);
  }

  // What the encoding and the decoding are

  function Leading<T(==)>(s: seq<T>, z: T): (n: nat)
    ensures n <= |s| && (forall i | 0 <= i < n :: s[i] == z) && (n < |s| ==> s[n] != z)
  {
    if s != [] && s[0] == z then 1 + Leading(s[1..], z) else 0
  }

  function Repeat<T>(x: T, n: nat): (s: seq<T>)
    ensures |s| == n && forall i | 0 <= i < n :: s[i] == x
  {
    if n == 0 then [] else [x] + Repeat(x, n - 1)
  }

  function Letters(ds: seq<nat>): (s: string)
    requires AreDigits(ds, 58)
    ensures |s| == |ds| && forall i | 0 <= i < |s| :: s[i] == Alphabet()[ds[i]]
  {
    if ds == [] then [] else [Alphabet()[ds[0]]] + Letters(ds[1..])
  }

  ghost function Encode(bytes: seq<nat>): string {
    var z := Leading(bytes, 0);
    Repeat('1', z) + Letters(DigitsOf(Num(bytes[z..], 256), 58))
  }

  predicate IsSpace(c: char) {
    c == ' ' || 9 <= c as int <= 13
  }

  /** The place of the first letter from position i on, if the alphabet has it. */
  function DigitFrom(c: char, i: nat): (d: Option<nat>)
    requires i <= 58
    ensures d.Some? ==> i <= d.value < 58 && Alphabet()[d.value] == c
    ensures d.None? ==> forall j | i <= j < 58 :: Alphabet()[j] != c
    decreases 58 - i
  {
    if i == 58 then None else if Alphabet()[i] == c then Some(i) else DigitFrom(c, i + 1)
  }

  predicate IsLetter(c: char) {
    DigitFrom(c, 0).Some?
  }

  function DigitOf(c: char): (d: nat)
    requires IsLetter(c)
    ensures d < 58 && Alphabet()[d] == c
  {
    DigitFrom(c, 0).value
  }

  function DigitsIn(s: string): (ds: seq<nat>)
    requires forall i | 0 <= i < |s| :: IsLetter(s[i])
    ensures |ds| == |s| && forall i | 0 <= i < |s| :: ds[i] == DigitOf(s[i])
  {
    if s == [] then [] else [DigitOf(s[0])] + DigitsIn(s[1..])
  }

  function SkipSpaces(s: string): (t: string)
    ensures |t| <= |s| && t == s[|s| - |t|..]
    ensures forall i | 0 <= i < |s| - |t| :: IsSpace(s[i])
    ensures t != [] ==> !IsSpace(t[0])
  {
    if s != [] && IsSpace(s[0]) then SkipSpaces(s[1..]) else s
  }

  /** Up to the first space. */
  function Word(s: string): (t: string)
    ensures t <= s && (forall i | 0 <= i < |t| :: !IsSpace(t[i])) && (|t| < |s| ==> IsSpace(s[|t|]))
  {
    if s == [] || IsSpace(s[0]) then [] else [s[0]] + Word(s[1..])
  }

  ghost predicate Accepted(s: string) {
    var t := SkipSpaces(s);
    var w := Word(t);
    (forall i | 0 <= i < |w| :: IsLetter(w[i])) && SkipSpaces(t[|w|..]) == []
  }

  ghost function DecodeWord(w: string): seq<nat>
    requires forall i | 0 <= i < |w| :: IsLetter(w[i])
  {
    var z := Leading(w, '1');
    Repeat(0, z) + DigitsOf(Num(DigitsIn(w[z..]), 58), 256)
  }

  ghost function Decode(s: string): Option<seq<nat>> {
    if Accepted(s) then Some(DecodeWord(Word(SkipSpaces(s)))) else None
  }

  // The two round trips

  lemma LetterDigit(d: nat)
    requires d < 58
    ensures IsLetter(Alphabet()[d]) && DigitOf(Alphabet()[d]) == d && !IsSpace(Alphabet()[d])
    ensures Alphabet()[d] == '1' <==> d == 0
  {
    hide Alphabet;
    AlphabetIs(d);
    AlphabetIs(0);
    LettersDiffer(d, DigitOf(Alphabet()[d]));
  }

  lemma LeadingSplit<T>(z: T, n: nat, s: seq<T>)
    requires s != [] ==> s[0] != z
    ensures Leading(Repeat(z, n) + s, z) == n && (Repeat(z, n) + s)[n..] == s
  {
    var t := Repeat(z, n) + s;
    var k := Leading(t, z);
    assert forall i | 0 <= i < n :: t[i] == z;
    assert s != [] ==> t[n] == s[0];
  }

  lemma LeadingRejoin<T>(s: seq<T>, z: T)
    ensures Repeat(z, Leading(s, z)) + s[Leading(s, z)..] == s
  {
  }

  lemma LettersBack(ds: seq<nat>)
    requires AreDigits(ds, 58)
    ensures forall i | 0 <= i < |ds| :: IsLetter(Letters(ds)[i]) && !IsSpace(Letters(ds)[i])
    ensures DigitsIn(Letters(ds)) == ds
    ensures ds != [] && ds[0] != 0 ==> Letters(ds)[0] != '1'
  {
    hide Alphabet, IsSpace, DigitOf, IsLetter;
    forall i | 0 <= i < |ds|
      ensures IsLetter(Letters(ds)[i]) && !IsSpace(Letters(ds)[i]) && DigitOf(Letters(ds)[i]) == ds[i]
    {
      LetterDigit(ds[i]);
    }
    if ds != [] {
      LetterDigit(ds[0]);
    }
  }

  lemma DigitsBack(s: string)
    requires forall i | 0 <= i < |s| :: IsLetter(s[i])
    ensures AreDigits(DigitsIn(s), 58) && Letters(DigitsIn(s)) == s
    ensures s != [] && s[0] != '1' ==> DigitsIn(s)[0] != 0
  {
    hide Alphabet, IsSpace, IsLetter, DigitOf;
    AlphabetIs(0);
  }

  lemma WordWhole(s: string)
    requires forall i | 0 <= i < |s| :: !IsSpace(s[i])
    ensures SkipSpaces(s) == s && Word(s) == s
  {
    var t := SkipSpaces(s);
    var w := Word(s);
    if |w| < |s| {
      assert false;
    }
  }

  lemma EncodeWord(bytes: seq<nat>)
    requires AreDigits(bytes, 256)
    ensures forall i | 0 <= i < |Encode(bytes)| :: IsLetter(Encode(bytes)[i]) && !IsSpace(Encode(bytes)[i])
    ensures DecodeWord(Encode(bytes)) == bytes
  {
    hide Alphabet, Letters, Repeat, DigitsIn, DigitsOf, Num, Leading, DigitOf, IsLetter, IsSpace;
    var z := Leading(bytes, 0);
    var v := Num(bytes[z..], 256);
    var ds := DigitsOf(v, 58);
    var s := Encode(bytes);
    LettersBack(ds);
    LetterDigit(0);
    AlphabetIs(0);
    LeadingSplit('1', z, Letters(ds));
    NumDigits(v, 58);
    DigitsUnique(bytes[z..], 256);
    LeadingRejoin(bytes, 0);
    forall i | 0 <= i < |s|
      ensures IsLetter(s[i]) && !IsSpace(s[i])
    {
      if i < z {
        assert s[i] == Repeat('1', z)[i];
      } else {
        assert s[i] == Letters(ds)[i - z];
      }
    }
  }

  /** The encoding is a '1' for each leading zero byte and then, not starting with a '1', the number the bytes are in base
      256 written in base 58. */
  lemma EncodeExact(bytes: seq<nat>)
    requires AreDigits(bytes, 256)
    ensures forall i | 0 <= i < |Encode(bytes)| :: IsLetter(Encode(bytes)[i])
    ensures Num(DigitsIn(Encode(bytes)), 58) == Num(bytes, 256)
    ensures forall n: nat | n <= |bytes| && (forall i | 0 <= i < n :: bytes[i] == 0) && (n < |bytes| ==> bytes[n] != 0) ::
              && n <= |Encode(bytes)| && (forall i | 0 <= i < n :: Encode(bytes)[i] == '1')
              && (n < |Encode(bytes)| ==> Encode(bytes)[n] != '1')
  {
    hide Alphabet, Encode, DigitsIn, Num, IsLetter, IsSpace;
    EncodeWord(bytes);
    EncodeValue(bytes);
    forall n: nat | n <= |bytes| && (forall i | 0 <= i < n :: bytes[i] == 0) && (n < |bytes| ==> bytes[n] != 0)
      ensures && n <= |Encode(bytes)| && (forall i | 0 <= i < n :: Encode(bytes)[i] == '1')
              && (n < |Encode(bytes)| ==> Encode(bytes)[n] != '1') {
      EncodeOnes(bytes);
      LeadingCount(bytes, n);
    }
  }

  lemma LeadingCount(bytes: seq<nat>, n: nat)
    requires n <= |bytes| && (forall i | 0 <= i < n :: bytes[i] == 0) && (n < |bytes| ==> bytes[n] != 0)
    ensures n == Leading(bytes, 0)
  {
    hide Leading;
  }

  lemma EncodeOnes(bytes: seq<nat>)
    requires AreDigits(bytes, 256)
    ensures var z, s := Leading(bytes, 0), Encode(bytes);
            z <= |s| && (forall i | 0 <= i < z :: s[i] == '1') && (z < |s| ==> s[z] != '1')
  {
    hide Alphabet, Letters, Repeat, DigitsIn, DigitsOf, Num, Leading, DigitOf, IsLetter, IsSpace;
    LettersBack(DigitsOf(Num(bytes[Leading(bytes, 0)..], 256), 58));
  }

  lemma EncodeValue(bytes: seq<nat>)
    requires AreDigits(bytes, 256)
    ensures forall i | 0 <= i < |Encode(bytes)| :: IsLetter(Encode(bytes)[i])
    ensures Num(DigitsIn(Encode(bytes)), 58) == Num(bytes, 256)
  {
    hide Alphabet, Letters, Repeat, DigitsIn, DigitsOf, Num, Leading, DigitOf, IsLetter, IsSpace;
    var z := Leading(bytes, 0);
    var v := Num(bytes[z..], 256);
    var ds, s := DigitsOf(v, 58), Encode(bytes);
    EncodeWord(bytes);
    NumDigits(v, 58);
    LetterDigit(0);
    AlphabetIs(0);
    LettersBack(ds);
    JoinedDigits(z, Letters(ds));
    assert bytes == bytes[..z] + bytes[z..];
    NumSkipZeros(DigitsIn(Repeat('1', z)), ds, 58);
    NumSkipZeros(bytes[..z], bytes[z..], 256);
  }

  lemma JoinedDigits(z: nat, t: string)
    requires IsLetter('1') && DigitOf('1') == 0 && forall i | 0 <= i < |t| :: IsLetter(t[i])
    ensures var s := Repeat('1', z) + t;
            && (forall i | 0 <= i < |s| :: IsLetter(s[i])) && DigitsIn(s) == DigitsIn(Repeat('1', z)) + DigitsIn(t)
            && forall i | 0 <= i < z :: DigitsIn(Repeat('1', z))[i] == 0
  {
    hide Alphabet, Repeat, DigitsIn, DigitOf, IsLetter;
  }

  /** Decoding inverts encoding, for every byte string. */
  lemma DecodeEncode(bytes: seq<nat>)
    requires AreDigits(bytes, 256)
    ensures Decode(Encode(bytes)) == Some(bytes)
  {
    hide Alphabet, Encode, DecodeWord, IsLetter, IsSpace, Word, SkipSpaces;
    EncodeWord(bytes);
    WordWhole(Encode(bytes));
    assert Encode(bytes)[|Encode(bytes)|..] == [];
  }

  lemma DecodeLetters(w: string)
    requires forall i | 0 <= i < |w| :: IsLetter(w[i])
    ensures AreDigits(DecodeWord(w), 256) && Encode(DecodeWord(w)) == w
  {
    hide Alphabet, Letters, Repeat, DigitsIn, DigitsOf, Num, Leading, DigitOf, IsLetter, IsSpace;
    var z := Leading(w, '1');
    var t := w[z..];
    var v := Num(DigitsIn(t), 58);
    DigitsBack(t);
    LeadingSplit(0, z, DigitsOf(v, 256));
    NumDigits(v, 256);
    DigitsUnique(DigitsIn(t), 58);
    LeadingRejoin(w, '1');
  }

  /** The string without the spaces around it. */
  ghost function Trim(s: string): string {
    DropTrailing(SkipSpaces(s))
  }

  ghost function DropTrailing(s: string): string {
    if s != [] && IsSpace(s[|s| - 1]) then DropTrailing(s[..|s| - 1]) else s
  }

  lemma {:induction false} DropTrailingIs(w: string, t: string)
    requires forall i | 0 <= i < |w| :: !IsSpace(w[i])
    requires forall i | 0 <= i < |t| :: IsSpace(t[i])
    ensures DropTrailing(w + t) == w
  {
    if t == [] {
      assert w + t == w;
    } else {
      DropTrailingIs(w, t[..|t| - 1]);
      assert (w + t)[..|w + t| - 1] == w + t[..|t| - 1];
    }
  }

  /** Encoding inverts decoding, on every accepted string, up to the spaces around it. */
  lemma EncodeDecode(s: string)
    requires Decode(s).Some?
    ensures AreDigits(Decode(s).value, 256) && Encode(Decode(s).value) == Trim(s)
  {
    hide Alphabet, Encode, DecodeWord, IsLetter, IsSpace, Word, SkipSpaces;
    var t := SkipSpaces(s);
    var w := Word(t);
    DecodeLetters(w);
    DropTrailingIs(w, t[|w|..]);
    assert w + t[|w|..] == t;
  }
}
