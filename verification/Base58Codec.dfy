/** The Base58 encoder and decoder as loops over a digit buffer, and their check-summed forms. */
module Base58Codec {
  import opened Common
  import opened Division
  import opened Digits
  import opened Base58

  lemma {:induction false} PowerChain(a: nat, b: nat, i: nat, j: nat, k: nat)
    requires Power(a, i) <= Power(b, j)
    ensures Power(a, Times(i, k)) <= Power(b, Times(j, k))
  {
    hide Power;
    PowerBase(Power(a, i), Power(b, j), k);
    PowerMul(a, i, k);
    PowerMul(b, j, k);
  }

  lemma Twos()
    ensures Power(2, 3) == 8 && Power(2, 29) == 0x2000_0000
    ensures Power(2, 41) == 0x200_0000_0000 && Power(2, 58) == 0x400_0000_0000_0000
  {
    assert Power(2, 3) == 8;
    assert Power(2, 12) == 4096;
    assert Power(2, 5) == 32;
    hide Power;
    PowerAdd(2, 12, 12);
    PowerAdd(2, 24, 5);
    PowerAdd(2, 29, 12);
    PowerAdd(2, 29, 29);
  }

  /** 256 to the 100 is at most 58 to the 138. */
  lemma BytesFit()
    ensures Power(256, 100) <= Power(58, 138)
  {
    assert Power(58, 7) == 2207984167552;
    assert Power(58, 5) == 656356768;
    assert Power(2, 8) == 256;
    Twos();
    hide Power;
    PowerChain(2, 58, 41, 7, 19);
    PowerAdd(2, 779, 29);
    PowerAdd(58, 133, 5);
    MulMono(Power(2, 779), Power(58, 133), Power(2, 29), Power(58, 5));
    PowerMul(2, 8, 100);
    PowerExponent(2, 800, 808);
  }

  /** 58 to the 1000 is at most 256 to the 733. */
  lemma LettersFit()
    ensures Power(58, 1000) <= Power(256, 733)
  {
    assert Power(58, 50) <= Power(2, 293) by {
      FiftyLetters();
    }
    assert Power(2, 8) == 256;
    hide Power;
    PowerChain(58, 2, 50, 293, 20);
    PowerMul(2, 8, 733);
    PowerExponent(2, 5860, 5864);
  }

  lemma FiftyLetters()
    ensures Power(58, 50) <= Power(2, 293)
  {
    assert Power(58, 10) == 430804206899405824;
    Twos();
    hide Power;
    var x, y := Power(58, 10), Power(2, 58);
    PowerAdd(58, 10, 10);
    PowerAdd(58, 20, 20);
    PowerAdd(58, 40, 10);
    PowerAdd(2, 58, 58);
    PowerAdd(2, 116, 116);
    PowerAdd(2, 232, 58);
    PowerAdd(2, 290, 3);
  }

  lemma ByteRoom(n: nat)
    ensures Power(256, n) <= Power(58, n * 138 / 100 + 1)
  {
    hide Power;
    BytesFit();
    Lift(256, 58, 100, 138, n, n * 138 / 100 + 1);
  }

  lemma LetterRoom(n: nat)
    ensures Power(58, n) <= Power(256, n * 733 / 1000 + 1)
  {
    hide Power;
    LettersFit();
    Lift(58, 256, 1000, 733, n, n * 733 / 1000 + 1);
  }

  lemma ColumnStep(x: nat, base: nat, other: nat, carry: nat, p: nat, v: nat, u: nat, digit: nat)
    requires base >= 1 && v + carry * p == other * u + digit
    ensures var n := carry + other * x;
            (Rem(n, base) * p + v) + Quot(n, base) * (base * p) == other * (x * p + u) + digit
  {
    hide Quot, Rem;
    var n := carry + other * x;
    QuotRem(n, base);
    var q, r := Quot(n, base), Rem(n, base);
    assert n * p == q * (base * p) + r * p by {
      assert (q * base + r) * p == q * (base * p) + r * p;
    }
    assert n * p == carry * p + other * (x * p);
    assert other * (x * p + u) == other * (x * p) + other * u;
  }

  lemma CarryOut(v: nat, carry: nat, p: nat)
    requires v + carry * p < p
    ensures carry == 0
  {
    if carry >= 1 {
      MulMono(1, carry, p, p);
    }
  }

  predicate ZeroBefore(s: seq<nat>, k: int) {
    forall i | 0 <= i < |s| && i < k :: s[i] == 0
  }

  /** Multiplies the number in the buffer by one base and adds a digit, from the last place up, touching no more places
      than the number needs. The carry ends at zero whenever the result fits in the buffer. */
  method MulAdd(buf: array<nat>, base: nat, other: nat, digit: nat, length: nat) returns (newLength: nat)
    requires base >= 2 && AreDigits(buf[..], base) && length <= buf.Length
    requires ZeroBefore(buf[..], buf.Length - length)
    requires other * Num(buf[..], base) + digit < Power(base, buf.Length)
    modifies buf
    ensures AreDigits(buf[..], base) && length <= newLength <= buf.Length
    ensures ZeroBefore(buf[..], buf.Length - newLength)
    ensures Num(buf[..], base) == other * old(Num(buf[..], base)) + digit
  {
    hide Num, Power, Quot, Rem;
    ghost var was := buf[..];
    var carry: nat := digit;
    var i: nat := 0;
    NumEmpty(was, base);
    while (carry != 0 || i < length) && i < buf.Length
      invariant 0 <= i <= buf.Length && AreDigits(buf[..], base)
      invariant forall j | 0 <= j < buf.Length - i :: buf[j] == was[j]
      invariant Num(buf[buf.Length - i..], base) + carry * Power(base, i)
             == other * Num(was[buf.Length - i..], base) + digit
      decreases buf.Length - i
    {
      ghost var at := buf.Length - 1 - i;
      ghost var v, u := Num(buf[at + 1..], base), Num(was[at + 1..], base);
      ghost var tail := buf[at + 1..];
      ColumnStep(was[at], base, other, carry, Power(base, i), v, u, digit);
      carry := ColumnWrite(buf, buf.Length - 1 - i, base, other, carry);
      assert buf[at + 1..] == tail;
      NumFront(was, at, base);
      NumFront(buf[..], at, base);
      assert buf[..][at..] == buf[at..] && buf[..][at + 1..] == tail;
      PowerNext(base, i);
      i := i + 1;
    }
    FrontZero(was, buf.Length - i, base, i >= length);
    FrontZero(buf[..], buf.Length - i, base, i >= length);
    assert buf[..][buf.Length - i..] == buf[buf.Length - i..];
    if i == buf.Length {
      CarryOut(Num(buf[0..], base), carry, Power(base, i));
    }
    assert carry == 0;
    newLength := i;
  }

  lemma NumEmpty(s: seq<nat>, b: nat)
    ensures Num(s[|s|..], b) == 0 && Power(b, 0) == 1
  {
  }

  lemma PowerNext(b: nat, i: nat)
    ensures Power(b, i + 1) == b * Power(b, i)
  {
  }

  lemma NumFront(s: seq<nat>, k: nat, b: nat)
    requires k < |s|
    ensures Num(s[k..], b) == s[k] * Power(b, |s| - k - 1) + Num(s[k + 1..], b)
  {
    assert s[k..] == [s[k]] + s[k + 1..];
    NumCons(s[k], s[k + 1..], b);
  }

  lemma FrontZero(s: seq<nat>, k: nat, b: nat, zero: bool)
    requires k <= |s| && (zero ==> ZeroBefore(s, k))
    ensures zero ==> Num(s, b) == Num(s[k..], b)
    ensures k == 0 ==> Num(s, b) == Num(s[k..], b)
  {
    assert s == s[..k] + s[k..];
    if zero || k == 0 {
      NumSkipZeros(s[..k], s[k..], b);
    }
  }

  method ColumnWrite(buf: array<nat>, at: nat, base: nat, other: nat, carry: nat) returns (next: nat)
    requires at < buf.Length && base >= 1
    modifies buf
    ensures buf[..] == old(buf[..])[at := Rem(carry + other * old(buf[at]), base)]
    ensures next == Quot(carry + other * old(buf[at]), base)
  {
    var n: nat := carry + other * buf[at];
    buf[at] := Rem(n, base);
    next := Quot(n, base);
  }

  method ZeroBuffer(size: nat) returns (buf: array<nat>)
    ensures fresh(buf) && buf.Length == size && forall i | 0 <= i < size :: buf[i] == 0
  {
    buf := new nat[size];
    var i := 0;
    while i < size
      invariant 0 <= i <= size
      invariant forall j | 0 <= j < i :: buf[j] == 0
    {
      buf[i] := 0;
      i := i + 1;
    }
  }

  /** The digits of the buffer from its first nonzero one on: the shortest way to write its number. */
  method Stripped(buf: array<nat>, base: nat, length: nat) returns (digits: seq<nat>)
    requires base >= 2 && AreDigits(buf[..], base) && length <= buf.Length
    requires ZeroBefore(buf[..], buf.Length - length)
    ensures digits == DigitsOf(Num(buf[..], base), base)
  {
    hide Num, DigitsOf;
    var it := buf.Length - length;
    while it < buf.Length && buf[it] == 0
      invariant 0 <= it <= buf.Length && ZeroBefore(buf[..], it)
    {
      it := it + 1;
    }
    digits := buf[it..];
    FrontZero(buf[..], it, base, true);
    assert buf[..][it..] == digits;
    DigitsUnique(digits, base);
  }

  /** Reads a digit string of one base into a buffer of another; each size fits, so no carry is ever lost. */
  lemma StepFits(s: seq<nat>, k: nat, other: nat, base: nat, size: nat)
    requires k < |s| && AreDigits(s, other) && other >= 1 && Power(other, |s|) <= Power(base, size)
    ensures Num(s[..k + 1], other) == other * Num(s[..k], other) + s[k] < Power(base, size)
  {
    hide Power;
    assert s[..k + 1][..k] == s[..k];
    assert other * Num(s[..k], other) == Num(s[..k], other) * other;
    NumBound(s[..k + 1], other);
    PowerExponent(other, k + 1, |s|);
  }

  method EncodeBase58(bytes: seq<nat>) returns (str: string)
    requires AreDigits(bytes, 256)
    ensures str == Encode(bytes)
  {
    hide Num, Power, DigitsOf, Letters, Alphabet, Leading, Repeat;
    var zeroes := 0;
    while zeroes < |bytes| && bytes[zeroes] == 0
      invariant 0 <= zeroes <= |bytes|
      invariant forall i | 0 <= i < zeroes :: bytes[i] == 0
    {
      zeroes := zeroes + 1;
    }
    LeadingIs(bytes, 0, zeroes);
    var rest := bytes[zeroes..];
    var size := |rest| * 138 / 100 + 1;
    var b58 := ZeroBuffer(size);
    ByteRoom(|rest|);
    NumZeros(b58[..], 58);
    NumEmptyPrefix(rest, 256);
    var length: nat := 0;
    var k := 0;
    while k < |rest|
      invariant 0 <= k <= |rest| && length <= b58.Length
      invariant AreDigits(b58[..], 58) && ZeroBefore(b58[..], size - length)
      invariant Num(b58[..], 58) == Num(rest[..k], 256)
    {
      StepFits(rest, k, 256, 58, size);
      length := MulAdd(b58, 58, 256, rest[k], length);
      k := k + 1;
    }
    assert rest[..k] == rest;
    var digits := Stripped(b58, 58, length);
    str := Repeat('1', zeroes);
    var i := 0;
    while i < |digits|
      invariant 0 <= i <= |digits| && str == Repeat('1', zeroes) + Letters(digits)[..i]
    {
      str := str + [Alphabet()[digits[i]]];
      assert Letters(digits)[..i + 1] == Letters(digits)[..i] + [Letters(digits)[i]];
      i := i + 1;
    }
    assert Letters(digits)[..i] == Letters(digits);
  }

  lemma LeadingIs<T>(s: seq<T>, z: T, n: nat)
    requires n <= |s| && (forall i | 0 <= i < n :: s[i] == z) && (n < |s| ==> s[n] != z)
    ensures Leading(s, z) == n
  {
  }

  lemma NumEmptyPrefix(s: seq<nat>, b: nat)
    ensures Num(s[..0], b) == 0
  {
  }

  method FindLetter(c: char) returns (d: Option<nat>)
    ensures d == DigitFrom(c, 0)
  {
    hide Alphabet;
    var i := 0;
    while i < 58
      invariant 0 <= i <= 58 && DigitFrom(c, 0) == DigitFrom(c, i)
    {
      if Alphabet()[i] == c {
        return Some(i);
      }
      i := i + 1;
    }
    return None;
  }

  predicate AllLetters(w: string) {
    forall i | 0 <= i < |w| :: IsLetter(w[i])
  }

  lemma DigitsPrefix(w: string, k: nat)
    requires k < |w| && AllLetters(w[..k + 1])
    ensures AllLetters(w[..k]) && IsLetter(w[k]) && AreDigits(DigitsIn(w[..k + 1]), 58)
    ensures DigitsIn(w[..k + 1])[..k] == DigitsIn(w[..k]) && DigitsIn(w[..k + 1])[k] == DigitOf(w[k])
  {
    hide IsLetter, DigitOf, Alphabet;
    forall i | 0 <= i < k
      ensures IsLetter(w[..k][i])
    {
      assert w[..k][i] == w[..k + 1][i];
    }
    assert w[..k + 1][k] == w[k];
  }

  lemma LetterStep(w: string, k: nat, n: nat, size: nat)
    requires k < |w| <= n && AllLetters(w[..k + 1]) && Power(58, n) <= Power(256, size)
    ensures AllLetters(w[..k]) && IsLetter(w[k])
    ensures Num(DigitsIn(w[..k + 1]), 58) == 58 * Num(DigitsIn(w[..k]), 58) + DigitOf(w[k]) < Power(256, size)
  {
    hide IsLetter, DigitOf, Alphabet, DigitsIn, Num, Power;
    DigitsPrefix(w, k);
    var ds := DigitsIn(w[..k + 1]);
    PowerExponent(58, |ds|, n);
    StepFits(ds, k, 58, 256, size);
    assert ds[..k + 1] == ds;
  }

  lemma MoreLetters(w: string, k: nat)
    requires k < |w| && AllLetters(w[..k]) && IsLetter(w[k])
    ensures AllLetters(w[..k + 1])
  {
    hide IsLetter;
    var t := w[..k + 1];
    forall i | 0 <= i < |t|
      ensures IsLetter(t[i])
    {
      assert i < k ==> t[i] == w[..k][i];
    }
  }

  /** Reads letters up to a space or the end, into a buffer sized by all that is left of the string. */
  method ReadLetters(t: string) returns (k: nat, digits: Option<seq<nat>>)
    ensures digits.Some? <==> AllLetters(Word(t))
    ensures AllLetters(Word(t)) ==>
              k == |Word(t)| && digits.value == DigitsOf(Num(DigitsIn(Word(t)), 58), 256)
  {
    hide Num, Power, DigitsOf, Alphabet, DigitsIn, IsLetter, IsSpace, Word, AllLetters;
    ghost var w := Word(t);
    var size := |t| * 733 / 1000 + 1;
    var b256 := ZeroBuffer(size);
    LetterRoom(|t|);
    NumZeros(b256[..], 256);
    var length: nat := 0;
    k := 0;
    NoLetters(w);
    while k < |t| && !IsSpace(t[k])
      invariant k <= |w| && length <= b256.Length && AllLetters(w[..k])
      invariant AreDigits(b256[..], 256) && ZeroBefore(b256[..], size - length)
      invariant Num(b256[..], 256) == NumOf(w[..k])
    {
      assert k < |w| && w[k] == t[k];
      var ch := FindLetter(t[k]);
      LetterFound(t[k]);
      if ch.None? {
        NotAllLetters(w, k);
        return k, None;
      }
      MoreLetters(w, k);
      LetterStep(w, k, |t|, size);
      length := MulAdd(b256, 256, 58, ch.value, length);
      k := k + 1;
    }
    assert w[..k] == w;
    var ds := Stripped(b256, 256, length);
    digits := Some(ds);
  }

  ghost function NumOf(w: string): nat
    requires AllLetters(w)
  {
    Num(DigitsIn(w), 58)
  }

  lemma NoLetters(w: string)
    ensures AllLetters(w[..0]) && NumOf(w[..0]) == 0
  {
  }

  lemma LetterFound(c: char)
    ensures DigitFrom(c, 0).Some? <==> IsLetter(c)
    ensures IsLetter(c) ==> DigitFrom(c, 0).value == DigitOf(c)
  {
  }

  lemma NotAllLetters(w: string, k: nat)
    requires k < |w| && !IsLetter(w[k])
    ensures !AllLetters(w)
  {
  }

  /** Moves past spaces. */
  method PastSpaces(s: string) returns (t: string)
    ensures t == SkipSpaces(s)
  {
    var p := 0;
    assert s[0..] == s;
    while p < |s| && IsSpace(s[p])
      invariant 0 <= p <= |s| && SkipSpaces(s[p..]) == SkipSpaces(s)
    {
      assert s[p..][1..] == s[p + 1..];
      p := p + 1;
    }
    t := s[p..];
  }

  lemma WordStep(t: string)
    requires t != [] && t[0] == '1'
    ensures Word(t) == ['1'] + Word(t[1..])
  {
  }

  lemma {:induction false} WordAfterOnes(t: string, z: nat)
    requires z <= |t| && forall i | 0 <= i < z :: t[i] == '1'
    ensures Word(t) == Repeat('1', z) + Word(t[z..])
  {
    hide Word, IsSpace;
    if z == 0 {
      assert t[0..] == t;
    } else {
      WordAfterOnes(t[1..], z - 1);
      assert t[1..][z - 1..] == t[z..];
      WordStep(t);
    }
  }

  lemma OnesAreLetters(z: nat, w: string)
    ensures AllLetters(Repeat('1', z) + w) <==> AllLetters(w)
  {
    hide Alphabet, IsLetter, IsSpace, DigitOf;
    LetterDigit(0);
    AlphabetIs(0);
    var t := Repeat('1', z) + w;
    if AllLetters(t) {
      forall i | 0 <= i < |w|
        ensures IsLetter(w[i])
      {
        assert t[z + i] == w[i];
      }
    }
  }

  /** Counts the leading ones of a word. */
  method CountOnes(t: string) returns (zeroes: nat)
    ensures zeroes <= |t| && Word(t) == Repeat('1', zeroes) + Word(t[zeroes..])
    ensures Leading(Word(t), '1') == zeroes && Word(t)[zeroes..] == Word(t[zeroes..])
    ensures AllLetters(Word(t)) <==> AllLetters(Word(t[zeroes..]))
  {
    hide IsLetter, IsSpace, Word, Leading, Repeat, AllLetters;
    zeroes := 0;
    while zeroes < |t| && t[zeroes] == '1'
      invariant 0 <= zeroes <= |t|
      invariant forall i | 0 <= i < zeroes :: t[i] == '1'
    {
      zeroes := zeroes + 1;
    }
    ghost var v := Word(t[zeroes..]);
    WordAfterOnes(t, zeroes);
    OnesAreLetters(zeroes, v);
    assert v != [] ==> v[0] == t[zeroes];
    LeadingSplit('1', zeroes, v);
  }

  method DecodeBase58(psz: string) returns (vch: Option<seq<nat>>)
    ensures vch == Decode(psz)
  {
    hide Num, DigitsOf, Alphabet, DigitsIn, IsLetter, IsSpace, Word, Leading, Repeat, SkipSpaces;
    var t := PastSpaces(psz);
    var zeroes := CountOnes(t);
    var rest := t[zeroes..];
    ghost var w, v := Word(t), Word(rest);
    var k, digits := ReadLetters(rest);
    if digits.None? {
      return None;
    }
    assert rest[k..] == t[|w|..];
    var tail := PastSpaces(rest[k..]);
    if tail != [] {
      return None;
    }
    vch := Some(Repeat(0, zeroes) + digits.value);
  }

  // The check-summed form: four bytes of a hash at the end

  type Sum = s: seq<nat> | |s| == 4 && AreDigits(s, 256) witness [0, 0, 0, 0]

  ghost function EncodeCheck(bytes: seq<nat>, hash: seq<nat> -> Sum): string {
    Encode(bytes + hash(bytes))
  }

  ghost function DecodeCheck(s: string, hash: seq<nat> -> Sum): Option<seq<nat>> {
    match Decode(s)
    case None => None
    case Some(vch) =>
      if |vch| < 4 || hash(vch[..|vch| - 4]) != vch[|vch| - 4..] then None else Some(vch[..|vch| - 4])
  }

  lemma DecodeEncodeCheck(bytes: seq<nat>, hash: seq<nat> -> Sum)
    requires AreDigits(bytes, 256)
    ensures DecodeCheck(EncodeCheck(bytes, hash), hash) == Some(bytes)
  {
    hide Encode, Decode;
    var vch := bytes + hash(bytes);
    DecodeEncode(vch);
    assert vch[..|vch| - 4] == bytes && vch[|vch| - 4..] == hash(bytes);
  }

  lemma EncodeDecodeCheck(s: string, hash: seq<nat> -> Sum)
    requires DecodeCheck(s, hash).Some?
    ensures EncodeCheck(DecodeCheck(s, hash).value, hash) == Trim(s)
  {
    hide Encode, Decode, Trim;
    var vch := Decode(s).value;
    EncodeDecode(s);
    assert vch == vch[..|vch| - 4] + vch[|vch| - 4..];
  }

  method EncodeBase58Check(bytes: seq<nat>, hash: seq<nat> -> Sum) returns (str: string)
    requires AreDigits(bytes, 256)
    ensures str == EncodeCheck(bytes, hash)
  {
    hide Encode;
    str := EncodeBase58(bytes + hash(bytes));
  }

  method DecodeBase58Check(psz: string, hash: seq<nat> -> Sum) returns (vch: Option<seq<nat>>)
    ensures vch == DecodeCheck(psz, hash)
  {
    hide Decode;
    var all := DecodeBase58(psz);
    if all.None? || |all.value| < 4 {
      return None;
    }
    var n := |all.value| - 4;
    if hash(all.value[..n]) != all.value[n..] {
      return None;
    }
    return Some(all.value[..n]);
  }
}
