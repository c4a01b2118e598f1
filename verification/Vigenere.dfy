/** The key schedule and the cipher, as functions on character sequences. */
module Vigenere {
  import opened Chars
  import opened Decimal
  import opened RunLength

  datatype Mode = Cipher | Decipher

  // ----- the key -----

  /** Shift a key character that is not a digit stands for. */
  function LetterShift(c: Char): Char {
    if IsLower(c) then c - LOWER_MIN else ToChar(c - UPPER_MIN)
  }

  /** The shifts of a key: one for every character that is not a digit, one for every maximal digit
      run, namely its decimal value modulo 26. */
  function Shifts(key: seq<Char>): seq<Char> {
    if key == [] then []
    else if IsDigit(key[0]) then
      [Value(key[..DigitRun(key)]) % ALPHABET_SIZE] + Shifts(key[DigitRun(key)..])
    else
      [LetterShift(key[0])] + Shifts(key[1..])
  }

  predicate ShiftsInAlphabet(shifts: seq<Char>) {
    forall i :: 0 <= i < |shifts| ==> 0 <= shifts[i] < ALPHABET_SIZE
  }

  lemma {:induction false} ShiftsLength(key: seq<Char>)
    ensures |Shifts(key)| <= |key|
    ensures key != [] ==> Shifts(key) != []
    decreases |key|
  {
    if key == [] {
    } else if IsDigit(key[0]) {
      ShiftsLength(key[DigitRun(key)..]);
    } else {
      ShiftsLength(key[1..]);
    }
  }

  lemma {:induction false} ShiftsRange(key: seq<Char>)
    requires Alphanumeric(key)
    ensures ShiftsInAlphabet(Shifts(key))
    decreases |key|
  {
    if key == [] {
    } else if IsDigit(key[0]) {
      ShiftsRange(key[DigitRun(key)..]);
    } else {
      ShiftsRange(key[1..]);
    }
  }

  /** A digit run is read as one token whatever follows it. */
  lemma ShiftsOfRun(ds: seq<Char>, rest: seq<Char>)
    requires ds != [] && AllDigits(ds) && StartsClean(rest)
    ensures Shifts(ds + rest) == [Value(ds) % ALPHABET_SIZE] + Shifts(rest)
  {
    DigitRunOf(ds, rest);
    assert (ds + rest)[..|ds|] == ds;
    assert (ds + rest)[|ds|..] == rest;
  }

  lemma NoShifts()
    ensures Shifts([]) == []
  {
  }

  lemma ShiftsOfLetter(c: Char, rest: seq<Char>)
    requires !IsDigit(c)
    ensures Shifts([c] + rest) == [LetterShift(c)] + Shifts(rest)
  {
    assert ([c] + rest)[1..] == rest;
  }

  /** The first token of a key: a letter, or a maximal digit run. */
  lemma FirstShift(key: seq<Char>) returns (token: seq<Char>, shift: Char, rest: seq<Char>)
    requires key != []
    ensures key == token + rest && token != []
    ensures Shifts(key) == [shift] + Shifts(rest)
    ensures if IsDigit(key[0]) then
              AllDigits(token) && StartsClean(rest) && shift == Value(token) % ALPHABET_SIZE
            else
              token == [key[0]] && shift == LetterShift(key[0])
  {
    var k := if IsDigit(key[0]) then DigitRun(key) else 1;
    token, rest := key[..k], key[k..];
    shift := Shifts(key)[0];
  }

  /** The shifts of `p + q` are those of `p` and `q` unless a digit run crosses the boundary. */
  lemma {:induction false} ShiftsConcat(p: seq<Char>, q: seq<Char>)
    requires p == [] || StartsClean(q) || !IsDigit(p[|p| - 1])
    ensures Shifts(p + q) == Shifts(p) + Shifts(q)
    decreases |p|
  {
    hide Value, DigitRun, LetterShift;
    if p == [] {
      assert p + q == q;
    } else {
      var token, shift, rest := FirstShift(p);
      assert rest == [] ==> p == token;
      assert rest != [] ==> rest[|rest| - 1] == p[|p| - 1];
      assert rest == [] ==> rest + q == q;
      ShiftsConcat(rest, q);
      ShiftsCons(p[0], token, shift, rest + q);
      Associative(token, rest, q);
      Associative([shift], Shifts(rest), Shifts(q));
    }
  }

  lemma ShiftsCons(c: Char, token: seq<Char>, shift: Char, rest: seq<Char>)
    requires token != [] && token[0] == c
    requires if IsDigit(c) then
               AllDigits(token) && StartsClean(rest) && shift == Value(token) % ALPHABET_SIZE
             else
               token == [c] && shift == LetterShift(c)
    ensures Shifts(token + rest) == [shift] + Shifts(rest)
  {
    if IsDigit(c) {
      ShiftsOfRun(token, rest);
    } else {
      ShiftsOfLetter(c, rest);
    }
  }

  // ----- the key, told without its definition -----

  /** A token of a key starts at every character but a digit behind a digit. */
  predicate TokenStart(key: seq<Char>, i: int) {
    0 <= i < |key| && (!IsDigit(key[i]) || i == 0 || !IsDigit(key[i - 1]))
  }

  /** How many tokens start in front of position `n`. */
  function Starts(key: seq<Char>, n: nat): nat
    requires n <= |key|
  {
    if n == 0 then 0 else Starts(key, n - 1) + if TokenStart(key, n - 1) then 1 else 0
  }

  /** `key[a..b]` is a token: one character that is no digit, or a digit run that cannot be extended. */
  predicate TokenAt(key: seq<Char>, a: int, b: int) {
    && 0 <= a < b <= |key| && TokenStart(key, a)
    && if IsDigit(key[a]) then AllDigits(key[a..b]) && (b < |key| ==> !IsDigit(key[b])) else b == a + 1
  }

  /** One more digit behind a digit makes no new token. */
  lemma {:induction false} DigitExtends(s: seq<Char>, d: Char)
    requires s != [] && IsDigit(s[|s| - 1]) && IsDigit(d)
    ensures |Shifts(s + [d])| == |Shifts(s)|
    decreases |s|
  {
    hide Shifts, Value, LetterShift;
    var token, shift, rest := FirstShift(s);
    NoShifts();
    if rest == [] {
      assert s == token;
      ShiftsOfRun(s + [d], []);
      assert s + [d] + [] == s + [d];
    } else {
      assert rest[|rest| - 1] == s[|s| - 1];
      DigitExtends(rest, d);
      ShiftsCons(s[0], token, shift, rest + [d]);
      Associative(token, rest, [d]);
    }
  }

  /** A key has as many shifts as tokens. */
  lemma {:induction false} ShiftCount(key: seq<Char>, n: nat)
    requires n <= |key|
    ensures |Shifts(key[..n])| == Starts(key, n)
  {
    hide Shifts;
    if n == 0 {
      NoShifts();
    } else {
      ShiftCount(key, n - 1);
      var p, c := key[..n - 1], key[n - 1];
      assert key[..n] == p + [c];
      if TokenStart(key, n - 1) {
        ShiftsConcat(p, [c]);
        OneShift(c);
      } else {
        DigitExtends(p, c);
      }
    }
  }

  lemma OneShift(c: Char)
    ensures |Shifts([c])| == 1
  {
    assert [c] + [] == [c];
    if IsDigit(c) {
      ShiftsOfRun([c], []);
    } else {
      ShiftsOfLetter(c, []);
    }
  }

  /** The shift of each token stands where the tokens in front of it end: a lower-case letter counts from
      97, any other character but a digit from 65, a digit run is its value modulo 26. */
  lemma ShiftAt(key: seq<Char>, a: nat, b: nat)
    requires TokenAt(key, a, b)
    ensures Starts(key, a) < |Shifts(key)| == Starts(key, |key|)
    ensures Shifts(key)[Starts(key, a)]
            == if IsDigit(key[a]) then Value(key[a..b]) % 26
               else if 97 <= key[a] <= 122 then key[a] - 97
               else if key[a] >= -63 then key[a] - 65 else key[a] + 191
  {
    hide Shifts, Value, LetterShift, Starts;
    var p, token, q := key[..a], key[a..b], key[b..];
    ShiftCount(key, a);
    ShiftCount(key, |key|);
    CutTwice(key, a, b);
    assert TokenStart(key, a);
    ShiftsConcat(p, token + q);
    ghost var shift := if IsDigit(key[a]) then Value(token) % 26 else LetterShift(key[a]);
    LetterShiftIs(key[a]);
    ShiftsCons(key[a], token, shift, q);
    assert Shifts(key)[|Shifts(p)|] == shift;
  }

  lemma CutTwice<T>(s: seq<T>, a: nat, b: nat)
    requires a < b <= |s|
    ensures s[..|s|] == s == s[..a] + (s[a..b] + s[b..])
    ensures s[a..b][0] == s[a] && (b == a + 1 ==> s[a..b] == [s[a]])
    ensures a > 0 ==> s[..a][a - 1] == s[a - 1]
    ensures b < |s| ==> s[b..][0] == s[b]
  {
  }

  lemma LetterShiftIs(c: Char)
    ensures LetterShift(c) == if 97 <= c <= 122 then c - 97 else if c >= -63 then c - 65 else c + 191
  {
  }

  /** A normalised key, read token by token: the value of each token stands where the tokens in front of it
      end. */
  ghost predicate Normalised(key: seq<Char>, shifts: seq<Char>) {
    && |shifts| == Starts(key, |key|)
    && forall a: nat, b: nat :: TokenAt(key, a, b) ==>
         && Starts(key, a) < |shifts|
         && shifts[Starts(key, a)] == if IsDigit(key[a]) then Value(key[a..b]) % 26
                                      else if 97 <= key[a] <= 122 then key[a] - 97
                                      else if key[a] >= -63 then key[a] - 65 else key[a] + 191
  }

  lemma ShiftsNormalised(key: seq<Char>)
    ensures Normalised(key, Shifts(key))
  {
    hide Shifts, Value, Starts;
    ShiftCount(key, |key|);
    assert key[..|key|] == key;
    forall a: nat, b: nat | TokenAt(key, a, b)
      ensures Starts(key, a) < |Shifts(key)|
      ensures Shifts(key)[Starts(key, a)] == if IsDigit(key[a]) then Value(key[a..b]) % 26
                                             else if 97 <= key[a] <= 122 then key[a] - 97
                                             else if key[a] >= -63 then key[a] - 65 else key[a] + 191
    {
      ShiftAt(key, a, b);
    }
  }

  /** In a key without digits every character is a token. */
  lemma {:induction false} StartsOfLetters(key: seq<Char>, n: nat)
    requires DigitFree(key) && n <= |key|
    ensures Starts(key, n) == n
  {
    if n == 0 {
    } else {
      StartsOfLetters(key, n - 1);
    }
  }

  /** A key without digits has a shift for each of its characters, in their places. */
  lemma ShiftsOfLetters(key: seq<Char>)
    requires DigitFree(key)
    ensures |Shifts(key)| == |key|
    ensures forall i :: 0 <= i < |key| && IsLower(key[i]) ==> Shifts(key)[i] == key[i] - 97
    ensures forall i :: 0 <= i < |key| && IsUpper(key[i]) ==> Shifts(key)[i] == key[i] - 65
  {
    hide Shifts;
    StartsOfLetters(key, |key|);
    ShiftCount(key, |key|);
    assert key[..|key|] == key;
    forall i | 0 <= i < |key|
      ensures i < |Shifts(key)|
      ensures IsLower(key[i]) ==> Shifts(key)[i] == key[i] - 97
      ensures IsUpper(key[i]) ==> Shifts(key)[i] == key[i] - 65
    {
      StartsOfLetters(key, i);
      ShiftAt(key, i, i + 1);
    }
  }

  /** "de35" stands for the shifts 3, 4 and 9. */
  lemma KeyInstance()
    ensures Shifts(Text("de35")) == [3, 4, 9]
  {
    hide Shifts, Value;
    var key := Text("de35");
    var d, e, run: seq<Char> := [100], [101], [51, 53];
    assert key == d + (e + (run + []));
    ShiftsOfLetter(100, e + (run + []));
    ShiftsOfLetter(101, run + []);
    ShiftsOfRun(run, []);
    ThirtyFive();
    NoShifts();
  }

  lemma ThirtyFive()
    ensures var run: seq<Char> := [51, 53]; AllDigits(run) && Value(run) == 35
  {
    hide Value;
    var three, five: Char := 51, 53;
    NoCount();
    ValueSnoc([], three);
    ValueSnoc([three], five);
    assert [] + [three] == [three];
    assert [three] + [five] == [three, five];
  }

  // ----- one character -----

  /** The first code point of the character's class; zero outside digits and letters. */
  function CharBase(c: Char): Char {
    if IsDigit(c) then NUMBER_MIN
    else if IsLower(c) then LOWER_MIN
    else if IsUpper(c) then UPPER_MIN
    else 0
  }

  /** What one turn of the cipher loop makes of a character, every store truncated to a `char`. */
  function Shifted(c: Char, k: Char, mode: Mode): Char {
    var base := CharBase(c);
    var offset := ToChar(c - base);
    var moved := ToChar(offset + (if mode == Decipher then ALPHABET_SIZE - k else k));
    ToChar(ToChar(CRem(moved, ALPHABET_SIZE)) + base)
  }

  /** On letters no store truncates: the letter moves cyclically within its own case. */
  lemma LetterShifted(c: Char, k: Char, mode: Mode)
    requires IsLetter(c) && 0 <= k < ALPHABET_SIZE
    ensures IsLower(Shifted(c, k, mode)) == IsLower(c) && IsUpper(Shifted(c, k, mode)) == IsUpper(c)
    ensures var d := if mode == Decipher then ALPHABET_SIZE - k else k;
            && -128 <= c - CharBase(c) + d <= 127
            && Shifted(c, k, mode) == CharBase(c) + (c - CharBase(c) + d) % ALPHABET_SIZE
  {
  }

  lemma CRemCases(a: int)
    ensures 0 <= a ==> CRem(a, ALPHABET_SIZE) == a % ALPHABET_SIZE
    ensures -ALPHABET_SIZE < CRem(a, ALPHABET_SIZE) < ALPHABET_SIZE
    ensures -ALPHABET_SIZE < a < ALPHABET_SIZE ==> CRem(a, ALPHABET_SIZE) == a
    ensures 26 <= a < 52 ==> CRem(a, ALPHABET_SIZE) == a - 26
  {
  }

  function Other(mode: Mode): Mode {
    if mode == Cipher then Decipher else Cipher
  }

  lemma LetterRoundTrip(c: Char, k: Char, mode: Mode)
    requires IsLetter(c) && 0 <= k < ALPHABET_SIZE
    ensures Shifted(Shifted(c, k, mode), k, Other(mode)) == c
  {
    hide Chars.ToChar, Chars.CRem;
    var x := Shifted(c, k, mode);
    LetterShifted(c, k, mode);
    LetterShifted(x, k, Other(mode));
    var moved := c - CharBase(c) + (if mode == Decipher then ALPHABET_SIZE - k else k);
    var back := x - CharBase(x) + (if mode == Decipher then k else ALPHABET_SIZE - k);
    CRemCases(moved);
    CRemCases(back);
    assert CharBase(x) == CharBase(c);
  }

  /** A ciphered digit that leaves the digits is not restored. */
  lemma DigitRoundTrip(c: Char, k: Char)
    requires IsDigit(c) && 0 <= k < ALPHABET_SIZE
    ensures Shifted(Shifted(c, k, Cipher), k, Decipher) == c <==> (c - NUMBER_MIN + k) % ALPHABET_SIZE <= 9
  {
    hide Chars.ToChar, Chars.CRem;
    var d := c - NUMBER_MIN;
    CRemCases(d + k);
    var m := CRem(d + k, ALPHABET_SIZE);
    var x := Shifted(c, k, Cipher);
    assert m == (d + k) % ALPHABET_SIZE && x == NUMBER_MIN + m;
    var moved := x - CharBase(x) + ALPHABET_SIZE - k;
    CRemCases(moved);
    assert Shifted(x, k, Decipher) == CRem(moved, ALPHABET_SIZE) + CharBase(x);
  }

  /** A code outside digits and letters comes back reduced below 26. */
  lemma OtherRoundTrip(c: Char, k: Char)
    requires !IsDigit(c) && !IsLetter(c) && 0 <= k < ALPHABET_SIZE
    ensures Shifted(Shifted(c, k, Cipher), k, Decipher) == c <==> 0 <= c < ALPHABET_SIZE
  {
    hide Chars.ToChar, Chars.CRem;
    var moved := ToChar(c + k);
    CRemCases(moved);
    var x := Shifted(c, k, Cipher);
    assert x == CRem(moved, ALPHABET_SIZE);
    var back := x + ALPHABET_SIZE - k;
    CRemCases(back);
    assert Shifted(x, k, Decipher) == CRem(back, ALPHABET_SIZE);
  }

  /** A character deciphering restores: a letter, a digit its shift keeps a digit, or a code below 26. */
  predicate Restorable(c: Char, k: Char) {
    || IsLetter(c)
    || (IsDigit(c) && (c - NUMBER_MIN + k) % ALPHABET_SIZE <= 9)
    || 0 <= c < ALPHABET_SIZE
  }

  lemma CharRoundTripExactly(c: Char, k: Char)
    requires 0 <= k < ALPHABET_SIZE
    ensures Shifted(Shifted(c, k, Cipher), k, Decipher) == c <==> Restorable(c, k)
  {
    if IsLetter(c) {
      LetterRoundTrip(c, k, Cipher);
    } else if IsDigit(c) {
      DigitRoundTrip(c, k);
    } else {
      OtherRoundTrip(c, k);
    }
  }

  // ----- a buffer -----

  /** The cipher on a whole buffer with a normalised key: position `i` uses shift `i` modulo the
      number of shifts. */
  function Apply(buffer: seq<Char>, shifts: seq<Char>, mode: Mode): (r: seq<Char>)
    requires buffer == [] || shifts != []
    ensures |r| == |buffer|
    ensures forall i :: 0 <= i < |buffer| ==> r[i] == Shifted(buffer[i], shifts[i % |shifts|], mode)
  {
    seq(|buffer|, i requires 0 <= i < |buffer| => Shifted(buffer[i], shifts[i % |shifts|], mode))
  }

  /** What `cipher` leaves in the buffer: a key longer than MAX_SIZE is refused and nothing changes. */
  function Ciphered(buffer: seq<Char>, key: seq<Char>, mode: Mode): (r: seq<Char>)
    requires buffer == [] || key != []
    ensures |r| == |buffer|
  {
    ShiftsLength(key);
    if |key| > MAX_SIZE then buffer else Apply(buffer, Shifts(key), mode)
  }

  /** Told without the cipher's definition: under a shift of the alphabet, letters and digits move from
      their place in their class, cyclically modulo 26, by the shift or, deciphering, by 26 minus it;
      other characters count from zero, their sum truncated to a `char`. */
  lemma CipheredAt(buffer: seq<Char>, key: seq<Char>, mode: Mode, i: nat)
    requires i < |buffer| && 0 < |key| <= MAX_SIZE
    ensures Shifts(key) != []
    ensures var k: int := Shifts(key)[i % |Shifts(key)|];
            var d: int := if mode == Cipher then k else 26 - k;
            var c: int, r := buffer[i], Ciphered(buffer, key, mode)[i];
            0 <= k < 26 ==>
              && (97 <= c <= 122 ==> r == 97 + (c - 97 + d) % 26)
              && (65 <= c <= 90 ==> r == 65 + (c - 65 + d) % 26)
              && (48 <= c <= 57 ==> r == 48 + (c - 48 + d) % 26)
              && (!IsLetter(c) && !IsDigit(c) ==> r == CRem(ToChar(c + d), 26))
  {
    hide Shifts, Shifted, Chars.CRem, Chars.ToChar;
    ShiftsLength(key);
    var k := Shifts(key)[i % |Shifts(key)|];
    if 0 <= k < 26 {
      ShiftedAt(buffer[i], k, mode);
    }
  }

  lemma ShiftedAt(c: Char, k: Char, mode: Mode)
    requires 0 <= k < 26
    ensures var d: int := if mode == Cipher then k else 26 - k;
            var r := Shifted(c, k, mode);
            && (97 <= c <= 122 ==> r == 97 + (c - 97 + d) % 26)
            && (65 <= c <= 90 ==> r == 65 + (c - 65 + d) % 26)
            && (48 <= c <= 57 ==> r == 48 + (c - 48 + d) % 26)
            && (!IsLetter(c) && !IsDigit(c) ==> r == CRem(ToChar(c + d), 26))
  {
    hide Chars.ToChar, Chars.CRem;
    var d: int := if mode == Cipher then k else 26 - k;
    if IsLetter(c) {
      LetterShifted(c, k, mode);
    } else if IsDigit(c) {
      CRemCases(c - NUMBER_MIN + d);
    } else {
      CRemCases(ToChar(c + d));
    }
  }

  /** Every letter of `text` has moved within its case, by the shift at its place modulo the number of
      shifts or, deciphering, by 26 minus it. */
  predicate LettersMoved(text: seq<Char>, moved: seq<Char>, shifts: seq<Char>, mode: Mode) {
    && shifts != [] && |moved| == |text|
    && forall i :: 0 <= i < |text| && IsLetter(text[i]) ==>
         var base := if IsLower(text[i]) then 97 else 65;
         var k: int := shifts[i % |shifts|];
         moved[i] == base + (text[i] - base + if mode == Cipher then k else 26 - k) % 26
  }

  lemma CipherMoves(text: seq<Char>, key: seq<Char>, mode: Mode)
    requires 0 < |key| <= MAX_SIZE && Alphanumeric(key)
    ensures LettersMoved(text, Ciphered(text, key, mode), Shifts(key), mode)
  {
    hide Shifts, Ciphered;
    ShiftsLength(key);
    ShiftsRange(key);
    forall i | 0 <= i < |text| && IsLetter(text[i])
      ensures var base := if IsLower(text[i]) then 97 else 65;
              var k: int := Shifts(key)[i % |Shifts(key)|];
              Ciphered(text, key, mode)[i] == base + (text[i] - base + if mode == Cipher then k else 26 - k) % 26
    {
      CipheredAt(text, key, mode, i);
    }
  }

  /** "abCzX" under the key "de35" becomes "dfLcB". */
  lemma CipherInstance()
    ensures Ciphered(Text("abCzX"), Text("de35"), Cipher) == Text("dfLcB")
  {
    hide Shifts, Ciphered;
    var text, key := Text("abCzX"), Text("de35");
    KeyInstance();
    var r := Ciphered(text, key, Cipher);
    forall i | 0 <= i < 5
      ensures r[i] == Text("dfLcB")[i]
    {
      CipheredAt(text, key, Cipher, i);
    }
  }

  lemma CipheredLetters(buffer: seq<Char>, key: seq<Char>, mode: Mode)
    requires AllLetters(buffer) && Alphanumeric(key) && key != []
    ensures AllLetters(Ciphered(buffer, key, mode))
    ensures forall i :: 0 <= i < |buffer| ==> IsLower(Ciphered(buffer, key, mode)[i]) == IsLower(buffer[i])
  {
    ShiftsLength(key);
    ShiftsRange(key);
    if |key| <= MAX_SIZE {
      forall i | 0 <= i < |buffer|
        ensures IsLetter(Ciphered(buffer, key, mode)[i])
        ensures IsLower(Ciphered(buffer, key, mode)[i]) == IsLower(buffer[i])
      {
        LetterShifted(buffer[i], Shifts(key)[i % |Shifts(key)|], mode);
      }
    }
  }

  /** Ciphering and deciphering with one key undo each other on letters, in both orders. */
  lemma CipherInverse(buffer: seq<Char>, key: seq<Char>, mode: Mode)
    requires AllLetters(buffer) && Alphanumeric(key) && key != []
    ensures Ciphered(Ciphered(buffer, key, mode), key, Other(mode)) == buffer
  {
    var once := Ciphered(buffer, key, mode);
    ShiftsLength(key);
    ShiftsRange(key);
    if |key| <= MAX_SIZE {
      forall i | 0 <= i < |buffer|
        ensures Ciphered(once, key, Other(mode))[i] == buffer[i]
      {
        LetterRoundTrip(buffer[i], Shifts(key)[i % |Shifts(key)|], mode);
      }
    }
  }

  /** For arbitrary buffers: deciphering restores the buffer exactly when every position holds a
      letter, a digit that its shift keeps a digit, or a code below 26. */
  lemma CipherInverseExactly(buffer: seq<Char>, key: seq<Char>)
    requires Alphanumeric(key) && 0 < |key| <= MAX_SIZE
    ensures Shifts(key) != []
    ensures Ciphered(Ciphered(buffer, key, Cipher), key, Decipher) == buffer
       <==> forall i :: 0 <= i < |buffer| ==> Restorable(buffer[i], Shifts(key)[i % |Shifts(key)|])
  {
    var twice := Ciphered(Ciphered(buffer, key, Cipher), key, Decipher);
    ShiftsLength(key);
    ShiftsRange(key);
    forall i | 0 <= i < |buffer|
      ensures twice[i] == buffer[i] <==> Restorable(buffer[i], Shifts(key)[i % |Shifts(key)|])
    {
      CharRoundTripExactly(buffer[i], Shifts(key)[i % |Shifts(key)|]);
    }
  }
}
