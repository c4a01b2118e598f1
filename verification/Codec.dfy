/** The procedures of compress.c, working in place on character arrays. */
module Codec {
  import opened Chars
  import opened Decimal
  import opened RunLength
  import opened Vigenere

  /** `after` is `before` with `s` written from `pos` on. */
  ghost predicate Written(before: seq<Char>, after: seq<Char>, pos: nat, s: seq<Char>) {
    && pos + |s| <= |before| == |after|
    && forall m :: 0 <= m < |after| ==> after[m] == if pos <= m < pos + |s| then s[m - pos] else before[m]
  }

  lemma WrittenTwice(before: seq<Char>, mid: seq<Char>, after: seq<Char>, pos: nat, s: seq<Char>, t: seq<Char>)
    requires Written(before, mid, pos, s) && Written(mid, after, pos + |s|, t)
    ensures Written(before, after, pos, s + t)
  {
  }

  /** What is written up to `end` leaves everything from `end` on alone. */
  lemma WrittenBelow(before: seq<Char>, after: seq<Char>, pos: nat, s: seq<Char>, end: nat)
    requires Written(before, after, pos, s) && pos + |s| <= end
    ensures |before| == |after| && forall m :: end <= m < |after| ==> after[m] == before[m]
  {
  }

  lemma WrittenNothing(was: seq<Char>, pos: nat)
    requires pos <= |was|
    ensures Written(was, was, pos, [])
  {
  }

  method PushChar(dst: array<Char>, pos: nat, c: Char) returns (end: nat)
    requires pos < dst.Length
    modifies dst
    ensures end == pos + 1
    ensures Written(old(dst[..]), dst[..], pos, [c])
  {
    dst[pos] := c;
    end := pos + 1;
  }

  /** memcpy: `n` characters to the front of `dst`. */
  method CopyBytes(dst: array<Char>, src: array<Char>, n: nat)
    requires dst != src && n <= dst.Length && n <= src.Length
    modifies dst
    ensures Written(old(dst[..]), dst[..], 0, src[..n]) && dst[..n] == src[..n]
  {
    for i := 0 to n
      invariant forall m :: 0 <= m < dst.Length ==> dst[m] == if m < i then src[m] else old(dst[m])
    {
      dst[i] := src[i];
    }
  }

  // ----- decimal output -----

  method ItoaInverse(buffer: array<Char>, val: U32) returns (i: nat)
    requires buffer.Length >= 10
    modifies buffer
    ensures i == |Digits(val)| <= 10
    ensures forall j :: 0 <= j < i ==> buffer[j] == Digits(val)[i - 1 - j]
  {
    U32Digits(val);
    ghost var all := Digits(val);
    var v: U32 := val;
    i := 0;
    while v > 0
      invariant i + |Digits(v)| == |all|
      invariant Digits(v) == all[..|all| - i]
      invariant forall j :: 0 <= j < i ==> buffer[j] == all[|all| - 1 - j]
      decreases v
    {
      ghost var ds := Digits(v);
      assert ds == Digits(v / 10) + [NUMBER_MIN + v % 10];
      assert ds[|ds| - 1] == all[|all| - 1 - i];
      buffer[i] := NUMBER_MIN + v % 10;
      assert Digits(v / 10) == ds[..|ds| - 1];
      v := v / 10;
      i := i + 1;
    }
  }

  method PushInt(buffer: array<Char>, pos: nat, val: U32) returns (end: nat)
    requires pos + |Digits(val)| <= buffer.Length
    modifies buffer
    ensures end == pos + |Digits(val)|
    ensures Written(old(buffer[..]), buffer[..], pos, Digits(val))
  {
    var tmp := new Char[16](_ => 0);
    var res := ItoaInverse(tmp, val);
    end := pos;
    var i: int := res - 1;
    while i >= 0
      invariant -1 <= i < res && end == pos + res - 1 - i
      invariant Written(old(buffer[..]), buffer[..], pos, Digits(val)[..res - 1 - i])
      invariant forall j :: 0 <= j < res ==> tmp[j] == Digits(val)[res - 1 - j]
      decreases i
    {
      ghost var mid := buffer[..];
      end := PushChar(buffer, end, tmp[i]);
      WrittenTwice(old(buffer[..]), mid, buffer[..], pos, Digits(val)[..res - 1 - i], [tmp[i]]);
      assert Digits(val)[..res - 1 - i] + [tmp[i]] == Digits(val)[..res - i];
      i := i - 1;
    }
    assert Digits(val)[..res] == Digits(val);
  }

  /** What is pushed for a count; nothing for an empty run. */
  function Flushed(c: Char, count: nat): seq<Char> {
    if count == 0 then [] else Show(Token(c, count))
  }

  method PushCharCount(dst: array<Char>, pos: nat, c: Char, count: U32) returns (end: nat)
    requires pos + |Flushed(c, count)| <= dst.Length
    modifies dst
    ensures end == pos + |Flushed(c, count)|
    ensures Written(old(dst[..]), dst[..], pos, Flushed(c, count))
    ensures Flushed(c, count) == if count == 0 then [] else if count == 1 then [c] else [c] + Numeral(count)
  {
    hide Digits, Written;
    WrittenNothing(dst[..], pos);
    end := pos;
    if count == 0 { return; }
    end := PushChar(dst, end, c);
    if count == 1 { return; }
    ghost var mid := dst[..];
    end := PushInt(dst, end, count);
    WrittenTwice(old(dst[..]), mid, dst[..], pos, [c], Digits(count));
  }

  // ----- compress -----

  /** The run under the cursor: the characters read since `start`, all equal to `c`. */
  ghost predicate RunUnderCursor(s: seq<Char>, start: nat, i: nat, c: Char) {
    && start <= i <= |s|
    && (i > 0 ==> start < i)
    && (forall m :: start <= m < i ==> s[m] == c)
    && (start > 0 ==> s[start - 1] != c)
  }

  lemma EncodeAroundRun(p: seq<Char>, c: Char, n: nat, q: seq<Char>)
    requires n > 0 && (p == [] || p[|p| - 1] != c) && (q == [] || q[0] != c)
    ensures Encode(p + Rep(c, n)) == Encode(p) + Show(Token(c, n))
    ensures Encode(p + Rep(c, n) + q) == Encode(p + Rep(c, n)) + Encode(q)
  {
    EncodeConcat(p, Rep(c, n));
    EncodeRep(c, n);
    EncodeConcat(p + Rep(c, n), q);
  }

  lemma NothingEncoded(s: seq<Char>)
    ensures Encode(s[..0]) == []
  {
    assert s[..0] == [];
  }

  /** What flushing the run adds, and that it fits behind the cursor and in the whole output. */
  lemma RunEnds(s: seq<Char>, start: nat, i: nat, c: Char)
    requires RunUnderCursor(s, start, i, c)
    requires i == |s| || s[i] != c
    ensures Encode(s[..i]) == Encode(s[..start]) + Flushed(c, i - start)
    ensures |Encode(s[..i])| <= i && |Encode(s[..i])| <= |Encode(s)|
  {
    hide RunLength.Encode;
    NothingEncoded(s);
    EncodeShort(s[..i]);
    if start < i {
      assert s[..i] == s[..start] + Rep(c, i - start);
      assert s == s[..i] + s[i..];
      EncodeAroundRun(s[..start], c, i - start, s[i..]);
    }
  }

  /** Flushes the run under the cursor, when another character or the end follows. */
  method FlushRun(dst: array<Char>, pos: nat, c: Char, count: U32,
                  ghost s: seq<Char>, ghost start: nat, ghost i: nat, ghost out: seq<Char>, ghost was: seq<Char>)
    returns (end: nat, ghost newOut: seq<Char>)
    requires RunUnderCursor(s, start, i, c) && count == i - start && (i == |s| || s[i] != c)
    requires out == Encode(s[..start]) && |Encode(s)| <= dst.Length
    requires pos == |out| && Written(was, dst[..], 0, out)
    modifies dst
    ensures newOut == Encode(s[..i])
    ensures end == |newOut| <= i && Written(was, dst[..], 0, newOut)
    ensures forall m :: i <= m < dst.Length ==> dst[m] == old(dst[m])
  {
    hide RunLength.Encode, Flushed, Written;
    RunEnds(s, start, i, c);
    newOut := out + Flushed(c, count);
    end := PushCharCount(dst, pos, c, count);
    WrittenTwice(was, old(dst[..]), dst[..], 0, out, Flushed(c, count));
    WrittenBelow(old(dst[..]), dst[..], pos, Flushed(c, count), i);
    assert forall m :: i <= m < dst.Length ==> dst[..][m] == dst[m] && old(dst[..])[m] == old(dst[m]);
  }

  /** Run-length compression; `dst` may be `src` itself, which is how `copy_safely` calls it. */
  method Compress(src: array<Char>, srcLen: U32, dst: array<Char>) returns (pos: nat)
    requires srcLen <= src.Length
    requires |Encode(src[..srcLen])| <= dst.Length
    modifies dst
    ensures pos == |Encode(old(src[..srcLen]))| <= srcLen
    ensures Written(old(dst[..]), dst[..], 0, Encode(old(src[..srcLen])))
  {
    hide RunLength.Encode, Written;
    ghost var s, was := src[..srcLen], dst[..];
    ghost var start := 0;   // where the run under the cursor begins
    ghost var out := [];    // what has been written
    var lastChar: Char := 0;
    var count: U32 := 0;
    pos := 0;
    NothingEncoded(s);
    WrittenNothing(was, 0);
    for i := 0 to srcLen
      invariant RunUnderCursor(s, start, i, lastChar) && count == i - start
      invariant out == Encode(s[..start])
      invariant pos == |out| && Written(was, dst[..], 0, out)
      invariant forall m :: i <= m < srcLen ==> src[m] == s[m]
    {
      var c := src[i];
      if c == lastChar {
        count := count + 1;
      } else {
        pos, out := FlushRun(dst, pos, lastChar, count, s, start, i, out, was);
        start := i;
        lastChar := c;
        count := 1;
      }
    }
    pos, out := FlushRun(dst, pos, lastChar, count, s, start, srcLen, out, was);
    assert s[..srcLen] == s;
  }

  // ----- decompress -----

  /** Copies still owed for the last character, which has been written once. */
  function Owed(count: nat): nat {
    if count > 1 then count - 1 else 0
  }

  method PushDecompressed(dst: array<Char>, pos: nat, lastChar: Char, count: U32) returns (end: nat)
    requires pos + Owed(count) <= dst.Length
    modifies dst
    ensures end == pos + Owed(count)
    ensures Written(old(dst[..]), dst[..], pos, Rep(lastChar, Owed(count)))
  {
    end := pos;
    var left := count;
    while left > 1
      invariant 0 <= left <= count && (count > 0 ==> left > 0) && end == pos + (count - left)
      invariant Written(old(dst[..]), dst[..], pos, Rep(lastChar, end - pos))
    {
      ghost var mid := dst[..];
      end := PushChar(dst, end, lastChar);
      WrittenTwice(old(dst[..]), mid, dst[..], pos, Rep(lastChar, count - left), [lastChar]);
      assert Rep(lastChar, count - left) + [lastChar] == Rep(lastChar, end - pos);
      left := left - 1;
    }
  }

  /** The reader's state behind position `i` of `t`, whose last character that is no digit is at `j`. */
  ghost predicate Reading(t: seq<Char>, j: nat, i: nat, c: Char, count: nat, parsing: bool, out: seq<Char>) {
    && StartsClean(t) && j < i <= |t|
    && !IsDigit(t[j]) && AllDigits(t[j + 1..i])
    && c == t[j] && parsing == (j + 1 < i)
    && count == Value(t[j + 1..i]) % ALPHABET_SIZE
    && out == Expand(Parse(t[..j])) + [c]
  }

  /** The reader before the first character that is no digit: it has only counted. */
  ghost predicate Leading(s: seq<Char>, i: nat, count: nat, parsing: bool) {
    && i <= |s| && AllDigits(s[..i])
    && parsing == (i > 0)
    && count == Value(s[..i]) % ALPHABET_SIZE
  }

  function NextCount(count: nat, parsing: bool, c: Char): nat
    requires IsDigit(c)
  {
    ((if parsing then 10 * count else 0) + c - NUMBER_MIN) % ALPHABET_SIZE
  }

  lemma NothingRead(s: seq<Char>)
    ensures Leading(s, 0, 0, false)
  {
  }

  lemma LeadingDigit(s: seq<Char>, i: nat, count: nat, parsing: bool)
    requires Leading(s, i, count, parsing) && i < |s| && IsDigit(s[i])
    ensures Leading(s, i + 1, NextCount(count, parsing, s[i]), true)
  {
    HornerStep(s[..i], s[i]);
    assert s[..i + 1] == s[..i] + [s[i]];
  }

  /** The first character that is no digit starts the reading of the canonical string. */
  lemma FirstCharacter(s: seq<Char>, i: nat, count: nat, parsing: bool)
    requires Leading(s, i, count, parsing) && i < |s| && !IsDigit(s[i])
    ensures !AllDigits(s) && |Canonical(s)| == |s|
    ensures Decode(s) == Expand(Parse(Canonical(s))) != []
    ensures Reading(Canonical(s), 0, i + 1, s[i], count, parsing, [s[i]])
    ensures forall m :: i < m < |s| ==> Canonical(s)[m] == s[m]
  {
    assert s == s[..i] + s[i..];
    DigitRunOf(s[..i], s[i..]);
    var t := Canonical(s);
    assert t[1..i + 1] == s[..i];
    assert t[..0] == [];
    assert t[0..] == t;
    ExpandSplit(t, 0);
  }

  lemma OnlyDigits(s: seq<Char>, count: nat, parsing: bool)
    requires Leading(s, |s|, count, parsing)
    ensures Decode(s) == Rep(0, Owed(count))
  {
    assert s[..|s|] == s;
  }

  lemma NextDigit(t: seq<Char>, j: nat, i: nat, c: Char, count: nat, parsing: bool, out: seq<Char>)
    requires Reading(t, j, i, c, count, parsing, out) && i < |t| && IsDigit(t[i])
    ensures Reading(t, j, i + 1, c, NextCount(count, parsing, t[i]), true, out)
  {
    hide RunLength.Parse, RunLength.Expand;
    HornerStep(t[j + 1..i], t[i]);
    assert t[j + 1..i + 1] == t[j + 1..i] + [t[i]];
  }

  lemma OwedIsRest(c: Char, ds: seq<Char>)
    requires AllDigits(ds)
    ensures [c] + Rep(c, Owed(Value(ds) % ALPHABET_SIZE)) == Rep(c, Copies(CountOf(ds)))
  {
  }

  /** Writing the owed copies completes the token, within the size of the whole output. */
  lemma TokenEnds(t: seq<Char>, j: nat, i: nat, c: Char, count: nat, parsing: bool, out: seq<Char>)
    requires Reading(t, j, i, c, count, parsing, out)
    requires i < |t| ==> !IsDigit(t[i])
    ensures out + Rep(c, Owed(count)) == Expand(Parse(t[..i]))
    ensures |out| + Owed(count) + (if i < |t| then 1 else 0) <= |Expand(Parse(t))|
  {
    hide RunLength.Parse, RunLength.Expand;
    ReadToken(t, j, i);
    ExpandSplit(t, i);
    OwedIsRest(c, t[j + 1..i]);
    Associative(Expand(Parse(t[..j])), [c], Rep(c, Owed(count)));
    assert |out + Rep(c, Owed(count))| == |out| + Owed(count);
  }

  lemma NextCharacter(t: seq<Char>, i: nat)
    requires StartsClean(t) && i < |t| && !IsDigit(t[i])
    ensures Reading(t, i, i + 1, t[i], 0, false, Expand(Parse(t[..i])) + [t[i]])
  {
    assert t[i + 1..i + 1] == [];
  }

  /** Decompression, for every input: see `Decode`. Nothing behind the decoded text is touched. */
  method Decompress(src: array<Char>, srcLen: nat, dst: array<Char>)
    requires src != dst && srcLen <= src.Length
    requires |Decode(src[..srcLen])| <= dst.Length
    modifies dst
    ensures Written(old(dst[..]), dst[..], 0, Decode(src[..srcLen]))
  {
    hide RunLength.Parse, RunLength.Expand, RunLength.Decode, RunLength.Canonical, Decimal.Value;
    hide Reading, Leading, Written;
    ghost var s, was := src[..srcLen], dst[..];
    ghost var t, j := s, 0;   // the string read as if, and where its last character is
    ghost var out := [];      // what has been written
    var count: U32 := 0;
    var pos: nat := 0;
    var lastChar: Char := 0;
    var parsing := false;
    NothingRead(s);
    WrittenNothing(was, 0);
    for i := 0 to srcLen
      invariant src[..srcLen] == s && 0 <= count < ALPHABET_SIZE
      invariant pos == |out| && Written(was, dst[..], 0, out)
      invariant pos == 0 ==> lastChar == 0 && Leading(s, i, count, parsing)
      invariant pos > 0 ==> |t| == |s| && StartsClean(t) && Decode(s) == Expand(Parse(t))
      invariant pos > 0 ==> Reading(t, j, i, lastChar, count, parsing, out)
      invariant pos > 0 ==> forall m :: i <= m < |s| ==> t[m] == s[m]
    {
      var c := src[i];
      assert c == s[i];
      if !IsDigit(c) {
        if pos > 0 {
          TokenEnds(t, j, i, lastChar, count, parsing, out);
          ghost var mid := dst[..];
          pos := PushDecompressed(dst, pos, lastChar, count);
          WrittenTwice(was, mid, dst[..], 0, out, Rep(lastChar, Owed(count)));
          out := out + Rep(lastChar, Owed(count));
          count := 0;
          parsing := false;
          NextCharacter(t, i);
          j := i;
        } else {
          FirstCharacter(s, i, count, parsing);
          assert out + [c] == [c];
          t, j := Canonical(s), 0;
        }
        lastChar := c;
        ghost var mid := dst[..];
        pos := PushChar(dst, pos, c);
        WrittenTwice(was, mid, dst[..], 0, out, [c]);
        out := out + [c];
      } else {
        if pos > 0 {
          NextDigit(t, j, i, lastChar, count, parsing, out);
        } else {
          LeadingDigit(s, i, count, parsing);
        }
        if !parsing {
          parsing := true;
          count := 0;
        } else {
          count := 10 * count;
        }
        count := (count + c - NUMBER_MIN) % ALPHABET_SIZE;
      }
    }
    if pos > 0 {
      TokenEnds(t, j, srcLen, lastChar, count, parsing, out);
      assert t[..srcLen] == t;
    } else {
      OnlyDigits(s, count, parsing);
    }
    ghost var mid := dst[..];
    var end := PushDecompressed(dst, pos, lastChar, count);
    WrittenTwice(was, mid, dst[..], 0, out, Rep(lastChar, Owed(count)));
    assert pos == 0 ==> out + Rep(0, Owed(count)) == Rep(0, Owed(count));
  }

  // ----- the key -----

  /** The scanner's state behind position `i` of the key: the shifts of everything before `a` are in
      `out`, and a digit run from `a` on is still being read. */
  ghost predicate Scanning(s: seq<Char>, a: nat, i: nat, count: nat, parsing: bool, out: seq<Char>) {
    && a <= i <= |s|
    && AllDigits(s[a..i]) && (a > 0 ==> !IsDigit(s[a - 1]))
    && parsing == (a < i)
    && (parsing ==> count == Value(s[a..i]) % ALPHABET_SIZE)
    && out == Shifts(s[..a])
  }

  /** What the unfinished digit run adds. */
  function Finished(count: Char, parsing: bool): seq<Char> {
    if parsing then [count] else []
  }

  lemma ScanDigit(s: seq<Char>, a: nat, i: nat, count: nat, parsing: bool, out: seq<Char>)
    requires Scanning(s, a, i, count, parsing, out) && i < |s| && IsDigit(s[i])
    ensures Scanning(s, a, i + 1, NextCount(count, parsing, s[i]), true, out)
  {
    HornerStep(s[a..i], s[i]);
    assert s[a..i + 1] == s[a..i] + [s[i]];
  }

  lemma ScanFinish(s: seq<Char>, a: nat, i: nat, count: Char, parsing: bool, out: seq<Char>)
    requires 0 <= count && Scanning(s, a, i, count, parsing, out)
    ensures out + Finished(count, parsing) == Shifts(s[..i])
    ensures |Shifts(s[..i])| <= i
  {
    hide Shifts, Value;
    var ds := s[a..i];
    assert s[..i] == s[..a] + ds;
    ShiftsLength(s[..i]);
    ShiftsConcat(s[..a], ds);
    if a < i {
      OneRun(ds);
    } else {
      NoShifts();
    }
  }

  lemma OneRun(ds: seq<Char>)
    requires ds != [] && AllDigits(ds)
    ensures Shifts(ds) == [Value(ds) % ALPHABET_SIZE]
  {
    ShiftsOfRun(ds, []);
    assert ds + [] == ds;
  }

  lemma ScanLetter(s: seq<Char>, i: nat, count: nat)
    requires i < |s| && !IsDigit(s[i])
    ensures Scanning(s, i + 1, i + 1, count, false, Shifts(s[..i]) + [LetterShift(s[i])])
  {
    assert s[..i + 1] == s[..i] + [s[i]];
    ShiftsConcat(s[..i], [s[i]]);
    assert Shifts([s[i]]) == [LetterShift(s[i])];
  }

  lemma ScanStart(s: seq<Char>)
    ensures Scanning(s, 0, 0, 0, false, [])
  {
  }

  method FinishPushNumber(res: array<Char>, pos: nat, value: Char, parsing: bool)
    returns (end: nat, stillParsing: bool)
    requires parsing ==> pos < res.Length
    requires pos <= res.Length
    modifies res
    ensures !stillParsing && end == pos + |Finished(value, parsing)|
    ensures Written(old(res[..]), res[..], pos, Finished(value, parsing))
  {
    end, stillParsing := pos, parsing;
    if parsing {
      end := PushChar(res, end, value);
      stillParsing := false;
    }
  }

  method PushShift(res: array<Char>, pos: nat, c: Char) returns (end: nat)
    requires pos < res.Length
    modifies res
    ensures end == pos + 1
    ensures Written(old(res[..]), res[..], pos, [LetterShift(c)])
  {
    if IsLower(c) {
      end := PushChar(res, pos, c - LOWER_MIN);
    } else {
      end := PushChar(res, pos, ToChar(c - UPPER_MIN));
    }
  }

  /** What stands in front once the shifts are written. */
  lemma NormalisedFront(s: seq<Char>, was: seq<Char>, now: seq<Char>)
    requires Written(was, now, 0, Shifts(s))
    ensures |Shifts(s)| <= |now| && Normalised(s, now[..|Shifts(s)|])
    ensures DigitFree(s) ==>
              && |Shifts(s)| == |s|
              && (forall i :: 0 <= i < |s| && IsLower(s[i]) ==> now[i] == s[i] - 97)
              && (forall i :: 0 <= i < |s| && IsUpper(s[i]) ==> now[i] == s[i] - 65)
  {
    hide Shifts, Normalised;
    assert now[..|Shifts(s)|] == Shifts(s);
    ShiftsNormalised(s);
    if DigitFree(s) {
      ShiftsOfLetters(s);
    }
  }

  /** Replaces the key by its shifts, in place: what is written never overtakes what is read. */
  method NormalizeKey(key: array<Char>, keyLen: nat) returns (len: nat)
    requires keyLen <= key.Length
    modifies key
    ensures len == |Shifts(old(key[..keyLen]))| <= keyLen
    ensures Written(old(key[..]), key[..], 0, Shifts(old(key[..keyLen])))
    ensures Normalised(old(key[..keyLen]), key[..len])
    ensures DigitFree(old(key[..keyLen])) ==>
              && len == keyLen
              && (forall i :: 0 <= i < keyLen && IsLower(old(key[i])) ==> key[i] == old(key[i]) - 97)
              && (forall i :: 0 <= i < keyLen && IsUpper(old(key[i])) ==> key[i] == old(key[i]) - 65)
  {
    hide Vigenere.Shifts, Decimal.Value, LetterShift, Scanning, Written, Normalised, DigitFree,
         IsLower, IsUpper;
    ghost var s, was := key[..keyLen], key[..];
    ghost var a := 0;     // where the unfinished digit run begins
    ghost var out := [];  // what has been written
    var count: U32 := 0;
    var j := 0;
    var parsing := false;
    ScanStart(s);
    WrittenNothing(was, 0);
    for i := 0 to keyLen
      invariant 0 <= count < ALPHABET_SIZE
      invariant Scanning(s, a, i, count, parsing, out)
      invariant j == |out| <= i && Written(was, key[..], 0, out)
    {
      WrittenBelow(was, key[..], 0, out, i);
      var c := key[i];
      assert c == key[..][i] == s[i];
      ScanFinish(s, a, i, count, parsing, out);
      if IsDigit(c) {
        ScanDigit(s, a, i, count, parsing, out);
        if parsing {
          count := 10 * count;
        } else {
          count := 0;
          parsing := true;
        }
        count := (count + c - NUMBER_MIN) % ALPHABET_SIZE;
      } else {
        ghost var mid := key[..];
        ghost var run := Finished(count, parsing);
        j, parsing := FinishPushNumber(key, j, count, parsing);
        WrittenTwice(was, mid, key[..], 0, out, run);
        out := out + run;
        mid := key[..];
        j := PushShift(key, j, c);
        WrittenTwice(was, mid, key[..], 0, out, [LetterShift(c)]);
        out := out + [LetterShift(c)];
        ScanLetter(s, i, count);
        a := i + 1;
      }
    }
    ScanFinish(s, a, keyLen, count, parsing, out);
    ghost var mid := key[..];
    ghost var run := Finished(count, parsing);
    j, parsing := FinishPushNumber(key, j, count, parsing);
    WrittenTwice(was, mid, key[..], 0, out, run);
    assert s[..keyLen] == s;
    len := j;
    NormalisedFront(s, was, key[..]);
  }

  // ----- the cipher -----

  /** One turn of the cipher loop. */
  method CipherChar(buffer: array<Char>, i: nat, shift: Char, mode: Mode)
    requires i < buffer.Length
    modifies buffer
    ensures buffer[i] == Shifted(old(buffer[i]), shift, mode)
    ensures forall m :: 0 <= m < buffer.Length && m != i ==> buffer[m] == old(buffer[m])
  {
    hide Chars.ToChar, Chars.CRem;
    var base: int := CharBase(buffer[i]);
    buffer[i] := ToChar(buffer[i] - base);
    if mode == Decipher {
      buffer[i] := ToChar(buffer[i] + (ALPHABET_SIZE - shift));
    } else {
      buffer[i] := ToChar(buffer[i] + shift);
    }
    buffer[i] := ToChar(CRem(buffer[i], ALPHABET_SIZE));
    buffer[i] := ToChar(buffer[i] + base);
  }

  /** Ciphers or deciphers the first `bufferLen` characters in place, with the key as it was before even
      if it lies in that buffer; a key longer than MAX_SIZE is refused with (uint32_t)-1. An empty key
      would make the C code divide by zero. */
  method RunCipher(buffer: array<Char>, bufferLen: nat, key: array<Char>, keyLen: nat, mode: Mode)
    returns (res: U32)
    requires bufferLen <= buffer.Length && keyLen <= key.Length
    requires bufferLen > 0 ==> keyLen > 0
    modifies buffer
    ensures res == if keyLen > MAX_SIZE then U32_LIMIT - 1 else 0
    ensures buffer[..bufferLen] == Ciphered(old(buffer[..bufferLen]), old(key[..keyLen]), mode)
    ensures buffer[bufferLen..] == old(buffer[bufferLen..])
    ensures keyLen > MAX_SIZE ==> buffer[..] == old(buffer[..])
    ensures 0 < keyLen <= MAX_SIZE && Alphanumeric(old(key[..keyLen])) ==>
              LettersMoved(old(buffer[..bufferLen]), buffer[..bufferLen], Shifts(old(key[..keyLen])), mode)
  {
    hide Vigenere.Shifts, Shifted, LettersMoved, Alphanumeric, Normalised;
    if keyLen > MAX_SIZE { return U32_LIMIT - 1; }
    var normKey := new Char[MAX_SIZE](_ => 0);
    CopyBytes(normKey, key, keyLen);
    var normKeyLen := NormalizeKey(normKey, keyLen);
    ghost var shifts := Shifts(key[..keyLen]);
    ShiftsLength(key[..keyLen]);
    assert forall m :: 0 <= m < normKeyLen ==> normKey[..][m] == shifts[m];

    var k := 0;
    for i := 0 to bufferLen
      invariant forall m :: 0 <= m < normKeyLen ==> normKey[m] == shifts[m]
      invariant bufferLen > 0 ==> k == i % normKeyLen
      invariant forall m :: 0 <= m < i ==> buffer[m] == Shifted(old(buffer[m]), shifts[m % |shifts|], mode)
      invariant forall m :: i <= m < buffer.Length ==> buffer[m] == old(buffer[m])
    {
      CipherChar(buffer, i, normKey[k], mode);
      CyclingIndex(i, normKeyLen);
      k := (k + 1) % normKeyLen;
    }
    CipherDone(old(buffer[..bufferLen]), old(key[..keyLen]), mode, buffer[..bufferLen]);
    return 0;
  }

  lemma CipherDone(text: seq<Char>, key: seq<Char>, mode: Mode, now: seq<Char>)
    requires (text == [] || key != []) && |key| <= MAX_SIZE && |now| == |text|
    requires text != [] ==> Shifts(key) != []
    requires forall m :: 0 <= m < |text| ==> now[m] == Shifted(text[m], Shifts(key)[m % |Shifts(key)|], mode)
    ensures now == Ciphered(text, key, mode)
    ensures key != [] && Alphanumeric(key) ==> LettersMoved(text, now, Shifts(key), mode)
  {
    hide Shifts, Shifted, Alphanumeric, LettersMoved;
    if key != [] && Alphanumeric(key) {
      CipherMoves(text, key, mode);
    }
  }

  /** Stepping the index modulo `n` keeps it equal to the position modulo `n`. */
  lemma CyclingIndex(i: nat, n: nat)
    requires n > 0
    ensures (i % n + 1) % n == (i + 1) % n
  {
    var q, r := Split(i, n);
    if r + 1 < n {
      Remainder(i + 1, n, q, r + 1);
      Remainder(r + 1, n, 0, r + 1);
    } else {
      Distribute(n, q, 1);
      Remainder(r + 1, n, 1, 0);
      Remainder(i + 1, n, q + 1, 0);
    }
  }
}
