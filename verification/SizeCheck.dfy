/** The second parser of the run-length format: the size reckoning of copy_paste_clipboard.c, in
    32-bit arithmetic. */
module SizeCheck {
  import opened Chars
  import opened Decimal
  import opened RunLength

  /** The running size once the count in `counter` has been closed at `pos`. */
  function Included(len: U32, counter: U32, pos: nat): U32 {
    (len + (if counter == 0 && pos > 0 then 1 else counter)) % U32_LIMIT
  }

  method IncludeChar(len: U32, counter: U32, pos: nat) returns (newLen: U32, newCounter: U32)
    ensures newCounter == 0 && newLen == Included(len, counter, pos)
  {
    if counter == 0 && pos > 0 {
      newLen, newCounter := (len + 1) % U32_LIMIT, counter;
    } else {
      newLen, newCounter := (len + counter) % U32_LIMIT, 0;
    }
  }

  /** What has been reckoned once the cursor is at `i`: the tokens before `j` are in `len`, the count
      of the token at `j` is still being read into `current`. Before the first character that is no
      digit there is no such token and `j` is -1. */
  ghost predicate Reckoning(s: seq<Char>, j: int, i: nat, len: U32, current: U32) {
    && i <= |s|
    && if j < 0 then
         j == -1 && AllDigits(s[..i]) && len == 0 && current == Value(s[..i]) % U32_LIMIT
       else
         && DigitRun(s) <= j < i && !IsDigit(s[j]) && AllDigits(s[j + 1..i])
         && len == Before(s, j) % U32_LIMIT
         && current == Value(s[j + 1..i]) % U32_LIMIT
  }

  /** The unbounded reckoning of everything in front of the character at `j`. */
  ghost function Before(s: seq<Char>, j: nat): nat
    requires DigitRun(s) <= j <= |s|
  {
    Lead(s) + ReckonedSum(Parse(s[DigitRun(s)..j]))
  }

  /** What the digits in front are reckoned as. */
  ghost function Lead(s: seq<Char>): nat {
    var k := DigitRun(s);
    if k == 0 then 0 else Reckoned(Value(s[..k]))
  }

  lemma ReckonStart(s: seq<Char>)
    ensures Reckoning(s, -1, 0, 0, 0)
  {
  }

  lemma ReckonDigit(s: seq<Char>, j: int, i: nat, len: U32, current: U32)
    requires Reckoning(s, j, i, len, current) && i < |s| && IsDigit(s[i])
    ensures Reckoning(s, j, i + 1, len, (10 * current + s[i] - NUMBER_MIN) % U32_LIMIT)
  {
    hide Before, DigitRun, Decimal.Value;
    var from := j + 1;
    assert s[from..i + 1] == s[from..i] + [s[i]];
    CountDigit(s[from..i], s[i], current);
  }

  lemma CountDigit(ds: seq<Char>, d: Char, current: U32)
    requires AllDigits(ds) && IsDigit(d) && current == Value(ds) % U32_LIMIT
    ensures AllDigits(ds + [d])
    ensures Value(ds + [d]) % U32_LIMIT == (10 * current + d - NUMBER_MIN) % U32_LIMIT
  {
    ValueSnoc(ds, d);
    ResidueStep(Value(ds), d - NUMBER_MIN, U32_LIMIT);
  }

  lemma ReckonLead(s: seq<Char>, i: nat)
    requires i <= |s| && AllDigits(s[..i]) && (i < |s| ==> !IsDigit(s[i]))
    ensures DigitRun(s) == i
    ensures Before(s, i) == if i == 0 then 0 else Reckoned(CountOf(s[..i]))
  {
    assert s == s[..i] + s[i..];
    DigitRunOf(s[..i], s[i..]);
    assert s[i..i] == [];
  }

  lemma Windows<T>(s: seq<T>, k: nat, j: nat, i: nat)
    requires k <= j < i <= |s|
    ensures var t := s[k..];
            && s[j + 1..i] == t[j - k + 1..i - k]
            && s[k..j] == t[..j - k] && s[k..i] == t[..i - k] && s[j] == t[j - k]
  {
  }

  lemma BeforeNext(s: seq<Char>, j: nat, i: nat)
    requires DigitRun(s) <= j < i <= |s| && !IsDigit(s[j]) && AllDigits(s[j + 1..i])
    ensures Before(s, i) == Before(s, j) + Reckoned(CountOf(s[j + 1..i]))
  {
    hide RunLength.Parse, RunLength.Expand, RunLength.ReckonedSum, Lead, Copies, Reckoned, CountOf,
         DigitRun, Decimal.Value, AllDigits;
    var k := DigitRun(s);
    var t := s[k..];
    Windows(s, k, j, i);
    ReadToken(t, j - k, i - k);
  }

  /** Adding what was read of a count to the running size, as `IncludeChar` does, adds what the count is
      reckoned as; only at the very start there is nothing to add. */
  lemma CloseCount(before: nat, ds: seq<Char>, len: U32, current: U32, i: nat)
    requires AllDigits(ds) && current == Value(ds) % U32_LIMIT && len == before % U32_LIMIT
    ensures Included(len, current, i)
            == (before + if i == 0 && current == 0 then 0 else Reckoned(CountOf(ds))) % U32_LIMIT
  {
    var added := if i == 0 && current == 0 then 0 else Reckoned(CountOf(ds));
    assert ds == [] ==> Value(ds) == 0;
    assert added == if current == 0 && i > 0 then 1 else current;
    ResidueSum(before, added, U32_LIMIT);
  }

  /** Closing a token adds what its count is reckoned as, which is at least one. */
  lemma ReckonToken(s: seq<Char>, j: int, i: nat, len: U32, current: U32)
    requires Reckoning(s, j, i, len, current)
    requires i < |s| ==> !IsDigit(s[i])
    ensures DigitRun(s) <= i
    ensures Included(len, current, i) == Before(s, i) % U32_LIMIT
  {
    hide Before, Reckoned, CountOf, Decimal.Value, DigitRun, Included;
    if j < 0 {
      ReckonLead(s, i);
      CloseCount(0, s[..i], len, current, i);
      NothingCounted();
    } else {
      BeforeNext(s, j, i);
      CloseCount(Before(s, j), s[j + 1..i], len, current, i);
    }
  }

  lemma NothingCounted()
    ensures Value([]) == 0 && CountOf([]) == 1
  {
  }

  lemma ReckonNext(s: seq<Char>, i: nat, len: U32)
    requires i < |s| && !IsDigit(s[i]) && DigitRun(s) <= i
    requires len == Before(s, i) % U32_LIMIT
    ensures Reckoning(s, i, i + 1, len, 0)
  {
    hide Before, DigitRun;
    assert s[i + 1..i + 1] == [];
  }

  /** Reckons the decompressed size of every string, wrapping at 32 bits: see `ExpectedSize`. */
  method ExpectedDecompressedSize(buffer: array<Char>, bufferLen: nat) returns (len: U32)
    requires bufferLen <= buffer.Length
    ensures len == ExpectedSize(buffer[..bufferLen])
  {
    hide Reckoning, Before;
    ghost var s := buffer[..bufferLen];
    ghost var j := -1;
    var current: U32 := 0;
    len := 0;
    ReckonStart(s);
    for pos := 0 to bufferLen
      invariant Reckoning(s, j, pos, len, current)
    {
      var c := buffer[pos];
      assert c == s[pos];
      if !IsDigit(c) {
        ReckonToken(s, j, pos, len, current);
        len, current := IncludeChar(len, current, pos);
        ReckonNext(s, pos, len);
        j := pos;
      } else {
        ReckonDigit(s, j, pos, len, current);
        current := (10 * current + c - NUMBER_MIN) % U32_LIMIT;
      }
    }
    ReckonToken(s, j, bufferLen, len, current);
    len, current := IncludeChar(len, current, bufferLen);
    WholeReckoning(s);
  }

  lemma WholeReckoning(s: seq<Char>)
    ensures Before(s, |s|) % U32_LIMIT == ExpectedSize(s)
  {
    assert s[DigitRun(s)..|s|] == s[DigitRun(s)..];
  }

  // ----- where the size check falls short -----

  /** "3a2": the leading digit joins the count of the first character when decompressing, giving six
      characters, while the reckoning announces five. */
  lemma LeadingDigitWitness()
    ensures var s: seq<Char> := [51, LOWER_MIN, 50];
            && Announced(s) < U32_LIMIT && !AllDigits(s) && Short(PartsOf(s))
            && |Decode(s)| == 6 && ExpectedSize(s) == 5
  {
    hide RunLength.Decode, RunLength.ExpectedSize, RunLength.Announced, PartsOf, Short, Value, AtLeastOne, CountOf;
    var s: seq<Char> := [51, LOWER_MIN, 50];
    var p := Parts([51], LOWER_MIN, [50], []);
    assert AreParts(s, p);
    DecodeOfParts(s, p);
    AnnouncedOfParts(s, p);
    JoinedThreeTwo();
    ExpectedSizeExact(s);
    SizeCheckConservative(s);
  }

  lemma JoinedThreeTwo()
    ensures var d: seq<Char> := [51] + [50];
            AllDigits(d) && CountOf(d) == 32 && AtLeastOne(Value([51])) == 3 && AtLeastOne(CountOf([50])) == 2
  {
    assert ([51] + [50])[..1] == [51];
    assert Value([51]) == 3 && Value([50]) == 2;
  }

  /** Counts that each fit in 32 bits can still wrap in the sum: "a4294967295b2" decompresses to 23
      characters and is announced as one. */
  lemma WrappedSumWitness()
    ensures var ts := [Token(LOWER_MIN, 4294967295), Token(LOWER_MIN + 1, 2)];
            var s := Print(ts);
            StartsClean(s) && Parse(s) == ts && |Decode(s)| == 23 && ExpectedSize(s) == 1
  {
    hide RunLength.Parse, RunLength.Print, RunLength.Decode, RunLength.Canonical, RunLength.Expand,
         RunLength.ReckonedSum, RunLength.ExpectedSize;
    var ts := [Token(LOWER_MIN, 4294967295), Token(LOWER_MIN + 1, 2)];
    var s := Print(ts);
    ParsePrint(ts);
    DecodeClean(s);
    assert ts == [ts[0]] + [ts[1]];
    ExpandConcat([ts[0]], [ts[1]]);
    ExpandOne(ts[0]);
    ExpandOne(ts[1]);
    ReckonedOne(ts[0]);
    ReckonedOne(ts[1]);
    ExpectedClean(s);
  }

  lemma ReckonedOne(t: Token)
    ensures ReckonedSum([t]) == Reckoned(t.n)
  {
    assert [t][1..] == [];
  }
}
