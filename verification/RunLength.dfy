/** The run-length format of `compress` and `decompress`, seen as printing and parsing a list of
    tokens: a character with the number of times it occurs. */
module RunLength {
  import opened Chars
  import opened Decimal

  datatype Token = Token(c: Char, n: nat)

  // ----- runs of a text -----

  /** Length of the maximal run `s` starts with. */
  function RunLength(s: seq<Char>): (r: nat)
    requires s != []
    ensures 1 <= r <= |s|
    ensures s[..r] == Rep(s[0], r)
    ensures r < |s| ==> s[r] != s[0]
  {
    if |s| == 1 || s[1] != s[0] then 1 else 1 + RunLength(s[1..])
  }

  /** The maximal runs of a text, in order. */
  function Runs(s: seq<Char>): (ts: seq<Token>)
    ensures forall i :: 0 <= i < |ts| ==> ts[i].n > 0
  {
    if s == [] then [] else [Token(s[0], RunLength(s))] + Runs(s[RunLength(s)..])
  }

  /** The text a token list stands for when every count is honoured. */
  function Flatten(ts: seq<Token>): seq<Char> {
    if ts == [] then [] else Rep(ts[0].c, ts[0].n) + Flatten(ts[1..])
  }

  // ----- printing -----

  /** A run is its character followed by its length, unless the length is one. */
  function Show(t: Token): seq<Char>
    requires t.n > 0
  {
    if t.n == 1 then [t.c] else [t.c] + Digits(t.n)
  }

  function Print(ts: seq<Token>): seq<Char>
    requires forall i :: 0 <= i < |ts| ==> ts[i].n > 0
  {
    if ts == [] then [] else Show(ts[0]) + Print(ts[1..])
  }

  /** The run-length encoding of a text. */
  function Encode(s: seq<Char>): seq<Char> {
    Print(Runs(s))
  }

  // ----- parsing -----

  /** How many digits `s` starts with. */
  function DigitRun(s: seq<Char>): (k: nat)
    ensures k <= |s| && AllDigits(s[..k])
    ensures k < |s| ==> !IsDigit(s[k])
  {
    if s == [] || !IsDigit(s[0]) then 0 else 1 + DigitRun(s[1..])
  }

  predicate StartsClean(s: seq<Char>) {
    s == [] || !IsDigit(s[0])
  }

  /** A missing count means one. */
  function CountOf(ds: seq<Char>): nat
    requires AllDigits(ds)
  {
    if ds == [] then 1 else Value(ds)
  }

  /** The tokens of a string that does not start with a digit. */
  function Parse(s: seq<Char>): (ts: seq<Token>)
    requires StartsClean(s)
    ensures forall i :: 0 <= i < |ts| ==> !IsDigit(ts[i].c)
  {
    if s == [] then [] else
    var k := DigitRun(s[1..]);
    assert s[1..1 + k] == s[1..][..k];
    [Token(s[0], CountOf(s[1..1 + k]))] + Parse(s[1 + k..])
  }

  // ----- what the two readers make of a token -----

  /** Characters `decompress` writes for a count: the count modulo 26, but at least one. */
  function Copies(n: nat): nat {
    if n % ALPHABET_SIZE == 0 then 1 else n % ALPHABET_SIZE
  }

  function Expand(ts: seq<Token>): seq<Char> {
    if ts == [] then [] else Rep(ts[0].c, Copies(ts[0].n)) + Expand(ts[1..])
  }

  function AtLeastOne(n: nat): nat {
    if n == 0 then 1 else n
  }

  /** The unbounded length of the text the tokens announce; a zero count still writes its character. */
  function Total(ts: seq<Token>): nat {
    if ts == [] then 0 else AtLeastOne(ts[0].n) + Total(ts[1..])
  }

  /** Characters the size check reckons for a count held in 32 bits. */
  function Reckoned(n: nat): nat {
    if n % U32_LIMIT == 0 then 1 else n % U32_LIMIT
  }

  function ReckonedSum(ts: seq<Token>): nat {
    if ts == [] then 0 else Reckoned(ts[0].n) + ReckonedSum(ts[1..])
  }

  /** `decompress` lets digits in front of the first other character join that character's count. */
  function Canonical(s: seq<Char>): (t: seq<Char>)
    requires !AllDigits(s)
    ensures |t| == |s| && StartsClean(t) && t != []
  {
    var k := DigitRun(s);
    assert k < |s|;
    [s[k]] + s[..k] + s[k + 1..]
  }

  /** What `decompress` writes, for every input. Without any character to repeat it writes NULs. */
  function Decode(s: seq<Char>): seq<Char> {
    if AllDigits(s) then Rep(0, Copies(Value(s)) - 1) else Expand(Parse(Canonical(s)))
  }

  /** What `expected_decompressed_size` returns, for every input: digits in front of the first
      other character count as a token of their own. */
  function ExpectedSize(s: seq<Char>): U32 {
    var k := DigitRun(s);
    ((if k == 0 then 0 else Reckoned(Value(s[..k]))) + ReckonedSum(Parse(s[k..]))) % U32_LIMIT
  }

  // ----- the format is a faithful notation for token lists -----

  lemma FirstRun(s: seq<Char>) returns (n: nat, rest: seq<Char>)
    requires s != []
    ensures 0 < n && |rest| < |s| && s == Rep(s[0], n) + rest
    ensures rest == [] || rest[0] != s[0]
    ensures Runs(s) == [Token(s[0], n)] + Runs(rest)
    ensures s[|s| - 1] == if rest == [] then s[0] else rest[|rest| - 1]
  {
    hide Runs;
    n := RunLength(s);
    rest := s[n..];
    CutFront(s, n);
    RunsFirst(s);
  }

  lemma RunsFirst(s: seq<Char>)
    requires s != []
    ensures Runs(s) == [Token(s[0], RunLength(s))] + Runs(s[RunLength(s)..])
  {
    hide RunLength;
  }

  lemma CutFront<T>(s: seq<T>, n: nat)
    requires 0 < n <= |s|
    ensures s == s[..n] + s[n..]
    ensures s[|s| - 1] == if n == |s| then s[..n][n - 1] else s[n..][|s| - n - 1]
  {
  }

  lemma FlattenCons(t: Token, ts: seq<Token>)
    ensures Flatten([t] + ts) == Rep(t.c, t.n) + Flatten(ts)
  {
    assert ([t] + ts)[1..] == ts;
  }

  lemma {:induction false} FlattenRuns(s: seq<Char>)
    ensures Flatten(Runs(s)) == s
    decreases |s|
  {
    if s == [] {
    } else {
      var n, rest := FirstRun(s);
      FlattenRuns(rest);
      FlattenCons(Token(s[0], n), Runs(rest));
    }
  }

  lemma {:induction false} DigitRunOf(ds: seq<Char>, rest: seq<Char>)
    requires AllDigits(ds) && StartsClean(rest)
    ensures DigitRun(ds + rest) == |ds|
  {
    if ds == [] {
      assert ds + rest == rest;
    } else {
      assert (ds + rest)[1..] == ds[1..] + rest;
      DigitRunOf(ds[1..], rest);
    }
  }

  lemma TokenSlices<T>(c: T, ds: seq<T>, rest: seq<T>)
    ensures var s := [c] + ds + rest;
            && s != [] && s[0] == c
            && s[1..] == ds + rest && s[1..1 + |ds|] == ds && s[1 + |ds|..] == rest
  {
  }

  lemma ParseToken(c: Char, ds: seq<Char>, rest: seq<Char>)
    requires !IsDigit(c) && AllDigits(ds) && StartsClean(rest)
    ensures Parse([c] + ds + rest) == [Token(c, CountOf(ds))] + Parse(rest)
  {
    hide CountOf, Value, DigitRun, AllDigits;
    TokenSlices(c, ds, rest);
    DigitRunOf(ds, rest);
  }

  lemma FirstToken(s: seq<Char>) returns (ds: seq<Char>, rest: seq<Char>)
    requires s != [] && StartsClean(s)
    ensures AllDigits(ds) && StartsClean(rest) && |rest| < |s|
    ensures s == [s[0]] + ds + rest
    ensures Parse(s) == [Token(s[0], CountOf(ds))] + Parse(rest)
  {
    var k := DigitRun(s[1..]);
    ds, rest := s[1..1 + k], s[1 + k..];
    assert ds == s[1..][..k];
  }

  lemma Associative<T>(a: seq<T>, b: seq<T>, c: seq<T>)
    ensures a + b + c == a + (b + c)
  {
  }

  /** Parsing distributes over concatenation at a character boundary. */
  lemma {:induction false} ParseConcat(p: seq<Char>, q: seq<Char>)
    requires StartsClean(p) && StartsClean(q)
    ensures StartsClean(p + q)
    ensures Parse(p + q) == Parse(p) + Parse(q)
    decreases |p|
  {
    if p == [] {
      assert p + q == q;
    } else {
      var ds, rest := FirstToken(p);
      ParseConcat(rest, q);
      Associative([p[0]] + ds, rest, q);
      ParseToken(p[0], ds, rest + q);
      Associative([Token(p[0], CountOf(ds))], Parse(rest), Parse(q));
    }
  }

  lemma ParseShow(t: Token, rest: seq<Char>)
    requires t.n > 0 && !IsDigit(t.c) && StartsClean(rest)
    ensures Parse(Show(t) + rest) == [t] + Parse(rest)
  {
    var ds := if t.n == 1 then [] else Digits(t.n);
    ValueOfDigits(t.n);
    assert Show(t) == [t.c] + ds;
    ParseToken(t.c, ds, rest);
  }

  /** Parsing undoes printing. */
  lemma {:induction false} ParsePrint(ts: seq<Token>)
    requires forall i :: 0 <= i < |ts| ==> ts[i].n > 0 && !IsDigit(ts[i].c)
    ensures StartsClean(Print(ts)) && Parse(Print(ts)) == ts
  {
    if ts == [] {
    } else {
      ParsePrint(ts[1..]);
      ParseShow(ts[0], Print(ts[1..]));
    }
  }

  lemma {:induction false} RunsDigitFree(s: seq<Char>)
    requires DigitFree(s)
    ensures forall i :: 0 <= i < |Runs(s)| ==> !IsDigit(Runs(s)[i].c)
  {
    if s == [] {
    } else {
      RunsDigitFree(s[RunLength(s)..]);
    }
  }

  /** On digit-free text the encoding parses back to the runs, so nothing is lost by `compress`. */
  lemma ParseEncode(s: seq<Char>)
    requires DigitFree(s)
    ensures StartsClean(Encode(s)) && Parse(Encode(s)) == Runs(s)
    ensures Flatten(Parse(Encode(s))) == s
  {
    RunsDigitFree(s);
    ParsePrint(Runs(s));
    FlattenRuns(s);
  }

  // ----- encoding in place: boundaries and lengths -----

  lemma {:induction false} RunOfRep(c: Char, n: nat, rest: seq<Char>)
    requires n > 0 && (rest == [] || rest[0] != c)
    ensures RunLength(Rep(c, n) + rest) == n
  {
    var s := Rep(c, n) + rest;
    var r := RunLength(s);
    assert r < |s| ==> s[r] != c;
    assert forall i :: 0 <= i < r ==> s[..r][i] == s[i];
    assert n < |s| ==> s[n] == rest[0];
  }

  lemma RunsOfRep(c: Char, n: nat, rest: seq<Char>)
    requires n > 0 && (rest == [] || rest[0] != c)
    ensures Runs(Rep(c, n) + rest) == [Token(c, n)] + Runs(rest)
  {
    RunOfRep(c, n, rest);
    assert (Rep(c, n) + rest)[n..] == rest;
  }

  /** Where two neighbouring characters differ, the runs of the two sides are independent. */
  lemma {:induction false} RunsConcat(p: seq<Char>, q: seq<Char>)
    requires p == [] || q == [] || p[|p| - 1] != q[0]
    ensures Runs(p + q) == Runs(p) + Runs(q)
    decreases |p|
  {
    if p == [] {
      assert p + q == q;
    } else {
      var n, rest := FirstRun(p);
      RunsConcat(rest, q);
      Associative(Rep(p[0], n), rest, q);
      RunsOfRep(p[0], n, rest + q);
      Associative([Token(p[0], n)], Runs(rest), Runs(q));
    }
  }

  lemma {:induction false} PrintConcat(a: seq<Token>, b: seq<Token>)
    requires forall i :: 0 <= i < |a| ==> a[i].n > 0
    requires forall i :: 0 <= i < |b| ==> b[i].n > 0
    ensures Print(a + b) == Print(a) + Print(b)
    decreases |a|
  {
    if a == [] {
      assert a + b == b;
    } else {
      assert (a + b)[1..] == a[1..] + b;
      PrintConcat(a[1..], b);
    }
  }

  lemma EncodeConcat(p: seq<Char>, q: seq<Char>)
    requires p == [] || q == [] || p[|p| - 1] != q[0]
    ensures Encode(p + q) == Encode(p) + Encode(q)
  {
    RunsConcat(p, q);
    PrintConcat(Runs(p), Runs(q));
  }

  lemma EncodeRep(c: Char, n: nat)
    requires n > 0
    ensures Encode(Rep(c, n)) == Show(Token(c, n))
  {
    RunsOfRep(c, n, []);
    assert Rep(c, n) + [] == Rep(c, n);
    assert Print([Token(c, n)]) == Show(Token(c, n)) + Print([]);
  }

  /** Text in which no two neighbours are equal is its own encoding. */
  lemma {:induction false} DistinctNeighbours(s: seq<Char>)
    requires forall i :: 0 < i < |s| ==> s[i - 1] != s[i]
    ensures Encode(s) == s
    decreases |s|
  {
    if s == [] {
    } else {
      var rest := s[1..];
      assert s == [s[0]] + rest;
      DistinctNeighbours(rest);
      EncodeConcat([s[0]], rest);
      assert Rep(s[0], 1) == [s[0]];
      EncodeRep(s[0], 1);
    }
  }

  lemma ShowShort(t: Token)
    requires t.n > 0
    ensures 1 <= |Show(t)| <= t.n
  {
    if t.n > 1 {
      DigitsShort(t.n);
    }
  }

  /** The encoding of any text, digits included, is no longer than the text. */
  lemma {:induction false} EncodeShort(s: seq<Char>)
    ensures |Encode(s)| <= |s|
    ensures s != [] ==> Encode(s) != []
  {
    if s == [] {
    } else {
      var n := RunLength(s);
      ShowShort(Token(s[0], n));
      EncodeShort(s[n..]);
      assert Runs(s)[1..] == Runs(s[n..]);
    }
  }

  // ----- the encoding, told without its definition -----

  /** Every maximal run is written as its character, followed by the plain decimal number of its length
      if that is two or more. With `EncodeConcat` this determines the encoding of every text. */
  lemma EncodedRun(c: Char, n: nat)
    ensures Encode(Rep(c, n)) == if n == 0 then [] else if n == 1 then [c] else [c] + Numeral(n)
  {
    if n == 0 {
      assert Rep(c, n) == [];
    } else {
      EncodeRep(c, n);
    }
  }

  /** No string that reads as the runs of a digit-free text is shorter than its encoding. */
  lemma {:induction false} EncodeShortest(s: seq<Char>, t: seq<Char>)
    requires StartsClean(t) && Parse(t) == Runs(s)
    ensures |Encode(s)| <= |t|
    decreases |s|
  {
    hide Value, DigitRun, CountOf, Show, RunLength;
    if s == [] {
    } else {
      var n, later := FirstRun(s);
      assert t != [] by { NothingParsed(); }
      var ds, rest := FirstToken(t);
      SameHead(Token(s[0], n), Runs(later), Token(t[0], CountOf(ds)), Parse(rest));
      EncodeShortest(later, rest);
      ShowShortest(s[0], ds);
      assert Runs(s)[1..] == Runs(later);
    }
  }

  lemma SameHead<T>(a: T, s: seq<T>, b: T, t: seq<T>)
    requires [a] + s == [b] + t
    ensures a == b && s == t
  {
    assert ([a] + s)[0] == a && ([b] + t)[0] == b;
    assert ([a] + s)[1..] == s && ([b] + t)[1..] == t;
  }

  lemma ShowShortest(c: Char, ds: seq<Char>)
    requires AllDigits(ds) && CountOf(ds) > 0
    ensures |Show(Token(c, CountOf(ds)))| <= 1 + |ds|
  {
    DigitsShortest(ds);
  }

  lemma EncodedShortRun(c: Char, s: seq<Char>)
    requires 1 <= |s| < 10 && forall i :: 0 <= i < |s| ==> s[i] == c
    ensures Encode(s) == if |s| == 1 then [c] else [c, NUMBER_MIN + |s|]
  {
    hide Encode;
    assert s == Rep(c, |s|);
    EncodedRun(c, |s|);
    OneDigit(|s|);
  }

  /** "zzZmwww" compresses to "z2Zmw3". */
  lemma EncodeInstance()
    ensures Encode(Text("zzZmwww")) == Text("z2Zmw3")
  {
    hide Encode;
    var zz, bigZ, m, www: seq<Char> := [122, 122], [90], [109], [119, 119, 119];
    assert Text("zzZmwww") == zz + (bigZ + (m + www));
    EncodedShortRun(122, zz);
    EncodedShortRun(90, bigZ);
    EncodedShortRun(109, m);
    EncodedShortRun(119, www);
    EncodeConcat(zz, bigZ + (m + www));
    EncodeConcat(bigZ, m + www);
    EncodeConcat(m, www);
  }

  lemma OneDigit(n: nat)
    requires 0 < n < 10
    ensures Numeral(n) == [NUMBER_MIN + n]
  {
    assert Digits(n / 10) == [];
  }

  // ----- reading: expansion and sizes -----

  lemma {:induction false} ExpandConcat(a: seq<Token>, b: seq<Token>)
    ensures Expand(a + b) == Expand(a) + Expand(b)
    ensures ReckonedSum(a + b) == ReckonedSum(a) + ReckonedSum(b)
    decreases |a|
  {
    if a == [] {
      assert a + b == b;
    } else {
      assert (a + b)[1..] == a[1..] + b;
      ExpandConcat(a[1..], b);
    }
  }

  /** Reading one more token of `t`: the character at `j` with the digits up to `i`. */
  lemma ReadToken(t: seq<Char>, j: nat, i: nat)
    requires StartsClean(t) && j < i <= |t|
    requires !IsDigit(t[j]) && AllDigits(t[j + 1..i])
    ensures Expand(Parse(t[..i])) == Expand(Parse(t[..j])) + Rep(t[j], Copies(CountOf(t[j + 1..i])))
    ensures ReckonedSum(Parse(t[..i])) == ReckonedSum(Parse(t[..j])) + Reckoned(CountOf(t[j + 1..i]))
  {
    var ds := t[j + 1..i];
    assert t[..i] == t[..j] + ([t[j]] + ds + []);
    ParseToken(t[j], ds, []);
    ParseConcat(t[..j], [t[j]] + ds + []);
    var one := [Token(t[j], CountOf(ds))];
    assert Parse([t[j]] + ds + []) == one;
    assert one[1..] == [];
    assert Expand(one) == Rep(t[j], Copies(CountOf(ds)));
    ExpandConcat(Parse(t[..j]), one);
  }

  /** Cutting a string in front of a character cuts its expansion. */
  lemma ExpandSplit(t: seq<Char>, i: nat)
    requires StartsClean(t) && i <= |t| && StartsClean(t[i..])
    ensures Expand(Parse(t)) == Expand(Parse(t[..i])) + Expand(Parse(t[i..]))
    ensures ReckonedSum(Parse(t)) == ReckonedSum(Parse(t[..i])) + ReckonedSum(Parse(t[i..]))
    ensures i < |t| ==> |Expand(Parse(t[i..]))| > 0
  {
    assert t == t[..i] + t[i..];
    ParseConcat(t[..i], t[i..]);
    ExpandConcat(Parse(t[..i]), Parse(t[i..]));
  }

  lemma DecodeClean(s: seq<Char>)
    requires StartsClean(s)
    ensures Decode(s) == Expand(Parse(s))
  {
    if s != [] {
      assert !AllDigits(s) by { assert !IsDigit(s[0]); }
      assert Canonical(s) == s;
    }
  }

  lemma {:induction false} ExpandCharacters(ts: seq<Token>, c: Char)
    requires c in Expand(ts)
    ensures exists i :: 0 <= i < |ts| && ts[i].c == c
  {
    if c in Expand(ts[1..]) {
      ExpandCharacters(ts[1..], c);
      var i :| 0 <= i < |ts[1..]| && ts[1..][i].c == c;
      assert ts[i + 1].c == c;
    } else {
      assert c in Rep(ts[0].c, Copies(ts[0].n));
    }
  }

  /** `decompress` never writes a digit, whatever it is given. */
  lemma DecodeDigitFree(s: seq<Char>)
    ensures DigitFree(Decode(s))
  {
    if !AllDigits(s) {
      var ts := Parse(Canonical(s));
      forall i | 0 <= i < |Expand(ts)|
        ensures !IsDigit(Expand(ts)[i])
      {
        ExpandCharacters(ts, Expand(ts)[i]);
      }
    }
  }

  predicate CountsSmall(ts: seq<Token>) {
    forall i :: 0 <= i < |ts| ==> ts[i].n < ALPHABET_SIZE
  }

  lemma {:induction false} ExpandAgainstTotal(ts: seq<Token>)
    ensures |Expand(ts)| <= Total(ts)
    ensures |Expand(ts)| == Total(ts) <==> CountsSmall(ts)
  {
    if ts == [] {
    } else {
      ExpandAgainstTotal(ts[1..]);
      var n := ts[0].n;
      assert n % 26 <= n && (n % 26 == n <==> n < 26);
      assert ts == [ts[0]] + ts[1..];
      SmallCountsCons(ts[0], ts[1..]);
    }
  }

  lemma {:induction false} TotalOfRuns(ts: seq<Token>)
    requires forall i :: 0 <= i < |ts| ==> ts[i].n > 0
    ensures Total(ts) == |Flatten(ts)|
  {
    if ts == [] {
    } else {
      TotalOfRuns(ts[1..]);
    }
  }

  lemma {:induction false} SmallCountsExpand(ts: seq<Token>)
    requires forall i :: 0 <= i < |ts| ==> ts[i].n > 0
    requires CountsSmall(ts)
    ensures Expand(ts) == Flatten(ts)
  {
    if ts == [] {
    } else {
      assert Copies(ts[0].n) == ts[0].n;
      SmallCountsExpand(ts[1..]);
    }
  }

  // ----- decompression and size, told without their definitions -----

  /** A character with a count is written that often modulo 26, but at least once; without a count it
      is written once. */
  lemma DecodedToken(c: Char, ds: seq<Char>)
    requires !IsDigit(c) && AllDigits(ds)
    ensures Decode([c] + ds) == if ds == [] || Value(ds) % 26 == 0 then [c] else Rep(c, Value(ds) % 26)
  {
    hide Value;
    DecodeClean([c] + ds);
    ParseToken(c, ds, []);
    assert [c] + ds + [] == [c] + ds;
    ExpandOne(Token(c, CountOf(ds)));
    assert Rep(c, 1) == [c];
  }

  /** Strings starting with a non-digit decompress piece by piece. With `DecodedToken` this determines
      what is written for each of them. */
  lemma DecodeConcat(p: seq<Char>, q: seq<Char>)
    requires StartsClean(p) && StartsClean(q)
    ensures StartsClean(p + q) && Decode(p + q) == Decode(p) + Decode(q)
  {
    hide Parse, Expand, Decode;
    ParseConcat(p, q);
    ExpandConcat(Parse(p), Parse(q));
    DecodeClean(p);
    DecodeClean(q);
    DecodeClean(p + q);
  }

  /** Digits in front join the count of the first character. */
  lemma DecodedLead(lead: seq<Char>, c: Char, rest: seq<Char>)
    requires AllDigits(lead) && !IsDigit(c)
    ensures Decode(lead + [c] + rest) == Decode([c] + lead + rest)
  {
    hide Parse, Expand;
    var s := lead + [c] + rest;
    assert s == lead + ([c] + rest);
    DigitRunOf(lead, [c] + rest);
    assert s[|lead|] == c && s[..|lead|] == lead && s[|lead| + 1..] == rest;
    assert Canonical(s) == [c] + lead + rest;
    DecodeClean([c] + lead + rest);
  }

  /** Digits alone write NULs, one fewer than they count modulo 26. */
  lemma DecodedDigits(ds: seq<Char>)
    requires AllDigits(ds)
    ensures Decode(ds) == Rep(0, if Value(ds) % 26 == 0 then 0 else Value(ds) % 26 - 1)
  {
  }

  lemma ExpandOne(t: Token)
    ensures Expand([t]) == Rep(t.c, Copies(t.n))
  {
    assert [t][1..] == [];
    assert Rep(t.c, Copies(t.n)) + [] == Rep(t.c, Copies(t.n));
  }

  // ----- the round trip, exactly -----

  /** Twenty-six equal characters in a row, starting at `i`. */
  predicate LongRunAt(s: seq<Char>, i: nat) {
    i + ALPHABET_SIZE <= |s| && forall j :: i <= j < i + ALPHABET_SIZE ==> s[j] == s[i]
  }

  predicate NoLongRun(s: seq<Char>) {
    forall i :: 0 <= i < |s| ==> !LongRunAt(s, i)
  }

  lemma LongRunShift(p: seq<Char>, q: seq<Char>, i: nat)
    ensures LongRunAt(p + q, |p| + i) <==> LongRunAt(q, i)
  {
    var s := p + q;
    assert forall j :: 0 <= j < |q| ==> s[|p| + j] == q[j];
    if LongRunAt(s, |p| + i) {
      assert forall j :: i <= j < i + ALPHABET_SIZE ==> q[j] == s[|p| + j];
    }
    if LongRunAt(q, i) {
      assert forall j :: |p| + i <= j < |p| + i + ALPHABET_SIZE ==> s[j] == q[j - |p|];
    }
  }

  lemma NoLongRunSplit(c: Char, n: nat, rest: seq<Char>)
    requires n > 0 && (rest == [] || rest[0] != c)
    ensures NoLongRun(Rep(c, n) + rest) <==> n < ALPHABET_SIZE && NoLongRun(rest)
  {
    var s := Rep(c, n) + rest;
    if n >= ALPHABET_SIZE {
      assert LongRunAt(s, 0);
    } else {
      forall i | 0 <= i < n
        ensures !LongRunAt(s, i)
      {
        assert n < |s| ==> s[n] != s[i];
      }
      forall i | 0 <= i < |rest|
        ensures LongRunAt(rest, i) <==> LongRunAt(s, n + i)
      {
        LongRunShift(Rep(c, n), rest, i);
      }
      if NoLongRun(rest) {
        forall i | n <= i < |s|
          ensures !LongRunAt(s, i)
        {
          assert !LongRunAt(rest, i - n);
        }
      }
    }
  }

  lemma {:induction false} NoLongRunMeansSmallCounts(s: seq<Char>)
    ensures NoLongRun(s) <==> CountsSmall(Runs(s))
    decreases |s|
  {
    if s == [] {
    } else {
      var n, rest := FirstRun(s);
      NoLongRunMeansSmallCounts(rest);
      NoLongRunSplit(s[0], n, rest);
      SmallCountsCons(Token(s[0], n), Runs(rest));
    }
  }

  lemma SmallCountsCons(t: Token, ts: seq<Token>)
    ensures CountsSmall([t] + ts) <==> t.n < ALPHABET_SIZE && CountsSmall(ts)
  {
    assert forall i :: 0 <= i < |ts| ==> ([t] + ts)[i + 1] == ts[i];
    assert ([t] + ts)[0] == t;
  }

  /** On digit-free text `decompress` gives back every run shortened to its length modulo 26. */
  lemma DecodeEncode(s: seq<Char>)
    requires DigitFree(s)
    ensures Decode(Encode(s)) == Expand(Runs(s))
    ensures |Decode(Encode(s))| <= |s|
    ensures |Decode(Encode(s))| == |s| <==> NoLongRun(s)
    ensures Decode(Encode(s)) == s <==> NoLongRun(s)
  {
    ParseEncode(s);
    DecodeClean(Encode(s));
    FlattenRuns(s);
    TotalOfRuns(Runs(s));
    ExpandAgainstTotal(Runs(s));
    NoLongRunMeansSmallCounts(s);
    if NoLongRun(s) {
      SmallCountsExpand(Runs(s));
    }
  }

  /** Decompression undoes compression exactly on digit-free text without a run of 26 or more. */
  lemma RoundTripExactly(s: seq<Char>)
    ensures Decode(Encode(s)) == s <==> DigitFree(s) && NoLongRun(s)
  {
    if DigitFree(s) {
      DecodeEncode(s);
    } else {
      DecodeDigitFree(Encode(s));
    }
  }

  // ----- the size check -----

  lemma {:induction false} ReckonedAgainstTotal(ts: seq<Token>)
    ensures ReckonedSum(ts) <= Total(ts)
    ensures Total(ts) < U32_LIMIT ==> ReckonedSum(ts) == Total(ts)
  {
    if ts == [] {
    } else {
      ReckonedAgainstTotal(ts[1..]);
      var n := ts[0].n;
      if n >= U32_LIMIT {
        assert n % U32_LIMIT < n;
      }
    }
  }

  /** The unbounded size a string announces, digits in front counted as a token of their own. */
  function Announced(s: seq<Char>): nat {
    var k := DigitRun(s);
    (if k == 0 then 0 else AtLeastOne(Value(s[..k]))) + Total(Parse(s[k..]))
  }

  lemma AnnouncedClean(s: seq<Char>)
    requires StartsClean(s)
    ensures Announced(s) == Total(Parse(s))
  {
    assert s[0..] == s;
  }

  /** For every string, the 32-bit reckoning is the announced size exactly when that fits in 32 bits. */
  lemma ExpectedSizeExact(s: seq<Char>)
    ensures ExpectedSize(s) == Announced(s) <==> Announced(s) < U32_LIMIT
  {
    hide Parse, Total, ReckonedSum;
    ReckonedAgainstTotal(Parse(s[DigitRun(s)..]));
  }

  /** A string of digits, whatever it is, stands for fewer characters than it announces. */
  lemma OnlyDigitsAreSafe(s: seq<Char>)
    requires AllDigits(s)
    ensures |Decode(s)| <= Announced(s)
  {
    assert s + [] == s;
    DigitRunOf(s, []);
    assert s[..|s|] == s;
    assert Copies(Value(s)) <= AtLeastOne(Value(s));
  }

  /** The parts of a string with digits `lead` in front of its first other character `c`, which is
      followed by the digits `count`. */
  datatype Parts = Parts(lead: seq<Char>, c: Char, count: seq<Char>, rest: seq<Char>)

  predicate AreParts(s: seq<Char>, p: Parts) {
    && s == p.lead + [p.c] + p.count + p.rest
    && AllDigits(p.lead) && !IsDigit(p.c) && AllDigits(p.count) && StartsClean(p.rest)
  }

  function PartsOf(s: seq<Char>): (p: Parts)
    requires !AllDigits(s)
    ensures AreParts(s, p)
  {
    var k := DigitRun(s);
    var tail := s[k + 1..];
    var m := DigitRun(tail);
    assert s == s[..k] + [s[k]] + tail[..m] + tail[m..];
    Parts(s[..k], s[k], tail[..m], tail[m..])
  }

  /** Where the size check promises too little: with digits in front and no later count of 26 or more
      to make up for it, the joined count writes more than lead and count announce. */
  predicate Short(p: Parts)
    requires AllDigits(p.lead) && AllDigits(p.count) && StartsClean(p.rest)
  {
    && p.lead != []
    && CountsSmall(Parse(p.rest))
    && Copies(Value(p.lead + p.count)) > AtLeastOne(Value(p.lead)) + AtLeastOne(CountOf(p.count))
  }

  /** Lead and count that announce 25 characters or more are never short. */
  lemma ShortBelow25(p: Parts)
    requires AllDigits(p.lead) && AllDigits(p.count) && StartsClean(p.rest) && Short(p)
    ensures AtLeastOne(Value(p.lead)) + AtLeastOne(CountOf(p.count)) < ALPHABET_SIZE - 1
  {
    hide Value, Parse;
  }

  lemma Slices<T>(a: seq<T>, c: T, b: seq<T>, d: seq<T>)
    ensures var s := a + [c] + b + d;
            && s[..|a|] == a && s[|a|] == c && s[|a| + 1..] == b + d
            && s[|a|..] == [c] + b + d && s == a + ([c] + b + d)
  {
  }

  lemma NotAllDigits(s: seq<Char>, i: nat)
    requires i < |s| && !IsDigit(s[i])
    ensures !AllDigits(s)
  {
  }

  lemma FirstOfParts(s: seq<Char>, p: Parts)
    requires AreParts(s, p)
    ensures DigitRun(s) == |p.lead| < |s| && !AllDigits(s)
    ensures s[..|p.lead|] == p.lead && s[|p.lead|..] == [p.c] + p.count + p.rest
    ensures Canonical(s) == [p.c] + (p.lead + p.count) + p.rest
  {
    hide AllDigits, Parse;
    Slices(p.lead, p.c, p.count, p.rest);
    DigitRunOf(p.lead, [p.c] + p.count + p.rest);
    NotAllDigits(s, |p.lead|);
    Associative(p.lead, [p.c] + p.count, p.rest);
    Associative([p.c] + p.lead, p.count, p.rest);
    Associative([p.c], p.lead, p.count);
    assert s == p.lead + ([p.c] + p.count + p.rest);
  }

  /** What `decompress` writes for a string with digits in front. */
  lemma DecodeOfParts(s: seq<Char>, p: Parts)
    requires AreParts(s, p)
    ensures !AllDigits(s)
    ensures |Decode(s)| == Copies(CountOf(p.lead + p.count)) + |Expand(Parse(p.rest))|
  {
    hide Parse, Expand, Value, DigitRun, Canonical;
    FirstOfParts(s, p);
    ParseToken(p.c, p.lead + p.count, p.rest);
    ExpandCons(Token(p.c, CountOf(p.lead + p.count)), Parse(p.rest));
  }

  /** What such a string announces. */
  lemma AnnouncedOfParts(s: seq<Char>, p: Parts)
    requires AreParts(s, p)
    ensures Announced(s) == (if p.lead == [] then 0 else AtLeastOne(Value(p.lead)))
                            + AtLeastOne(CountOf(p.count)) + Total(Parse(p.rest))
  {
    hide Parse, Total, Value, DigitRun, Canonical;
    FirstOfParts(s, p);
    ParseToken(p.c, p.count, p.rest);
    TotalCons(Token(p.c, CountOf(p.count)), Parse(p.rest));
  }

  lemma ExpandCons(t: Token, ts: seq<Token>)
    ensures Expand([t] + ts) == Rep(t.c, Copies(t.n)) + Expand(ts)
  {
    assert ([t] + ts)[1..] == ts;
  }

  lemma TotalCons(t: Token, ts: seq<Token>)
    ensures Total([t] + ts) == AtLeastOne(t.n) + Total(ts)
  {
    assert ([t] + ts)[1..] == ts;
  }

  /** A single count of 26 or more announces at least 25 characters that are never written. */
  lemma {:induction false} Slack(ts: seq<Token>)
    requires !CountsSmall(ts)
    ensures Total(ts) >= |Expand(ts)| + ALPHABET_SIZE - 1
  {
    hide Expand, Total, Copies, AtLeastOne;
    if ts == [] {
    } else {
      var t, rest := ts[0], ts[1..];
      assert ts == [t] + rest;
      ExpandCons(t, rest);
      TotalCons(t, rest);
      Unwritten(t.n);
      SmallCountsCons(t, rest);
      ExpandAgainstTotal(rest);
      if !CountsSmall(rest) {
        Slack(rest);
      }
    }
  }

  lemma Unwritten(n: nat)
    ensures Copies(n) <= AtLeastOne(n)
    ensures n >= ALPHABET_SIZE ==> Copies(n) + ALPHABET_SIZE - 1 <= AtLeastOne(n)
  {
  }

  /** The written length stays within the announced one exactly when the string is not short. */
  lemma AnnouncedExactly(s: seq<Char>, p: Parts)
    requires AreParts(s, p)
    ensures |Decode(s)| <= Announced(s) <==> !Short(p)
  {
    hide Parse, Expand, Total, Value, Decode, Announced, CountsSmall;
    DecodeOfParts(s, p);
    AnnouncedOfParts(s, p);
    ExpandAgainstTotal(Parse(p.rest));
    if !CountsSmall(Parse(p.rest)) {
      Slack(Parse(p.rest));
    }
    if p.lead == [] {
      assert p.lead + p.count == p.count;
    }
  }

  lemma CleanSizes(s: seq<Char>)
    requires StartsClean(s)
    ensures |Decode(s)| <= Announced(s)
    ensures |Decode(s)| == Announced(s) <==> CountsSmall(Parse(s))
  {
    AnnouncedClean(s);
    DecodeClean(s);
    ExpandAgainstTotal(Parse(s));
  }

  /** For every string whose announced size fits in 32 bits, the size check promises enough room
      exactly if the string is not short. For a string that starts with a non-digit it always does, and
      it is tight exactly when no count reaches 26. */
  lemma SizeCheckConservative(s: seq<Char>)
    requires Announced(s) < U32_LIMIT
    ensures |Decode(s)| <= ExpectedSize(s) <==> AllDigits(s) || !Short(PartsOf(s))
    ensures StartsClean(s) ==> |Decode(s)| <= ExpectedSize(s)
    ensures StartsClean(s) ==> (|Decode(s)| == ExpectedSize(s) <==> CountsSmall(Parse(s)))
  {
    hide Parse, Expand, Total, Decode, Announced, ExpectedSize, AllDigits, Short;
    ExpectedSizeExact(s);
    if AllDigits(s) {
      OnlyDigitsAreSafe(s);
    } else {
      AnnouncedExactly(s, PartsOf(s));
    }
    if StartsClean(s) {
      CleanSizes(s);
    }
  }

  lemma {:induction false} ExpandBound(s: seq<Char>)
    requires StartsClean(s)
    ensures |Expand(Parse(s))| <= (ALPHABET_SIZE - 1) * |s|
    decreases |s|
  {
    hide Value, DigitRun;
    if s == [] {
    } else {
      var ds, rest := FirstToken(s);
      ExpandBound(rest);
      ExpandCons(Token(s[0], CountOf(ds)), Parse(rest));
    }
  }

  /** For every string, sums that wrap included: nothing decompresses to more than 25 times its length,
      so a size of that much is always enough. */
  lemma LargeSizesAreSafe(s: seq<Char>)
    ensures |Decode(s)| <= (ALPHABET_SIZE - 1) * |s|
    ensures (ALPHABET_SIZE - 1) * |s| <= ExpectedSize(s) ==> |Decode(s)| <= ExpectedSize(s)
  {
    hide Parse, Expand, DigitRun, ExpectedSize;
    if AllDigits(s) {
      assert s == [] ==> Value(s) == 0;
    } else {
      ExpandBound(Canonical(s));
    }
  }

  /** The two parsers agree on compressed text, whatever the run lengths. */
  lemma ExpectedSizeOfEncode(s: seq<Char>)
    requires DigitFree(s) && |s| < U32_LIMIT
    ensures ExpectedSize(Encode(s)) == |s|
  {
    ParseEncode(s);
    FlattenRuns(s);
    TotalOfRuns(Runs(s));
    AnnouncedClean(Encode(s));
    ExpectedSizeExact(Encode(s));
  }

  /** What a count adds to the size: its value in 32 bits, or one when that is zero or no count is there. */
  lemma SizeOfToken(c: Char, ds: seq<Char>, rest: seq<Char>)
    requires !IsDigit(c) && AllDigits(ds) && StartsClean(rest)
    ensures var v := Value(ds) % U32_LIMIT;
            ExpectedSize([c] + ds + rest) == ((if v == 0 then 1 else v) + ExpectedSize(rest)) % U32_LIMIT
  {
    hide Parse, Value, ReckonedSum, ExpectedSize, CountOf, Reckoned;
    ExpectedClean([c] + ds + rest);
    ExpectedClean(rest);
    ParseToken(c, ds, rest);
    ReckonedCons(Token(c, CountOf(ds)), Parse(rest));
    ReckonedCount(ds);
    ResidueSum(ReckonedSum(Parse(rest)), Reckoned(CountOf(ds)), U32_LIMIT);
  }

  lemma ReckonedCount(ds: seq<Char>)
    requires AllDigits(ds)
    ensures Reckoned(CountOf(ds)) == if Value(ds) % U32_LIMIT == 0 then 1 else Value(ds) % U32_LIMIT
  {
    hide Value;
    NoCount();
  }

  /** Digits in front add to the size as a count of their own. With `SizeOfToken` and zero for the empty
      string this determines the size of every string. */
  lemma SizeOfLead(ds: seq<Char>, rest: seq<Char>)
    requires AllDigits(ds) && ds != [] && StartsClean(rest)
    ensures var v := Value(ds) % U32_LIMIT;
            ExpectedSize(ds + rest) == ((if v == 0 then 1 else v) + ExpectedSize(rest)) % U32_LIMIT
    ensures ExpectedSize([]) == 0
  {
    hide Parse, Value, ReckonedSum;
    var s := ds + rest;
    DigitRunOf(ds, rest);
    assert s[..|ds|] == ds && s[|ds|..] == rest;
    ExpectedClean(rest);
    SizeOfNothing();
    ResidueSum(ReckonedSum(Parse(rest)), Reckoned(Value(ds)), U32_LIMIT);
  }

  lemma SizeOfNothing()
    ensures ExpectedSize([]) == 0
  {
    ExpectedClean([]);
    NothingParsed();
  }

  lemma NoCount()
    ensures Value([]) == 0
  {
  }

  lemma NothingParsed()
    ensures Parse([]) == []
  {
  }

  lemma ReckonedCons(t: Token, ts: seq<Token>)
    ensures ReckonedSum([t] + ts) == Reckoned(t.n) + ReckonedSum(ts)
  {
    assert ([t] + ts)[1..] == ts;
  }

  lemma ExpectedClean(s: seq<Char>)
    requires StartsClean(s)
    ensures ExpectedSize(s) == ReckonedSum(Parse(s)) % U32_LIMIT
  {
    assert s[0..] == s;
  }
}
