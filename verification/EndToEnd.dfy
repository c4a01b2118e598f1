/** Copy and paste across all layers: cipher, run-length format, size check, driver and permission. */
module EndToEnd {
  import opened Chars
  import opened Decimal
  import opened RunLength
  import opened Vigenere
  import opened Clipboard
  import opened DriverRuns
  import opened Driver
  import opened Ancestor
  import opened Client

  // ----- text and code -----

  lemma {:induction false} PrintCharacters(ts: seq<Token>)
    requires forall i :: 0 <= i < |ts| ==> ts[i].n > 0 && ts[i].c != 0
    ensures NulFree(Print(ts))
  {
    if ts == [] {
    } else {
      PrintCharacters(ts[1..]);
      ShowNulFree(ts[0]);
    }
  }

  lemma ShowNulFree(t: Token)
    requires t.n > 0 && t.c != 0
    ensures NulFree(Show(t))
  {
  }

  lemma {:induction false} RunsOfText(s: seq<Char>)
    requires NulFree(s)
    ensures forall i :: 0 <= i < |Runs(s)| ==> Runs(s)[i].c != 0
    decreases |s|
  {
    if s == [] {
    } else {
      var n, rest := FirstRun(s);
      assert rest == s[|s| - |rest|..];
      RunsOfText(rest);
    }
  }

  /** Cross-layer fit: compressed text of at most 1024 characters can be stored, is announced with the
      length of the text, and decompresses to no more than that. */
  lemma CodeFits(s: seq<Char>)
    requires DigitFree(s) && NulFree(s) && |s| <= MAX_SIZE
    ensures |Encode(s)| <= |s| == ExpectedSize(Encode(s)) <= ENTRY_LEN_LIMIT
    ensures |Decode(Encode(s))| <= ExpectedSize(Encode(s))
    ensures NulFree(Encode(s)) && StartsClean(Encode(s)) && Total(Parse(Encode(s))) == |s|
  {
    EncodeShort(s);
    ExpectedSizeOfEncode(s);
    DecodeEncode(s);
    ParseEncode(s);
    TotalOfRuns(Runs(s));
    RunsOfText(s);
    PrintCharacters(Runs(s));
  }

  lemma LettersAreClean(s: seq<Char>)
    requires AllLetters(s)
    ensures DigitFree(s) && NulFree(s)
  {
  }

  /** Pasting gives back the text exactly when its ciphertext has no run of 26 or more. Otherwise the
      result is shorter than the text. */
  lemma TextRestoredExactly(text: seq<Char>, key: seq<Char>)
    requires AllLetters(text) && Alphanumeric(key) && key != []
    ensures Pasted(Copied(text, key), key) == text <==> NoLongRun(Ciphered(text, key, Cipher))
    ensures !NoLongRun(Ciphered(text, key, Cipher)) ==> |Pasted(Copied(text, key), key)| < |text|
  {
    hide Ciphered, Encode, Decode, NoLongRun;
    CipheredLetters(text, key, Cipher);
    var secret := Ciphered(text, key, Cipher);
    LettersAreClean(secret);
    DecodeEncode(secret);
    CipherInverse(text, key, Cipher);
  }

  /** What `copy_safely` stores is a payload `paste_safely` can take, announced with the text's length. */
  lemma CopiedIsReadable(text: seq<Char>, key: seq<Char>, e: Entry)
    requires AllLetters(text) && |text| <= MAX_SIZE && Alphanumeric(key) && key != []
    requires e.buffer == Copied(text, key) && e.decompressedLen == ExpectedSize(e.buffer)
    ensures Readable(e) && e.decompressedLen == |text| && |e.buffer| <= |text|
  {
    hide Ciphered, Encode;
    CipheredLetters(text, key, Cipher);
    LettersAreClean(Ciphered(text, key, Cipher));
    CodeFits(Ciphered(text, key, Cipher));
  }

  // ----- copy and paste among other processes -----

  lemma CopiedLengths(text: seq<Char>, key: seq<Char>)
    requires AllLetters(text) && |text| <= MAX_SIZE && Alphanumeric(key) && key != []
    ensures |Copied(text, key)| <= |text| == ExpectedSize(Copied(text, key)) <= ENTRY_LEN_LIMIT
    ensures |Decode(Copied(text, key))| <= |text|
  {
    hide Ciphered, Encode;
    CipheredLetters(text, key, Cipher);
    LettersAreClean(Ciphered(text, key, Cipher));
    CodeFits(Ciphered(text, key, Cipher));
  }

  /** A copied payload followed by a NUL leaves the text in a buffer that holds it exactly when the
      ciphertext has no run of 26 or more. */
  lemma BufferRestoredExactly(text: seq<Char>, key: seq<Char>, uninit: seq<Char>, bufferLen: nat)
    requires AllLetters(text) && |text| <= MAX_SIZE && Alphanumeric(key) && key != []
    requires |uninit| == MAX_SIZE && |text| <= bufferLen && Ends(uninit, |Copied(text, key)|, bufferLen)
    ensures Seen(uninit, Copied(text, key), bufferLen) == Copied(text, key)
    ensures Fits(uninit, Copied(text, key), bufferLen)
    ensures Unpacked(Copied(text, key), key, bufferLen)[..|text|] == text <==> NoLongRun(Ciphered(text, key, Cipher))
  {
    hide Ciphered, Encode, Decode, NoLongRun, Copied, Pasted, Readable, ExpectedSize, Seen, Unpacked, Ends;
    var code := Copied(text, key);
    var e := ZERO_ENTRY.(buffer := code, decompressedLen := ExpectedSize(code));
    CopiedIsReadable(text, key, e);
    ReadableFits(e, uninit, bufferLen, key);
    TextRestoredExactly(text, key);
    var unpacked := Unpacked(code, key, bufferLen);
    assert unpacked[..bufferLen] == unpacked;
    PastedPrefix(unpacked, Pasted(code, key), text, bufferLen);
  }

  /** A text is copied; other requests and live updates follow, none asking for that entry; then `pid`
      locks it, and again anything follows that is not a lock or hand-over by `pid`. The lock succeeds
      exactly when the announced length holds the text. Then the next hand-over to `pid` delivers the
      compressed ciphertext and empties the slot, and unpacked from a scratch buffer in which a NUL
      follows it, it fits the caller's buffer and leaves the text there exactly when the ciphertext
      has no run of 26 or more. */
  lemma CopyThenPaste(s: State, owner: int, text: seq<Char>, key: seq<Char>,
                      between: seq<Step>, pid: int, bufferLen: nat, waiting: seq<Step>, uninit: seq<Char>)
    requires Inv(s) && s.free != []
    requires AllLetters(text) && |text| <= MAX_SIZE && Alphanumeric(key) && key != []
    requires StepsOk(|s.entries|, between) && StepsOk(|s.entries|, waiting)
    requires NoneAsksFor(between, Set(s, LibraryMsg(owner, Copied(text, key))).reply)
    requires NoneByHolder(waiting, pid)
    requires |uninit| == MAX_SIZE && Ends(uninit, |Copied(text, key)|, bufferLen)
    ensures var (id, lock) := StoreAndLock(s, LibraryMsg(owner, Copied(text, key)), between, pid, bufferLen);
            && (lock.reply.code == 0 <==> |text| <= bufferLen)
            && (lock.reply.code == 0 ==>
                  var got := Next(Run(lock.state, waiting).state, DoGet(pid));
                  && got.state.entries[id].slot == Empty
                  && got.reply.handed.Some?
                  && LeavesText(got.reply.handed.value.bytes, text, key, bufferLen, uninit))
  {
    hide Ciphered, Encode, Decode, NoLongRun, Inv, Copied, ExpectedSize, Ends, Seen, Unpacked, Fits;
    CopiedLengths(text, key);
    StoredThenDelivered(s, LibraryMsg(owner, Copied(text, key)), between, pid, bufferLen, waiting);
    if |text| <= bufferLen {
      BufferRestoredExactly(text, key, uninit, bufferLen);
    }
  }

  /** `bytes`, delivered into the scratch buffer, is seen whole, fits the caller's buffer, and leaves
      the text at its front exactly when the ciphertext has no run of 26 or more. */
  predicate LeavesText(bytes: seq<Char>, text: seq<Char>, key: seq<Char>, bufferLen: nat, uninit: seq<Char>)
    requires key != [] && |text| <= bufferLen
  {
    && |bytes| <= |uninit| && Fits(uninit, bytes, bufferLen)
    && var unpacked := Unpacked(Seen(uninit, bytes, bufferLen), key, bufferLen);
       unpacked[..|text|] == text <==> NoLongRun(Ciphered(text, key, Cipher))
  }

  // ----- the scenario of clipboard_test, for every text and key -----

  /** After storing, a descendant's paste announcing too small a length is refused and leaves the entry
      for one announcing enough. */
  lemma RefusedThenGranted(s: State, t: Table, msg: SetMsg, pid: int, small: nat, large: nat)
    requires Inv(s) && s.free != [] && SetMsgOk(msg) && msg.pid >= 0
    requires Closed(t) && IsAncestor(t, msg.pid, pid) && msg.decompressedLen <= large
    ensures var stored := Set(s, msg);
            var id := stored.reply;
            && 0 <= id < |s.entries| == |stored.state.entries|
            && stored.state.free + [id] == s.free
            && stored.state.entries[id] == Stored(s.entries[id], msg)
            && (Granted(stored.state, t, pid, id, small) <==> msg.decompressedLen <= small)
            && var refused := Refused(stored.state, t, pid, id);
               && Inv(refused) && |refused.entries| == |s.entries|
               && refused.entries[id] == stored.state.entries[id]
               && refused.free == stored.state.free
               && Granted(refused, t, pid, id, large)
  {
    hide IsAncestor, Closed, OneLockPerPid;
    SetKeeps(s, msg);
    UnlockedKeeps(Set(s, msg).state, pid);
  }

  /** Taking an entry empties its slot and makes its id the next to be used. */
  lemma TakenOnce(s: State, t: Table, pid: int, id: nat, bufferLen: nat)
    requires Inv(s) && Closed(t) && Granted(s, t, pid, id, bufferLen)
    ensures var taken := Taken(s, pid, id);
            && Inv(taken) && |taken.entries| == |s.entries|
            && taken.entries[id].slot == Empty && taken.free == s.free + [id]
            && forall i :: 0 <= i < |s.entries| && i != id ==>
                 var held := s.entries[i].slot == Locked && s.entries[i].lockingPid == pid;
                 taken.entries[i] == if held then s.entries[i].(slot := Used) else s.entries[i]
  {
    hide IsAncestor, Closed, Inv;
    var dec := s.entries[id].decompressedLen;
    LockKeeps(s, pid, id, dec);
    LockThenGet(s, pid, id, dec);
    GetKeeps(Lock(s, pid, id, dec).state, pid);
    UnlockedKeeps(s, pid);
  }

  /** From an empty slot nothing is granted, whatever length is announced, and asking leaves it empty. */
  lemma NothingLeft(s: State, t: Table, pid: int, id: nat)
    requires Inv(s) && Closed(t) && id < |s.entries| && s.entries[id].slot == Empty
    ensures forall bufferLen: nat :: !Granted(s, t, pid, id, bufferLen)
    ensures var refused := Refused(s, t, pid, id);
            && Inv(refused) && |refused.entries| == |s.entries|
            && refused.entries[id].slot == Empty && refused.free == s.free
  {
    hide IsAncestor, Closed, Inv;
    UnlockedKeeps(s, pid);
  }

  /** Pasting an entry twice: an entry that is there is delivered the first time, and then it is gone. */
  method PasteTwice(driver: ClipboardDriver, mproc: array<Proc>, pid: int, id: nat, buffer: array<Char>,
                    large: U32, enough: U32, key: array<Char>, keyLen: nat, uninit: seq<Char>)
    returns (second: int, third: int)
    requires driver.Valid() && driver.entries.Length <= GET_SIZE && id < driver.entries.Length
    requires Closed(mproc[..]) && Forest(mproc[..]) && 0 <= pid < U32_LIMIT / 2
    requires buffer != key && large <= buffer.Length && 0 < keyLen <= key.Length && |uninit| == MAX_SIZE
    requires driver.entries[id].slot != Empty ==>
               && Granted(driver.Abs(), mproc[..], pid, id, enough)
               && |driver.entries[id].buffer| <= MAX_SIZE && Fits(uninit, driver.entries[id].buffer, large)
    modifies driver.entries, driver.available, driver.available.value, buffer
    ensures second == (if old(driver.entries[id].slot) == Empty then -1 else 0) && third == -1
    ensures second == 0 ==>
              buffer[..large] == Unpacked(Seen(uninit, old(driver.entries[id].buffer), large), key[..keyLen], large)
    ensures driver.Valid()
    ensures driver.Abs().free == old(driver.Abs().free) + (if second == 0 then [id] else [])
  {
    hide Ciphered, Decode, Inv, IsAncestor, Closed, Forest, Granted, Refused, Taken, Seen, Unpacked, Fits;
    if driver.entries[id].slot == Empty {
      NothingLeft(driver.Abs(), mproc[..], pid, id);
    } else {
      TakenOnce(driver.Abs(), mproc[..], pid, id, enough);
    }
    second := PasteSafely(driver, mproc, pid, id, buffer, large, enough, key, keyLen, uninit);
    NothingLeft(driver.Abs(), mproc[..], pid, id);
    third := PasteSafely(driver, mproc, pid, id, buffer, large, enough, key, keyLen, uninit);
  }

  /** `owner` copies a text; a descendant `pid` pastes announcing the length `announced`, then announcing
      `enough`, then again. The first paste is refused exactly when it announces less than the text.
      If refused it leaves the entry, and the second paste delivers, the buffer then holding the text
      exactly when its ciphertext has no run of 26 or more; if granted the entry is gone. The third
      paste finds nothing, and the free ids are in the end what they were. */
  method ClipboardTest(driver: ClipboardDriver, mproc: array<Proc>, owner: int, pid: int,
                       text: array<Char>, textLen: nat, key: array<Char>, keyLen: nat,
                       buffer: array<Char>, small: U32, announced: U32, large: U32, enough: U32, uninit: seq<Char>)
    returns (id: int, first: int, second: int, third: int)
    requires driver.Valid() && driver.entries.Length <= GET_SIZE && driver.Abs().free != []
    requires Closed(mproc[..]) && Forest(mproc[..]) && IsAncestor(mproc[..], owner, pid)
    requires owner >= 0 && 0 <= pid < U32_LIMIT / 2
    requires textLen <= text.Length && textLen <= MAX_SIZE && AllLetters(text[..textLen])
    requires 0 < keyLen <= key.Length && Alphanumeric(key[..keyLen])
    requires buffer != key && buffer != text && small <= buffer.Length && textLen <= large <= buffer.Length
    requires textLen <= enough && |uninit| == MAX_SIZE
    requires Ends(uninit, |Copied(text[..textLen], key[..keyLen])|, large)
    requires textLen <= announced ==> Fits(uninit, Copied(text[..textLen], key[..keyLen]), small)
    modifies driver.entries, driver.available, driver.available.value, buffer
    ensures id >= 0
    ensures first == if announced < textLen then -1 else 0
    ensures second == if announced < textLen then 0 else -1
    ensures third == -1
    ensures second == 0 ==> (buffer[..textLen] == text[..textLen]
                             <==> NoLongRun(Ciphered(text[..textLen], key[..keyLen], Cipher)))
    ensures driver.Valid() && driver.Abs().free == old(driver.Abs().free)
  {
    hide Ciphered, Encode, Decode, NoLongRun, Inv, IsAncestor, Closed, Forest, Copied, Readable,
         ExpectedSize, Granted, Refused, Taken, Set, Stored, Seen, Unpacked, Fits, Ends, AllLetters, Alphanumeric;
    ghost var plain, k, t := text[..textLen], key[..keyLen], mproc[..];
    ghost var msg := LibraryMsg(owner, Copied(plain, k));
    CopiedLengths(plain, k);
    BufferRestoredExactly(plain, k, uninit, large);
    RefusedThenGranted(driver.Abs(), t, msg, pid, announced, enough);
    var newLen;
    id, newLen := CopySafely(driver, owner, text, textLen, key, keyLen);
    StoredPayload(driver.entries[id], old(driver.Abs().entries[id]), msg);
    if textLen <= announced {
      TakenOnce(driver.Abs(), t, pid, id, announced);
    }
    first := PasteSafely(driver, mproc, pid, id, buffer, small, announced, key, keyLen, uninit);
    second, third := PasteTwice(driver, mproc, pid, id, buffer, large, enough, key, keyLen, uninit);
    assert buffer[..large][..textLen] == buffer[..textLen];
  }

  /** `owner` copies a text. A process that does not descend from it tries to paste the entry, whatever it
      announces, and gets nothing: its buffer and the driver stay as they are. A descendant then
      receives the entry, its buffer holding the text exactly when the ciphertext has no run of 26 or
      more. */
  method StrangerThenDescendant(driver: ClipboardDriver, mproc: array<Proc>, owner: int, stranger: int, pid: int,
                                text: array<Char>, textLen: nat, key: array<Char>, keyLen: nat,
                                theirs: array<Char>, small: U32, passed: U32,
                                buffer: array<Char>, large: U32, enough: U32, uninit: seq<Char>)
    returns (id: int, refused: int, granted: int)
    requires driver.Valid() && driver.entries.Length <= GET_SIZE && driver.Abs().free != []
    requires Closed(mproc[..]) && Forest(mproc[..])
    requires IsAncestor(mproc[..], owner, pid) && !IsAncestor(mproc[..], owner, stranger)
    requires owner >= 0 && 0 <= pid < U32_LIMIT / 2 && 0 <= stranger < U32_LIMIT / 2
    requires textLen <= text.Length && textLen <= MAX_SIZE && AllLetters(text[..textLen])
    requires 0 < keyLen <= key.Length && Alphanumeric(key[..keyLen])
    requires buffer != key && buffer != text && buffer != theirs && theirs != key
    requires small <= theirs.Length && textLen <= large <= buffer.Length
    requires textLen <= enough && |uninit| == MAX_SIZE
    requires Ends(uninit, |Copied(text[..textLen], key[..keyLen])|, large)
    modifies driver.entries, driver.available, driver.available.value, buffer, theirs
    ensures id >= 0 && refused == -1 && granted == 0
    ensures theirs[..] == old(theirs[..])
    ensures buffer[..textLen] == text[..textLen] <==> NoLongRun(Ciphered(text[..textLen], key[..keyLen], Cipher))
    ensures driver.Valid() && driver.Abs().free == old(driver.Abs().free)
  {
    hide Ciphered, Encode, Decode, NoLongRun, Inv, IsAncestor, Closed, Forest, Copied, Readable,
         ExpectedSize, Granted, Refused, Taken, Set, Stored, Seen, Unpacked, Fits, Ends, AllLetters, Alphanumeric;
    ghost var plain, k, t := text[..textLen], key[..keyLen], mproc[..];
    ghost var msg := LibraryMsg(owner, Copied(plain, k));
    CopiedLengths(plain, k);
    BufferRestoredExactly(plain, k, uninit, large);
    RefusedThenGranted(driver.Abs(), t, msg, pid, enough, enough);
    var newLen;
    id, newLen := CopySafely(driver, owner, text, textLen, key, keyLen);
    StoredPayload(driver.entries[id], old(driver.Abs().entries[id]), msg);
    NotGranted(driver.Abs(), t, stranger, id, passed);
    refused := PasteSafely(driver, mproc, stranger, id, theirs, small, passed, key, keyLen, uninit);
    TakenOnce(driver.Abs(), t, pid, id, enough);
    granted := PasteSafely(driver, mproc, pid, id, buffer, large, enough, key, keyLen, uninit);
    assert buffer[..large][..textLen] == buffer[..textLen];
  }

  lemma NotGranted(s: State, t: Table, pid: int, id: nat, bufferLen: nat)
    requires Closed(t) && id < |s.entries| && !IsAncestor(t, s.entries[id].sourcePid, pid)
    ensures !Granted(s, t, pid, id, bufferLen)
  {
  }

  lemma StoredPayload(e: Entry, was: Entry, msg: SetMsg)
    requires SetMsgOk(msg) && e == Stored(was, msg)
    ensures e.slot == Used && e.sourcePid == msg.pid
    ensures e.buffer == msg.buffer[..msg.bufferLen] && e.decompressedLen == msg.decompressedLen
  {
  }

  /** A zero-padded shorter result differs from the text within the text's length. */
  lemma PastedPrefix(buffer: seq<Char>, pasted: seq<Char>, plain: seq<Char>, large: nat)
    requires AllLetters(plain) && |pasted| <= |plain| <= large <= |buffer|
    requires buffer[..large] == pasted + Rep(0, large - |pasted|)
    ensures buffer[..|plain|] == plain <==> pasted == plain
  {
    assert forall m :: 0 <= m < large ==> buffer[..large][m] == buffer[m];
    if |pasted| < |plain| {
      assert buffer[|pasted|] == 0 && buffer[..|plain|][|pasted|] == 0;
      assert IsLetter(plain[|pasted|]);
    } else {
      assert buffer[..|plain|] == pasted;
    }
  }

  // ----- a number passed for the length that is not the length -----

  /** "abcd" under key "a" is stored as it is and announced as four. A paste for which the library is
      passed any larger number, such as an address, is granted also for a buffer of one, and then
      leaves one character of the text there. */
  lemma PassedAddressWitness(uninit: seq<Char>)
    requires |uninit| == MAX_SIZE
    ensures var text, key: seq<Char> := [97, 98, 99, 100], [LOWER_MIN];
            && Copied(text, key) == text && ExpectedSize(Copied(text, key)) == 4
            && Fits(uninit, Copied(text, key), 1)
            && Unpacked(Seen(uninit, Copied(text, key), 1), key, 1) == [97]
  {
    hide Encode, Decode, Ciphered, Unpacked, ExpectedSize;
    var text, key: seq<Char> := [97, 98, 99, 100], [LOWER_MIN];
    UnshiftedByA(text, Cipher);
    DistinctNeighbours(text);
    CopiedLengths(text, key);
    assert Scratch(uninit, text)[..1] == [97];
    var one: seq<Char> := [97];
    assert one[..1] == one;
    FirstNul(one, 1);
    DistinctNeighbours(one);
    assert Encode(one) == one;
    DecodeEncode(one);
    UnpackedWhole(one, key, 1);
    UnshiftedByA(one, Decipher);
  }

  /** 25 times 'a' under key "a" is stored as "a25": against a buffer of three the stored text is
      seen whole, but it stands for 25 characters and does not fit. Only the length itself makes the
      library refuse it. */
  lemma PassedAddressMisfit(uninit: seq<Char>)
    requires |uninit| == MAX_SIZE
    ensures var text, key: seq<Char> := Rep(LOWER_MIN, 25), [LOWER_MIN];
            var code := Copied(text, key);
            && code == [LOWER_MIN, NUMBER_MIN + 2, NUMBER_MIN + 5] && ExpectedSize(code) == 25
            && Seen(uninit, code, 3) == code && |Decode(code)| == 25 && !Fits(uninit, code, 3)
  {
    hide Encode, Decode, Ciphered, ExpectedSize;
    var text, key: seq<Char> := Rep(LOWER_MIN, 25), [LOWER_MIN];
    UnshiftedByA(text, Cipher);
    EncodeRep(LOWER_MIN, 25);
    assert Digits(25 / 10) == [NUMBER_MIN + 2];
    assert Digits(25) == [NUMBER_MIN + 2] + [NUMBER_MIN + 5];
    CopiedLengths(text, key);
    var code := Copied(text, key);
    assert Scratch(uninit, code)[..3] == code && code[..3] == code;
    FirstNul(code, 3);
    DecodeEncode(text);
    assert forall i :: 0 <= i < |text| ==> !LongRunAt(text, i);
  }

  /** "abCzX" copied under the key "de35" is stored as "dfLcB". */
  lemma CopiedInstance()
    ensures Copied(Text("abCzX"), Text("de35")) == Text("dfLcB")
  {
    hide Ciphered, Encode;
    CipherInstance();
    DistinctNeighbours(Text("dfLcB"));
  }

  // ----- where the round trip loses text -----

  lemma TwentySixAs()
    ensures var text: seq<Char> := Rep(LOWER_MIN, 26);
            && Encode(text) == [LOWER_MIN, NUMBER_MIN + 2, NUMBER_MIN + 6]
            && Decode(Encode(text)) == [LOWER_MIN]
  {
    hide Encode, Decode, Runs, Expand, Value;
    var text: seq<Char> := Rep(LOWER_MIN, 26);
    EncodeRep(LOWER_MIN, 26);
    assert Digits(26 / 10) == [NUMBER_MIN + 2];
    assert Digits(26) == [NUMBER_MIN + 2] + [NUMBER_MIN + 6];
    DecodeEncode(text);
    RunsOfRep(LOWER_MIN, 26, []);
    assert text + [] == text;
    ExpandCons(Token(LOWER_MIN, 26), []);
    NothingToRead();
    assert Rep(LOWER_MIN, 1) + [] == [LOWER_MIN];
  }

  lemma NothingToRead()
    ensures Runs([]) == [] && Expand([]) == []
  {
  }

  /** Under the key "a", which shifts by nothing, 26 times 'a' is stored as "a26" and pasted as one 'a'. */
  lemma LongRunWitness()
    ensures var text, key: seq<Char> := Rep(LOWER_MIN, 26), [LOWER_MIN];
            && Copied(text, key) == [LOWER_MIN, NUMBER_MIN + 2, NUMBER_MIN + 6]
            && Pasted(Copied(text, key), key) == [LOWER_MIN]
  {
    hide Encode, Decode, Ciphered;
    TwentySixAs();
    UnshiftedByA(Rep(LOWER_MIN, 26), Cipher);
    UnshiftedByA([LOWER_MIN], Decipher);
  }

  lemma UnshiftedChar(c: Char, mode: Mode)
    requires IsLetter(c)
    ensures Shifted(c, 0, mode) == c
  {
    hide Shifted;
    LetterShifted(c, 0, mode);
  }

  lemma UnshiftedByA(s: seq<Char>, mode: Mode)
    requires AllLetters(s)
    ensures Ciphered(s, [LOWER_MIN], mode) == s
  {
    hide Shifted, Shifts;
    var key: seq<Char> := [LOWER_MIN];
    assert key == [LOWER_MIN] + [];
    ShiftsOfLetter(LOWER_MIN, []);
    NoShifts();
    assert Shifts(key) == [0];
    forall i | 0 <= i < |s|
      ensures Ciphered(s, key, mode)[i] == s[i]
    {
      UnshiftedChar(s[i], mode);
    }
  }
}
