/** The client side: the library calls on the clipboard device and the ciphered, compressed copy and
    paste built on them. */
module Client {
  import opened Chars
  import opened RunLength
  import opened Vigenere
  import opened Codec
  import opened SizeCheck
  import opened Clipboard
  import opened Driver
  import opened Ancestor

  // ----- copy_paste_clipboard.c -----

  /** The message the library sends for `bytes`. What lies behind them in the fixed-size message is
      never looked at. */
  function LibraryMsg(pid: int, bytes: seq<Char>): (msg: SetMsg)
    requires |bytes| <= ENTRY_LEN_LIMIT
    ensures SetMsgOk(msg) && msg.buffer[..msg.bufferLen] == bytes
    ensures msg.pid == pid && msg.bufferLen == |bytes| && msg.decompressedLen == ExpectedSize(bytes)
  {
    SetMsg(pid, |bytes|, ExpectedSize(bytes), bytes + Rep(0, ENTRY_LEN_LIMIT - |bytes|))
  }

  method CopyToClipboard(driver: ClipboardDriver, pid: int, buffer: array<Char>, bufferLen: nat) returns (r: int)
    requires driver.Valid() && bufferLen <= buffer.Length
    modifies driver.entries, driver.available, driver.available.value
    ensures driver.Valid()
    ensures bufferLen > ENTRY_LEN_LIMIT ==> r == -1 && driver.Abs() == old(driver.Abs())
    ensures bufferLen <= ENTRY_LEN_LIMIT ==>
              var a := Set(old(driver.Abs()), LibraryMsg(pid, buffer[..bufferLen]));
              driver.Abs() == a.state && r == a.reply
  {
    if bufferLen > ENTRY_LEN_LIMIT {
      return -1;
    }
    var size := ExpectedDecompressedSize(buffer, bufferLen);
    var msg := SetMsg(pid, bufferLen, size, buffer[..bufferLen] + Rep(0, ENTRY_LEN_LIMIT - bufferLen));
    assert msg == LibraryMsg(pid, buffer[..bufferLen]);
    r := driver.ClipboardWrite(SetRequest(msg));
  }

  /** A process may have an entry when it descends from the owner, nobody else holds the entry, and
      the entry's announced size fits its buffer. */
  ghost predicate Granted(s: State, t: Table, pid: int, id: nat, bufferLen: nat)
    requires Closed(t)
  {
    && id < |s.entries|
    && s.entries[id].sourcePid >= 0
    && IsAncestor(t, s.entries[id].sourcePid, pid)
    && (s.entries[id].slot == Used || (s.entries[id].slot == Locked && s.entries[id].lockingPid == pid))
    && s.entries[id].decompressedLen <= bufferLen
  }

  /** The state once entry `id` has been handed to `pid`: that slot is empty and first to be reused,
      and another lock `pid` may have held is given up. */
  function Taken(s: State, pid: int, id: nat): State
    requires id < |s.entries|
  {
    Get(Lock(s, pid, id, s.entries[id].decompressedLen).state, pid).state
  }

  /** The state after a refusal: a process that got as far as asking for the lock gives up the one it
      held. */
  ghost function Refused(s: State, t: Table, pid: int, id: nat): State
    requires Closed(t)
  {
    if id < |s.entries| && s.entries[id].sourcePid >= 0 && IsAncestor(t, s.entries[id].sourcePid, pid) then
      Unlocked(s, pid)
    else s
  }

  lemma LockThenGet(s: State, pid: int, id: nat, bufferLen: nat)
    requires Inv(s) && id < |s.entries|
    requires Lock(s, pid, id, bufferLen).reply == 0
    ensures Get(Lock(s, pid, id, bufferLen).state, pid).reply == Some(PayloadOf(s.entries[id]))
    ensures Get(Lock(s, pid, id, bufferLen).state, pid).state == Taken(s, pid, id)
    ensures Inv(Taken(s, pid, id)) && Taken(s, pid, id).entries[id].slot == Empty
  {
    LockKeeps(s, pid, id, bufferLen);
    LockKeeps(s, pid, id, s.entries[id].decompressedLen);
    GetKeeps(Lock(s, pid, id, bufferLen).state, pid);
    assert Lock(s, pid, id, bufferLen).state == Lock(s, pid, id, s.entries[id].decompressedLen).state;
  }

  /** Whatever is stored fits the reply message. */
  lemma StoredFits(s: State, id: nat)
    requires Inv(s)
    ensures id < |s.entries| ==> |s.entries[id].buffer| <= ENTRY_LEN_LIMIT
  {
  }

  /** Asks for the owner, checks the permission, locks and fetches. Succeeds exactly when the entry is
      granted; then the stored bytes are copied out and the slot is emptied. A refusal leaves the
      buffer alone. A process that does not descend from the owner leaves the driver as it was; a
      descendant that is refused has asked for the lock. */
  method PasteFromClipboard(driver: ClipboardDriver, mproc: array<Proc>, pid: int, id: nat,
                            buffer: array<Char>, bufferLen: U32) returns (r: int)
    requires driver.Valid() && driver.entries.Length <= GET_SIZE
    requires Closed(mproc[..]) && Forest(mproc[..]) && 0 <= pid < U32_LIMIT / 2
    requires id < driver.entries.Length ==> |driver.entries[id].buffer| <= buffer.Length
    modifies driver.entries, driver.available, driver.available.value, buffer
    ensures driver.Valid()
    ensures r == if Granted(old(driver.Abs()), mproc[..], pid, id, bufferLen) then 0 else -1
    ensures r == 0 ==>
              var bytes := old(driver.entries[id].buffer);
              && driver.Abs() == Taken(old(driver.Abs()), pid, id)
              && |bytes| <= buffer.Length && Written(old(buffer[..]), buffer[..], 0, bytes)
    ensures r != 0 ==> buffer[..] == old(buffer[..])
    ensures r != 0 ==> driver.Abs() == Refused(old(driver.Abs()), mproc[..], pid, id)
    ensures r == 0 <==>
              var s := old(driver.Abs());
              && id < |s.entries| && s.entries[id].sourcePid >= 0
              && IsAncestor(mproc[..], s.entries[id].sourcePid, pid)
              && (s.entries[id].slot == Used || (s.entries[id].slot == Locked && s.entries[id].lockingPid == pid))
              && s.entries[id].decompressedLen <= bufferLen
    ensures var s := old(driver.Abs());
            if id < |s.entries| && s.entries[id].sourcePid >= 0
               && IsAncestor(mproc[..], s.entries[id].sourcePid, pid) then
              r != 0 ==> driver.Abs() == Lock(s, pid, id, bufferLen).state
            else
              r == -1 && buffer[..] == old(buffer[..]) && driver.Abs() == s
  {
    hide Inv, IsAncestor, Closed, Forest, Taken, Written;
    ghost var s := driver.Abs();
    if id >= driver.entries.Length {
      return -1;
    }
    var msg := new GetMsg();
    var sourcePid := driver.ClipboardRead(id, msg);
    if sourcePid < 0 {
      return -1;
    }
    var allowed := DoCheckIfAncestor(mproc, sourcePid, pid);
    if allowed == 0 {
      return -1;
    }
    LockKeeps(s, pid, id, bufferLen);
    r := driver.ClipboardWrite(LockRequest(pid, id, bufferLen));
    if r < 0 {
      return r;
    }
    LockThenGet(s, pid, id, bufferLen);
    PidRoundTrip(pid);
    r := driver.ClipboardRead(EncodePid(pid), msg);
    if r < 0 {
      return r;
    }
    CopyBytes(buffer, msg.buffer, msg.bufferLen);
  }

  // ----- copy_safely and paste_safely -----

  /** What `copy_safely` hands to the clipboard. */
  function Copied(text: seq<Char>, key: seq<Char>): (code: seq<Char>)
    requires text == [] || key != []
    ensures |code| <= |text|
  {
    EncodeShort(Ciphered(text, key, Cipher));
    Encode(Ciphered(text, key, Cipher))
  }

  /** The entry a copy makes; it fails exactly when no id is free. */
  lemma EntryCopied(s: State, pid: int, code: seq<Char>)
    requires Inv(s) && |code| <= ENTRY_LEN_LIMIT
    ensures var a := Set(s, LibraryMsg(pid, code));
            && (a.reply == -1 <==> s.free == [])
            && (a.reply != -1 ==>
                  && 0 <= a.reply < |a.state.entries|
                  && var e := a.state.entries[a.reply];
                     && e.slot == Used && e.buffer == code && e.bufferLen == |code|
                     && e.decompressedLen == ExpectedSize(code) && e.sourcePid == pid)
  {
    hide Inv, ExpectedSize;
    SetKeeps(s, LibraryMsg(pid, code));
  }

  method CopySafely(driver: ClipboardDriver, pid: int, buffer: array<Char>, bufferLen: nat,
                    key: array<Char>, keyLen: nat) returns (res: int, newLen: nat)
    requires driver.Valid() && bufferLen <= buffer.Length && keyLen <= key.Length
    requires bufferLen > 0 ==> keyLen > 0
    modifies driver.entries, driver.available, driver.available.value
    ensures driver.Valid()
    ensures bufferLen > MAX_SIZE ==> res == -1 && newLen == bufferLen && driver.Abs() == old(driver.Abs())
    ensures bufferLen <= MAX_SIZE ==>
              var code := Copied(buffer[..bufferLen], key[..keyLen]);
              && newLen == |code| <= bufferLen
              && var a := Set(old(driver.Abs()), LibraryMsg(pid, code));
                 driver.Abs() == a.state && res == a.reply
    ensures bufferLen <= MAX_SIZE ==> (res == -1 <==> old(driver.Abs()).free == [])
    ensures res != -1 ==>
              && 0 <= res < driver.entries.Length && driver.entries[res].slot == Used
              && driver.entries[res].buffer == Encode(Ciphered(buffer[..bufferLen], key[..keyLen], Cipher))
              && driver.entries[res].decompressedLen == ExpectedSize(driver.entries[res].buffer)
              && driver.entries[res].sourcePid == pid
  {
    hide Inv, Encode, Ciphered, LettersMoved, Alphanumeric, Shifts, Set, LibraryMsg;
    if bufferLen > MAX_SIZE { return -1, bufferLen; }
    var tmp := new Char[MAX_SIZE](_ => 0);
    CopyBytes(tmp, buffer, bufferLen);
    var ciphered := RunCipher(tmp, bufferLen, key, keyLen, Cipher);
    ghost var text := tmp[..bufferLen];
    EncodeShort(text);
    newLen := Compress(tmp, bufferLen, tmp);
    assert tmp[..newLen] == Encode(text);
    EntryCopied(driver.Abs(), pid, Encode(text));
    res := CopyToClipboard(driver, pid, tmp, newLen);
  }

  /** A string up to its first NUL. */
  function UntilNul(s: seq<Char>): (r: seq<Char>)
    ensures |r| <= |s| && r == s[..|r|] && NulFree(r)
    ensures |r| < |s| ==> s[|r|] == 0
  {
    if s == [] || s[0] == 0 then [] else [s[0]] + UntilNul(s[1..])
  }

  /** Only one index can be the end of the text at the front of a string. */
  lemma FirstNul(s: seq<Char>, i: nat)
    requires i <= |s| && NulFree(s[..i]) && (i < |s| ==> s[i] == 0)
    ensures UntilNul(s) == s[..i]
  {
    var r := UntilNul(s);
    assert forall k :: 0 <= k < |r| ==> r[k] == s[k];
    assert forall k :: 0 <= k < i ==> s[..i][k] == s[k];
  }

  function Min(a: nat, b: nat): nat {
    if a < b then a else b
  }

  /** Length of the text in the first `bound` characters. Looking further than the array is only sound
      when a NUL stops the search. */
  method StringLength(s: array<Char>, bound: nat) returns (i: nat)
    requires bound <= s.Length || 0 in s[..]
    ensures i <= Min(bound, s.Length) && s[..i] == UntilNul(s[..Min(bound, s.Length)])
  {
    i := 0;
    while i < bound && s[i] != 0
      invariant i <= bound && i <= s.Length && NulFree(s[..i])
      invariant i < bound && i == s.Length ==> 0 in s[..i]
    {
      i := i + 1;
    }
    assert s[..Min(bound, s.Length)][..i] == s[..i];
    FirstNul(s[..Min(bound, s.Length)], i);
  }

  /** The scratch buffer after `code` has been delivered into it. */
  function Scratch(uninit: seq<Char>, code: seq<Char>): seq<Char>
    requires |code| <= |uninit|
  {
    code + uninit[|code|..]
  }

  /** What `paste_safely` takes for the compressed text: the scratch buffer up to its first NUL, as far
      as the caller's buffer is long. */
  function Seen(uninit: seq<Char>, code: seq<Char>, bufferLen: nat): seq<Char>
    requires |code| <= |uninit|
  {
    UntilNul(Scratch(uninit, code)[..Min(bufferLen, |uninit|)])
  }

  /** What keeps `paste_safely` inside its arrays: the search for the end stops within the scratch
      buffer, and what it finds decompresses to no more than the caller's buffer. */
  predicate Fits(uninit: seq<Char>, code: seq<Char>, bufferLen: nat)
    requires |code| <= |uninit|
  {
    && (bufferLen <= |uninit| || 0 in Scratch(uninit, code))
    && |Decode(Seen(uninit, code, bufferLen))| <= bufferLen
  }

  /** What the caller's buffer holds after `code` has been decompressed into it, zeroed before, and
      the text in it deciphered. */
  function Unpacked(code: seq<Char>, key: seq<Char>, bufferLen: nat): (r: seq<Char>)
    requires key != [] && |Decode(code)| <= bufferLen
    ensures |r| == bufferLen
  {
    var plain := Decode(code) + Rep(0, bufferLen - |Decode(code)|);
    var text := UntilNul(plain);
    Ciphered(text, key, Decipher) + plain[|text|..]
  }

  /** The deciphered text of a payload without NULs. */
  function Pasted(code: seq<Char>, key: seq<Char>): seq<Char>
    requires key != []
  {
    Ciphered(Decode(code), key, Decipher)
  }

  /** A stored payload as `copy_safely` makes them: free of NULs, starting with a character, no longer
      than the size announced for it, and announced by the size check without wrapping. */
  predicate Readable(e: Entry) {
    && NulFree(e.buffer) && StartsClean(e.buffer)
    && Total(Parse(e.buffer)) < U32_LIMIT
    && e.decompressedLen == ExpectedSize(e.buffer)
    && |e.buffer| <= e.decompressedLen
  }

  /** The scratch buffer behind the delivered bytes does not look like more text. */
  predicate Ends(uninit: seq<Char>, n: nat, bufferLen: nat) {
    n == bufferLen || (n < |uninit| && uninit[n] == 0)
  }

  lemma SeenWhole(uninit: seq<Char>, code: seq<Char>, bufferLen: nat)
    requires NulFree(code) && |code| <= |uninit| && |code| <= bufferLen && Ends(uninit, |code|, bufferLen)
    ensures Seen(uninit, code, bufferLen) == code
    ensures bufferLen <= |uninit| || 0 in Scratch(uninit, code)
  {
    var n := |code|;
    var scratch := Scratch(uninit, code);
    var window := scratch[..Min(bufferLen, |uninit|)];
    assert n < bufferLen ==> scratch[n] == uninit[n] == 0;
    assert window[..n] == code;
    FirstNul(window, n);
  }

  /** What is seen ends at the first NUL behind the delivered bytes or within them, or where the caller's
      buffer ends. */
  lemma SeenAt(uninit: seq<Char>, code: seq<Char>, bufferLen: nat, n: nat)
    requires |code| <= |uninit| && n <= bufferLen && n <= |uninit|
    requires NulFree((code + uninit[|code|..])[..n])
    requires n < bufferLen && n < |uninit| ==> (code + uninit[|code|..])[n] == 0
    ensures Seen(uninit, code, bufferLen) == (code + uninit[|code|..])[..n]
  {
    var scratch := code + uninit[|code|..];
    var window := scratch[..Min(bufferLen, |uninit|)];
    assert window[..n] == scratch[..n];
    FirstNul(window, n);
  }

  /** Of text that is no shorter than the caller's buffer exactly that much is seen. */
  lemma SeenInPart(uninit: seq<Char>, code: seq<Char>, bufferLen: nat)
    requires NulFree(code) && bufferLen <= |code| <= |uninit|
    ensures Seen(uninit, code, bufferLen) == code[..bufferLen]
  {
    assert (code + uninit[|code|..])[..bufferLen] == code[..bufferLen];
    SeenAt(uninit, code, bufferLen, bufferLen);
  }

  /** What is unpacked: the decompressed text is deciphered up to its first NUL, and everything behind that
      stays as decompression left it, with zeros at the end. */
  lemma UnpackedAt(code: seq<Char>, key: seq<Char>, bufferLen: nat, n: nat)
    requires key != [] && n <= bufferLen && |Decode(code)| <= bufferLen
    requires var plain := Decode(code) + Rep(0, bufferLen - |Decode(code)|);
             NulFree(plain[..n]) && (n < bufferLen ==> plain[n] == 0)
    ensures var plain := Decode(code) + Rep(0, bufferLen - |Decode(code)|);
            && Unpacked(code, key, bufferLen)[..n] == Ciphered(plain[..n], key, Decipher)
            && Unpacked(code, key, bufferLen)[n..] == plain[n..]
  {
    hide Decode, Ciphered;
    FirstNul(Decode(code) + Rep(0, bufferLen - |Decode(code)|), n);
  }

  lemma UnpackedWhole(code: seq<Char>, key: seq<Char>, bufferLen: nat)
    requires StartsClean(code) && NulFree(code) && |Decode(code)| <= bufferLen && key != []
    ensures var text := Pasted(code, key);
            |text| <= bufferLen && Unpacked(code, key, bufferLen) == text + Rep(0, bufferLen - |text|)
  {
    hide Decode, Ciphered;
    var decoded := Decode(code);
    var plain := decoded + Rep(0, bufferLen - |decoded|);
    DecodeNulFree(code);
    assert plain[..|decoded|] == decoded;
    FirstNul(plain, |decoded|);
    assert plain[|decoded|..] == Rep(0, bufferLen - |decoded|);
  }

  /** A readable payload, announced no larger than the buffer and followed by a NUL, is seen as it was
      stored, fits, and leaves its deciphered text followed by zeros. */
  lemma ReadableFits(e: Entry, uninit: seq<Char>, bufferLen: nat, key: seq<Char>)
    requires Readable(e) && e.decompressedLen <= bufferLen && key != []
    requires |e.buffer| <= |uninit| && Ends(uninit, |e.buffer|, bufferLen)
    ensures Seen(uninit, e.buffer, bufferLen) == e.buffer && Fits(uninit, e.buffer, bufferLen)
    ensures var text := Pasted(e.buffer, key);
            |text| <= bufferLen && Unpacked(e.buffer, key, bufferLen) == text + Rep(0, bufferLen - |text|)
  {
    hide Parse, Total, Decode, ExpectedSize, Announced, Ciphered, Seen, Scratch, Unpacked, Pasted, Ends;
    AnnouncedClean(e.buffer);
    SizeCheckConservative(e.buffer);
    SeenWhole(uninit, e.buffer, bufferLen);
    UnpackedWhole(e.buffer, key, bufferLen);
  }

  lemma {:induction false} ParseCharacters(s: seq<Char>, i: nat)
    requires StartsClean(s) && i < |Parse(s)|
    ensures Parse(s)[i].c in s
    decreases |s|
  {
    var ds, rest := FirstToken(s);
    if i == 0 {
    } else {
      ParseCharacters(rest, i - 1);
    }
  }

  /** Decompressing text without NULs writes none. */
  lemma DecodeNulFree(s: seq<Char>)
    requires StartsClean(s) && NulFree(s)
    ensures NulFree(Decode(s))
  {
    DecodeClean(s);
    forall i | 0 <= i < |Decode(s)|
      ensures Decode(s)[i] != 0
    {
      ExpandCharacters(Parse(s), Decode(s)[i]);
      var k :| 0 <= k < |Parse(s)| && Parse(s)[k].c == Decode(s)[i];
      ParseCharacters(s, k);
    }
  }

  /** Zeroes the buffer, decompresses into it and deciphers the text found there. */
  method Unpack(tmp: array<Char>, compressedLen: nat, buffer: array<Char>, bufferLen: nat,
                key: array<Char>, keyLen: nat)
    requires tmp != buffer && buffer != key && compressedLen <= tmp.Length && bufferLen <= buffer.Length
    requires 0 < keyLen <= key.Length
    requires |Decode(tmp[..compressedLen])| <= bufferLen
    modifies buffer
    ensures buffer[..bufferLen] == Unpacked(tmp[..compressedLen], key[..keyLen], bufferLen)
    ensures buffer[bufferLen..] == old(buffer[bufferLen..])
  {
    hide Decode, Ciphered, LettersMoved, Alphanumeric, Shifts, Written;
    ghost var code := tmp[..compressedLen];
    for i := 0 to bufferLen
      invariant buffer[..i] == Rep(0, i) && buffer[bufferLen..] == old(buffer[bufferLen..])
    {
      buffer[i] := 0;
    }
    ghost var zeroed := buffer[..];
    Decompress(tmp, compressedLen, buffer);
    ghost var plain := buffer[..bufferLen];
    DecompressedLayout(zeroed, buffer[..], Decode(code), bufferLen);
    ghost var rest := buffer[bufferLen..];
    var decompressedLen := StringLength(buffer, bufferLen);
    assert buffer[..decompressedLen] == UntilNul(plain);
    CutAt(buffer[..], decompressedLen, bufferLen);
    ghost var tail := buffer[decompressedLen..];
    assert tail[..bufferLen - decompressedLen] == plain[decompressedLen..];
    assert tail[bufferLen - decompressedLen..] == rest;
    var ciphered := RunCipher(buffer, decompressedLen, key, keyLen, Decipher);
    CutAt(buffer[..], decompressedLen, bufferLen);
  }

  lemma CutAt(a: seq<Char>, i: nat, j: nat)
    requires i <= j <= |a|
    ensures a[..j] == a[..i] + a[i..][..j - i] && a[j..] == a[i..][j - i..]
    ensures a[i..][..j - i] == a[..j][i..]
  {
  }

  lemma DecompressedLayout(zeroed: seq<Char>, decompressed: seq<Char>, plain: seq<Char>, bound: nat)
    requires |plain| <= bound <= |zeroed| && zeroed[..bound] == Rep(0, bound)
    requires Written(zeroed, decompressed, 0, plain)
    ensures |decompressed| == |zeroed|
    ensures decompressed[..bound] == plain + Rep(0, bound - |plain|)
    ensures decompressed[bound..] == zeroed[bound..]
  {
    assert forall m :: 0 <= m < bound ==> zeroed[..bound][m] == zeroed[m];
  }

  /** `passed` is the number the library receives as the buffer's length. The source hands over the
      address of the length, which the library reads as a number; with the length itself handed over,
      `passed` is `bufferLen`. `uninit` is what the scratch buffer on the stack happens to contain. */
  method PasteSafely(driver: ClipboardDriver, mproc: array<Proc>, pid: int, id: nat, buffer: array<Char>,
                     bufferLen: U32, passed: U32, key: array<Char>, keyLen: nat, uninit: seq<Char>)
    returns (res: int)
    requires driver.Valid() && driver.entries.Length <= GET_SIZE
    requires Closed(mproc[..]) && Forest(mproc[..]) && 0 <= pid < U32_LIMIT / 2
    requires buffer != key && bufferLen <= buffer.Length && 0 < keyLen <= key.Length && |uninit| == MAX_SIZE
    requires Granted(driver.Abs(), mproc[..], pid, id, passed) ==>
               Fits(uninit, driver.entries[id].buffer, bufferLen)
    modifies driver.entries, driver.available, driver.available.value, buffer
    ensures driver.Valid()
    ensures res == if Granted(old(driver.Abs()), mproc[..], pid, id, passed) then 0 else -1
    ensures res == 0 ==>
              var seen := Seen(uninit, old(driver.entries[id].buffer), bufferLen);
              && driver.Abs() == Taken(old(driver.Abs()), pid, id)
              && buffer[..bufferLen] == Unpacked(seen, key[..keyLen], bufferLen)
    ensures res != 0 ==> buffer[..bufferLen] == old(buffer[..bufferLen])
                         && driver.Abs() == Refused(old(driver.Abs()), mproc[..], pid, id)
    ensures buffer[bufferLen..] == old(buffer[bufferLen..])
    ensures res == 0 <==>
              var s := old(driver.Abs());
              && id < |s.entries| && s.entries[id].sourcePid >= 0
              && IsAncestor(mproc[..], s.entries[id].sourcePid, pid)
              && (s.entries[id].slot == Used || (s.entries[id].slot == Locked && s.entries[id].lockingPid == pid))
              && s.entries[id].decompressedLen <= passed
    ensures var s := old(driver.Abs());
            if id < |s.entries| && s.entries[id].sourcePid >= 0
               && IsAncestor(mproc[..], s.entries[id].sourcePid, pid) then
              res != 0 ==> driver.Abs() == Lock(s, pid, id, passed).state
            else
              res == -1 && buffer[..] == old(buffer[..]) && driver.Abs() == s
  {
    hide IsAncestor, Closed, Forest, Decode, Taken, Refused, Inv, Granted, Unpacked, Written;
    ghost var s := driver.Abs();
    var tmp := new Char[MAX_SIZE](i requires 0 <= i < MAX_SIZE => uninit[i]);
    assert tmp[..] == uninit;
    GrantedInTable(s, mproc[..], pid, id, passed);
    StoredFits(s, id);
    res := PasteFromClipboard(driver, mproc, pid, id, tmp, passed);
    if res != 0 {
      return res;
    }
    ghost var code := s.entries[id].buffer;
    WrittenScratch(uninit, tmp[..], code);
    assert tmp[..] == Scratch(uninit, code);
    assert tmp[..Min(bufferLen, MAX_SIZE)] == Scratch(uninit, code)[..Min(bufferLen, MAX_SIZE)];
    var compressedLen := StringLength(tmp, bufferLen);
    Unpack(tmp, compressedLen, buffer, bufferLen, key, keyLen);
  }

  lemma GrantedInTable(s: State, t: Table, pid: int, id: nat, bufferLen: nat)
    requires Closed(t)
    ensures Granted(s, t, pid, id, bufferLen) ==> id < |s.entries|
  {
  }

  lemma WrittenScratch(uninit: seq<Char>, tmp: seq<Char>, code: seq<Char>)
    requires |code| <= |uninit| && Written(uninit, tmp, 0, code)
    ensures tmp == Scratch(uninit, code)
  {
  }
}
