/** Live update: saving the driver's state under names in the data store and restoring it from there. */
module LiveUpdate {
  import opened Chars
  import opened Decimal
  import opened Clipboard

  type Name = seq<Char>

  /** What is published: the driver's structure, whose buffer pointers carry no bytes, or the bytes
      of one buffer. */
  datatype Blob = Image(image: State) | Bytes(bytes: seq<Char>)

  type Store = map<Name, Blob>

  /** "clipboard" */
  const CLIPBOARD_NAME: Name := [99, 108, 105, 112, 98, 111, 97, 114, 100]

  /** "buf_" */
  const BUFFER_PREFIX: Name := [98, 117, 102, 95]

  function BufferName(i: nat): Name {
    BUFFER_PREFIX + Numeral(i)
  }

  function Stripped(e: Entry): Entry {
    e.(buffer := [])
  }

  function ImageOf(s: State): State {
    s.(entries := seq(|s.entries|, i requires 0 <= i < |s.entries| => Stripped(s.entries[i])))
  }

  /** The store once the buffers of the first `n` slots are published. */
  function Published(entries: seq<Entry>, n: nat, ds: Store): Store
    requires n <= |entries|
  {
    if n == 0 then ds
    else if entries[n - 1].slot == Empty then Published(entries, n - 1, ds)
    else Published(entries, n - 1, ds)[BufferName(n - 1) := Bytes(entries[n - 1].buffer)]
  }

  function Saved(s: State, ds: Store): Store {
    Published(s.entries, |s.entries|, ds[CLIPBOARD_NAME := Image(ImageOf(s))])
  }

  /** The bytes under a name; a name that is missing yields none. */
  function Fetched(ds: Store, name: Name): seq<Char> {
    if name in ds && ds[name].Bytes? then ds[name].bytes else []
  }

  function Without(ds: Store, name: Name): Store {
    ds - {name}
  }

  datatype Recovery = Recovery(entries: seq<Entry>, store: Store)

  /** Table and store once the buffers of the first `n` slots are fetched and deleted. */
  function Recovered(entries: seq<Entry>, n: nat, ds: Store): (r: Recovery)
    requires n <= |entries|
    ensures |r.entries| == |entries|
    ensures forall i :: n <= i < |entries| ==> r.entries[i] == entries[i]
  {
    if n == 0 then Recovery(entries, ds) else
    var r := Recovered(entries, n - 1, ds);
    if entries[n - 1].slot == Empty then r
    else Recovery(r.entries[n - 1 := r.entries[n - 1].(buffer := Fetched(r.store, BufferName(n - 1)))],
                  Without(r.store, BufferName(n - 1)))
  }

  /** The image found in the store, or the instance's own state when there is none. */
  function ImageIn(own: State, ds: Store): State {
    if CLIPBOARD_NAME in ds && ds[CLIPBOARD_NAME].Image? then ds[CLIPBOARD_NAME].image else own
  }

  datatype Restart = Restart(state: State, store: Store)

  /** What a new instance starts with, and the store it leaves. */
  function Restored(own: State, ds: Store): Restart {
    var image := ImageIn(own, ds);
    var r := Recovered(image.entries, |image.entries|, Without(ds, CLIPBOARD_NAME));
    Restart(image.(entries := r.entries), r.store)
  }

  // ----- the names are distinct -----

  lemma BufferNamesDistinct(i: nat, j: nat)
    requires BufferName(i) == BufferName(j)
    ensures i == j
  {
    assert BufferName(i)[|BUFFER_PREFIX|..] == Numeral(i);
    assert BufferName(j)[|BUFFER_PREFIX|..] == Numeral(j);
    NumeralInjective(i, j);
  }

  /** The names: "clipboard", and "buf_" followed by the slot's number in decimal without leading zeros. */
  lemma NamesSpelled(i: nat)
    ensures CLIPBOARD_NAME == Text("clipboard")
    ensures |BufferName(i)| > 4 && BufferName(i)[..4] == Text("buf_")
    ensures var ds := BufferName(i)[4..];
            AllDigits(ds) && Value(ds) == i && (|ds| > 1 ==> ds[0] != NUMBER_MIN)
  {
    PrefixSpelled();
    assert BufferName(i)[..4] == BUFFER_PREFIX;
    assert BufferName(i)[4..] == Numeral(i);
    NumeralSpelled(i);
  }

  lemma PrefixSpelled()
    ensures CLIPBOARD_NAME == Text("clipboard")
    ensures BUFFER_PREFIX == Text("buf_")
  {
  }

  lemma NumeralSpelled(i: nat)
    ensures Numeral(i) != [] && Value(Numeral(i)) == i
    ensures |Numeral(i)| > 1 ==> Numeral(i)[0] != NUMBER_MIN
  {
    if i == 0 {
      ValueSnoc([], NUMBER_MIN);
      assert [] + [NUMBER_MIN] == [NUMBER_MIN];
    } else {
      ValueOfDigits(i);
    }
  }

  lemma BufferNameNotClipboard(i: nat)
    ensures BufferName(i) != CLIPBOARD_NAME
  {
    assert BufferName(i)[0] == BUFFER_PREFIX[0];
  }

  /** The names in use for the first `n` slots. */
  function Names(entries: seq<Entry>, n: nat): set<Name>
    requires n <= |entries|
  {
    if n == 0 then {}
    else if entries[n - 1].slot == Empty then Names(entries, n - 1)
    else Names(entries, n - 1) + {BufferName(n - 1)}
  }

  lemma {:induction false} NamesAre(entries: seq<Entry>, n: nat, i: nat)
    requires n <= |entries| && i < |entries|
    ensures BufferName(i) in Names(entries, n) <==> i < n && entries[i].slot != Empty
    ensures CLIPBOARD_NAME !in Names(entries, n)
  {
    hide BufferName, Numeral;
    if n == 0 {
    } else {
      NamesAre(entries, n - 1, i);
      BufferNameNotClipboard(n - 1);
      if BufferName(i) == BufferName(n - 1) {
        BufferNamesDistinct(i, n - 1);
      }
    }
  }

  lemma NoClipboardName(entries: seq<Entry>, n: nat)
    requires n <= |entries|
    ensures CLIPBOARD_NAME !in Names(entries, n)
  {
    hide BufferName, Numeral;
    if n > 0 {
      NamesAre(entries, n, 0);
    }
  }

  // ----- the round trip -----

  /** The bytes of slot `i` are in the store under its name. */
  predicate Holds(ds: Store, i: nat, bytes: seq<Char>) {
    BufferName(i) in ds && ds[BufferName(i)] == Bytes(bytes)
  }

  lemma {:induction false} PublishedIs(entries: seq<Entry>, n: nat, ds: Store)
    requires n <= |entries|
    ensures Published(entries, n, ds).Keys == ds.Keys + Names(entries, n)
    ensures forall name :: name in ds && name !in Names(entries, n) ==> Published(entries, n, ds)[name] == ds[name]
    ensures forall i :: 0 <= i < n && entries[i].slot != Empty ==>
              Holds(Published(entries, n, ds), i, entries[i].buffer)
  {
    hide BufferName, Numeral;
    if n == 0 {
    } else {
      PublishedIs(entries, n - 1, ds);
      var before, after := Published(entries, n - 1, ds), Published(entries, n, ds);
      forall i | 0 <= i < n && entries[i].slot != Empty
        ensures Holds(after, i, entries[i].buffer)
      {
        if i < n - 1 {
          if BufferName(i) == BufferName(n - 1) {
            BufferNamesDistinct(i, n - 1);
          }
          assert Holds(before, i, entries[i].buffer);
        }
      }
    }
  }

  /** What a live update leaves in the store: the table without its bytes under "clipboard", the bytes of
      every slot in use under that slot's name, and everything else as it was. */
  lemma SavedStore(s: State, ds: Store)
    ensures Saved(s, ds).Keys == ds.Keys + {CLIPBOARD_NAME} + Names(s.entries, |s.entries|)
    ensures Saved(s, ds)[CLIPBOARD_NAME].Image?
    ensures var image := Saved(s, ds)[CLIPBOARD_NAME].image;
            && image.free == s.free && image.stackSize == s.stackSize && |image.entries| == |s.entries|
            && forall i :: 0 <= i < |s.entries| ==> image.entries[i] == s.entries[i].(buffer := [])
    ensures forall i :: 0 <= i < |s.entries| && s.entries[i].slot != Empty ==>
              BufferName(i) in Saved(s, ds) && Saved(s, ds)[BufferName(i)] == Bytes(s.entries[i].buffer)
    ensures forall name :: name in ds && name != CLIPBOARD_NAME && name !in Names(s.entries, |s.entries|) ==>
              Saved(s, ds)[name] == ds[name]
  {
    hide BufferName, Numeral, Names, Published;
    var n := |s.entries|;
    PublishedIs(s.entries, n, ds[CLIPBOARD_NAME := Image(ImageOf(s))]);
    NoClipboardName(s.entries, n);
    forall i | 0 <= i < n && s.entries[i].slot != Empty
      ensures BufferName(i) in Saved(s, ds) && Saved(s, ds)[BufferName(i)] == Bytes(s.entries[i].buffer)
    {
      assert Holds(Saved(s, ds), i, s.entries[i].buffer);
    }
  }

  lemma {:induction false} RecoveredStore(entries: seq<Entry>, n: nat, ds: Store)
    requires n <= |entries|
    ensures Recovered(entries, n, ds).store == ds - Names(entries, n)
  {
    hide BufferName, Numeral, Fetched;
    if n == 0 {
    } else {
      RecoveredStore(entries, n - 1, ds);
    }
  }

  lemma {:induction false} RecoveredEntries(entries: seq<Entry>, n: nat, ds: Store, i: nat)
    requires i < n <= |entries|
    ensures Recovered(entries, n, ds).entries[i]
            == if entries[i].slot == Empty then entries[i] else entries[i].(buffer := Fetched(ds, BufferName(i)))
  {
    hide BufferName, Numeral;
    if i == n - 1 {
      RecoveredStore(entries, i, ds);
      NamesAre(entries, i, i);
    } else {
      RecoveredEntries(entries, n - 1, ds, i);
    }
  }

  lemma {:induction false} SameNames(a: seq<Entry>, b: seq<Entry>, n: nat)
    requires n <= |a| == |b| && forall i :: 0 <= i < n ==> a[i].slot == b[i].slot
    ensures Names(a, n) == Names(b, n)
  {
    hide BufferName, Numeral;
    if n == 0 {
    } else {
      SameNames(a, b, n - 1);
    }
  }

  lemma SavedImage(s: State, own: State, ds: Store)
    ensures ImageIn(own, Saved(s, ds)) == ImageOf(s)
  {
    hide BufferName, Numeral;
    var n := |s.entries|;
    PublishedIs(s.entries, n, ds[CLIPBOARD_NAME := Image(ImageOf(s))]);
    if n > 0 {
      NamesAre(s.entries, n, 0);
    }
  }

  lemma RestoredEntry(s: State, own: State, ds: Store, i: nat)
    requires Inv(s) && i < |s.entries|
    ensures |Restored(own, Saved(s, ds)).state.entries| == |s.entries|
    ensures Restored(own, Saved(s, ds)).state.entries[i] == s.entries[i]
  {
    hide BufferName, Numeral, Names, Published, Recovered;
    var n := |s.entries|;
    var saved := Saved(s, ds);
    SavedImage(s, own, ds);
    PublishedIs(s.entries, n, ds[CLIPBOARD_NAME := Image(ImageOf(s))]);
    RecoveredEntries(ImageOf(s).entries, n, Without(saved, CLIPBOARD_NAME), i);
    BufferNameNotClipboard(i);
    assert EntryOk(s.entries[i]);
  }

  lemma RestoredStore(s: State, own: State, ds: Store)
    ensures Restored(own, Saved(s, ds)).store == ds - ({CLIPBOARD_NAME} + Names(s.entries, |s.entries|))
  {
    hide BufferName, Numeral, Names, Published, Recovered, Fetched;
    var n := |s.entries|;
    var start := ds[CLIPBOARD_NAME := Image(ImageOf(s))];
    var saved := Saved(s, ds);
    SavedImage(s, own, ds);
    PublishedIs(s.entries, n, start);
    RecoveredStore(ImageOf(s).entries, n, Without(saved, CLIPBOARD_NAME));
    SameNames(s.entries, ImageOf(s).entries, n);
    var names := Names(s.entries, n);
    var store := Restored(own, saved).store;
    assert store.Keys == (ds - ({CLIPBOARD_NAME} + names)).Keys;
    assert forall name :: name in store ==> name in start && name !in names;
  }

  /** Restoring what was saved gives back every slot and buffer whatever the store held before, and
      leaves the store without the clipboard's names and otherwise as it was. */
  lemma LiveUpdateRoundTrip(s: State, own: State, ds: Store)
    requires Inv(s)
    ensures Restored(own, Saved(s, ds)).state == s
    ensures Restored(own, Saved(s, ds)).store == ds - ({CLIPBOARD_NAME} + Names(s.entries, |s.entries|))
  {
    hide Inv, Saved, Recovered;
    SavedImage(s, own, ds);
    RestoredStore(s, own, ds);
    forall i | 0 <= i < |s.entries|
      ensures Restored(own, Saved(s, ds)).state.entries[i] == s.entries[i]
    {
      RestoredEntry(s, own, ds, i);
    }
  }
}
