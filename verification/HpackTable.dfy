/**
 * The static table and the bounded, evicting dynamic table (sections 2.3 and 4 of RFC 7541).
 *
 * `Table` is the table as a value, newest entry first; `Kept` says what eviction leaves.  The
 * class keeps a running charge and pops the oldest entry until it fits.
 */
module HpackTable {
  import opened Bytes
  import opened Ascii

  const MAXIMUM_DYNAMIC_TABLE_BYTES: nat := 4096

  /** Appendix A of RFC 7541; index 1 is the first entry. */
  const STATIC: seq<seq<(string, string)>> := [
    [(":authority", ""), (":method", "GET"), (":method", "POST"), (":path", "/"), (":path", "/index.html"),
     (":scheme", "http"), (":scheme", "https"), (":status", "200")],
    [(":status", "204"), (":status", "206"), (":status", "304"), (":status", "400"), (":status", "404"),
     (":status", "500"), ("accept-charset", ""), ("accept-encoding", "gzip, deflate")],
    [("accept-language", ""), ("accept-ranges", ""), ("accept", ""), ("access-control-allow-origin", ""),
     ("age", ""), ("allow", ""), ("authorization", ""), ("cache-control", "")],
    [("content-disposition", ""), ("content-encoding", ""), ("content-language", ""), ("content-length", ""),
     ("content-location", ""), ("content-range", ""), ("content-type", ""), ("cookie", "")],
    [("date", ""), ("etag", ""), ("expect", ""), ("expires", ""), ("from", ""), ("host", ""), ("if-match", ""),
     ("if-modified-since", "")],
    [("if-none-match", ""), ("if-range", ""), ("if-unmodified-since", ""), ("last-modified", ""), ("link", ""),
     ("location", ""), ("max-forwards", ""), ("proxy-authenticate", "")],
    [("proxy-authorization", ""), ("range", ""), ("referer", ""), ("refresh", ""), ("retry-after", ""),
     ("server", ""), ("set-cookie", ""), ("strict-transport-security", "")],
    [("transfer-encoding", ""), ("user-agent", ""), ("vary", ""), ("via", ""), ("www-authenticate", "")]
  ]

  const STATIC_ENTRIES: nat := 61

  /** The rows hold eight entries each. */
  function StaticEntry(k: nat): (string, string)
    requires k < STATIC_ENTRIES
  {
    STATIC[k / 8][k % 8]
  }

  /** The static table as fields. */
  function StaticFields(): (fields: seq<Field>)
    ensures |fields| == 61
  {
    seq(STATIC_ENTRIES, k requires 0 <= k < STATIC_ENTRIES => Field(Octets(StaticEntry(k).0), Octets(StaticEntry(k).1)))
  }

  function Size(f: Field): (n: nat)
    ensures n >= 32
  {
    |f.name| + |f.value| + 32
  }

  function Charge(entries: seq<Field>): nat {
    if entries == [] then 0 else Size(entries[0]) + Charge(entries[1..])
  }

  lemma {:induction false} ChargeAppend(a: seq<Field>, b: seq<Field>)
    ensures Charge(a + b) == Charge(a) + Charge(b)
  {
    if a == [] {
      assert a + b == b;
    } else {
      ChargeAppend(a[1..], b);
      assert (a + b)[0] == a[0] && (a + b)[1..] == a[1..] + b;
    }
  }

  lemma {:induction false} CountBelowCharge(entries: seq<Field>)
    ensures 32 * |entries| <= Charge(entries)
  {
    if entries != [] {
      CountBelowCharge(entries[1..]);
    }
  }

  /** The longest newest-first prefix that fits: drop the oldest until it does. */
  function Kept(entries: seq<Field>, room: nat): (kept: seq<Field>)
    ensures kept <= entries && Charge(kept) <= room
  {
    if Charge(entries) <= room then entries else Kept(entries[..|entries| - 1], room)
  }

  /** No longer prefix fits either. */
  lemma {:induction false} KeptIsLongest(entries: seq<Field>, room: nat, n: nat)
    requires n <= |entries| && Charge(entries[..n]) <= room
    ensures n <= |Kept(entries, room)|
    decreases |entries|
  {
    if Charge(entries) > room {
      var init := entries[..|entries| - 1];
      assert entries[..|entries|] == entries;
      assert init[..n] == entries[..n];
      KeptIsLongest(init, room, n);
    }
  }

  datatype Table = Table(entries: seq<Field>, maximum: nat) {
    predicate Valid() {
      Charge(entries) <= maximum <= MAXIMUM_DYNAMIC_TABLE_BYTES
    }

    /** Static indexes first, then the dynamic entries from the newest on. */
    function Lookup(statics: seq<Field>, index: nat): Option<Field> {
      if index == 0 then None
      else if index <= |statics| then Some(statics[index - 1])
      else if index - |statics| - 1 < |entries| then Some(entries[index - |statics| - 1])
      else None
    }

    function Resized(size: nat): Option<Table> {
      if size > MAXIMUM_DYNAMIC_TABLE_BYTES then None else Some(Table(Kept(entries, size), size))
    }

    /** A field larger than the whole table empties it and is not kept. */
    function Inserted(f: Field): Table {
      if Size(f) > maximum then Cleared() else Table([f] + Kept(entries, maximum - Size(f)), maximum)
    }

    function Cleared(): Table {
      Table([], maximum)
    }
  }

  const EMPTY: Table := Table([], MAXIMUM_DYNAMIC_TABLE_BYTES)

  // ----- every run of updates

  datatype Update = Insert(field: Field) | Resize(size: nat) | Clear

  function Apply(t: Table, u: Update): Table {
    match u
    case Insert(f) => t.Inserted(f)
    case Resize(n) => (match t.Resized(n) case Some(r) => r case None => t)
    case Clear => t.Cleared()
  }

  function Run(t: Table, updates: seq<Update>): Table
    decreases |updates|
  {
    if updates == [] then t else Run(Apply(t, updates[0]), updates[1..])
  }

  lemma {:induction false} RunValid(t: Table, updates: seq<Update>)
    requires t.Valid()
    ensures Run(t, updates).Valid()
    decreases |updates|
  {
    if updates != [] {
      RunValid(Apply(t, updates[0]), updates[1..]);
    }
  }

  /** No index above 61 + 4096 / 32 ever resolves, whatever was inserted before. */
  lemma ResolvableIndexes(updates: seq<Update>, index: nat)
    requires Run(EMPTY, updates).Lookup(StaticFields(), index).Some?
    ensures 1 <= index <= 61 + MAXIMUM_DYNAMIC_TABLE_BYTES / 32
  {
    RunValid(EMPTY, updates);
    ValidIndexes(Run(EMPTY, updates), StaticFields(), index);
  }

  lemma ValidIndexes(t: Table, statics: seq<Field>, index: nat)
    requires t.Valid() && |statics| == 61 && t.Lookup(statics, index).Some?
    ensures 1 <= index <= 61 + MAXIMUM_DYNAMIC_TABLE_BYTES / 32
  {
    CountBelowCharge(t.entries);
  }

  /** The fields inserted by a run, newest first. */
  function History(updates: seq<Update>): seq<Field> {
    if updates == [] then []
    else History(updates[1..]) + if updates[0].Insert? then [updates[0].field] else []
  }

  /**
   * The table is always a newest-first prefix of everything inserted: nothing newer is missing, nothing is
   * out of order.
   */
  lemma {:induction false} RunKeepsNewest(t: Table, updates: seq<Update>)
    ensures Run(t, updates).entries <= History(updates) + t.entries
    decreases |updates|
  {
    if updates == [] {
      assert History(updates) + t.entries == t.entries;
    } else {
      var next, rest := Apply(t, updates[0]), History(updates[1..]);
      var newest := if updates[0].Insert? then [updates[0].field] else [];
      ApplyKeepsNewest(t, updates[0], newest);
      RunKeepsNewest(next, updates[1..]);
      PrefixBehind(rest, next.entries, newest + t.entries);
      assert History(updates) + t.entries == rest + (newest + t.entries);
    }
  }

  lemma ApplyKeepsNewest(t: Table, u: Update, newest: seq<Field>)
    requires newest == if u.Insert? then [u.field] else []
    ensures Apply(t, u).entries <= newest + t.entries
  {
    assert [] + t.entries == t.entries;
  }

  lemma PrefixBehind(front: seq<Field>, a: seq<Field>, b: seq<Field>)
    requires a <= b
    ensures front + a <= front + b
  {
  }

  // ----- what stays, over whole runs

  /** Every step of a run has room for these newest entries and all that is inserted on top of them. */
  predicate Room(maximum: nat, updates: seq<Update>, newest: seq<Field>)
    decreases |updates|
  {
    updates == [] ||
    match updates[0]
    case Insert(f) => Charge([f] + newest) <= maximum && Room(maximum, updates[1..], [f] + newest)
    case Clear => newest == [] && Room(maximum, updates[1..], newest)
    case Resize(n) =>
      if n > 4096 then Room(maximum, updates[1..], newest) else Charge(newest) <= n && Room(n, updates[1..], newest)
  }

  /** A prefix stays exactly when it fits. */
  lemma KeptIff(entries: seq<Field>, room: nat, n: nat)
    requires n <= |entries|
    ensures n <= |Kept(entries, room)| <==> Charge(entries[..n]) <= room
  {
    var kept := Kept(entries, room);
    if n <= |kept| {
      assert kept == kept[..n] + kept[n..] && kept[..n] == entries[..n];
      ChargeAppend(kept[..n], kept[n..]);
    } else if Charge(entries[..n]) <= room {
      KeptIsLongest(entries, room, n);
    }
  }

  /** An insert keeps, under the new field, exactly as many of the newest entries as still fit with it. */
  lemma InsertedKeeps(t: Table, f: Field, n: nat)
    requires n <= |t.entries|
    ensures [f] + t.entries[..n] <= t.Inserted(f).entries <==> Charge([f] + t.entries[..n]) <= t.maximum
  {
    var newest := t.entries[..n];
    assert ([f] + newest)[1..] == newest;
    if Size(f) <= t.maximum {
      KeptIff(t.entries, t.maximum - Size(f), n);
      assert t.Inserted(f).entries[1..] == Kept(t.entries, t.maximum - Size(f));
    }
  }

  /** A smaller capacity keeps exactly as many of the newest entries as still fit. */
  lemma ResizedKeeps(t: Table, size: nat, n: nat)
    requires n <= |t.entries|
    ensures t.Resized(size).Some? <==> size <= 4096
    ensures size <= 4096 ==>
              && t.Resized(size).value.maximum == size
              && (t.entries[..n] <= t.Resized(size).value.entries <==> Charge(t.entries[..n]) <= size)
  {
    if size <= 4096 { KeptIff(t.entries, size, n); }
  }

  /** How much a field takes: its octets and 32 more. */
  lemma FieldFits(t: Table, f: Field)
    ensures t.Inserted(f).entries != [] <==> |f.name| + |f.value| + 32 <= t.maximum
  {
  }

  /**
   * Over every run, the newest n entries are still there, under everything inserted since, if and only if
   * every step had room for them: the table holds the longest newest-first prefix of the history that every
   * later step had room for.
   */
  lemma {:induction false} EnduresIff(t: Table, updates: seq<Update>, n: nat)
    requires t.Valid() && n <= |t.entries|
    ensures History(updates) + t.entries[..n] <= Run(t, updates).entries <==> Room(t.maximum, updates, t.entries[..n])
    decreases |updates|
  {
    var newest := t.entries[..n];
    if updates == [] {
      assert History(updates) + newest == newest;
    } else {
      hide Apply, Room;
      var u, rest := updates[0], updates[1..];
      var next, top := Apply(t, u), Top(u);
      assert History(updates) + newest == History(rest) + (top + newest);
      RunKeepsNewest(next, rest);
      Behind(History(rest), top + newest, next.entries, Run(next, rest).entries);
      StepKeeps(t, u, n);
      RoomStep(t, updates, newest);
      if top + newest <= next.entries {
        assert next.entries[..|top| + n] == top + newest;
        EnduresIff(next, rest, |top| + n);
      }
    }
  }

  /** What an update puts on top. */
  function Top(u: Update): seq<Field> { if u.Insert? then [u.field] else [] }

  lemma Behind(front: seq<Field>, wanted: seq<Field>, there: seq<Field>, now: seq<Field>)
    requires now <= front + there
    ensures front + wanted <= now ==> wanted <= there
  {
    if front + wanted <= now {
      assert wanted == (front + wanted)[|front|..] && there == (front + there)[|front|..];
      assert (front + there)[..|front + wanted|] == front + wanted;
      assert there[..|wanted|] == wanted;
    }
  }

  /** Whether one update has room for the newest entries. */
  predicate HasRoom(t: Table, u: Update, newest: seq<Field>) {
    match u
    case Insert(f) => Charge([f] + newest) <= t.maximum
    case Clear => newest == []
    case Resize(size) => size > 4096 || Charge(newest) <= size
  }

  lemma RoomStep(t: Table, updates: seq<Update>, newest: seq<Field>)
    requires updates != []
    ensures Room(t.maximum, updates, newest) <==>
              HasRoom(t, updates[0], newest) &&
              Room(Apply(t, updates[0]).maximum, updates[1..], Top(updates[0]) + newest)
  {
    assert [] + newest == newest;
  }

  lemma StepKeeps(t: Table, u: Update, n: nat)
    requires t.Valid() && n <= |t.entries|
    ensures Top(u) + t.entries[..n] <= Apply(t, u).entries <==> HasRoom(t, u, t.entries[..n])
    ensures Apply(t, u).Valid()
  {
    var newest := t.entries[..n];
    assert [] + newest == newest;
    match u
    case Clear =>
    case Insert(f) => InsertedKeeps(t, f, n);
    case Resize(size) => ResizedKeeps(t, size, n);
  }

  /** A dynamic index counts back from the last insert, and resolves exactly while its entry is there. */
  lemma IndexCountsBack(t: Table, updates: seq<Update>, statics: seq<Field>, k: nat)
    requires |statics| == 61
    ensures var found := Run(t, updates).Lookup(statics, 62 + k);
            && (found.Some? <==> k < |Run(t, updates).entries|)
            && (found.Some? ==> k < |History(updates) + t.entries| && found.value == (History(updates) + t.entries)[k])
  {
    RunKeepsNewest(t, updates);
  }

  lemma StaticIndex(t: Table, index: nat)
    ensures t.Lookup(StaticFields(), 0).None?
    ensures 1 <= index <= 61 ==>
              var (name, value) := StaticEntry(index - 1);
              t.Lookup(StaticFields(), index) == Some(Field(Octets(name), Octets(value)))
  {
  }

  // ----- the table itself

  /** An entry remembers what it was charged. */
  datatype Entry = Entry(field: Field, charged: nat)

  function Fields(entries: seq<Entry>): (fields: seq<Field>)
    ensures |fields| == |entries|
  {
    seq(|entries|, i requires 0 <= i < |entries| => entries[i].field)
  }

  class HeaderTable {
    var entries: seq<Entry>
    var chargedBytes: nat
    var maximum: nat

    ghost function View(): Table reads this {
      Table(Fields(entries), maximum)
    }

    /** The charge accounts for every table byte. */
    ghost predicate Accounted() reads this {
      && chargedBytes == Charge(Fields(entries))
      && forall i :: 0 <= i < |entries| ==> entries[i].charged == Size(entries[i].field)
    }

    ghost predicate Valid() reads this {
      Accounted() && View().Valid()
    }

    constructor ()
      ensures Valid() && View() == EMPTY
    {
      entries, chargedBytes, maximum := [], 0, MAXIMUM_DYNAMIC_TABLE_BYTES;
    }

    method Lookup(index: nat) returns (field: Option<Field>)
      requires Valid()
      ensures field == View().Lookup(StaticFields(), index)
    {
      if index == 0 {
        return None;
      }
      if index <= STATIC_ENTRIES {
        var (name, value) := StaticEntry(index - 1);
        return Some(Field(Octets(name), Octets(value)));
      }
      var offset := index - STATIC_ENTRIES - 1;
      if offset < |entries| {
        return Some(entries[offset].field);
      }
      return None;
    }

    method Resize(size: nat) returns (accepted: bool)
      requires Valid()
      modifies this
      ensures Valid()
      ensures accepted == old(View()).Resized(size).Some?
      ensures View() == if accepted then old(View()).Resized(size).value else old(View())
    {
      if size > MAXIMUM_DYNAMIC_TABLE_BYTES {
        return false;
      }
      maximum := size;
      EvictTo(size);
      accepted := true;
    }

    method Insert(name: seq<byte>, value: seq<byte>)
      requires Valid()
      modifies this
      ensures Valid() && View() == old(View()).Inserted(Field(name, value))
    {
      var f := Field(name, value);
      var size := Size(f);
      if size > maximum {
        EvictTo(0);
        NothingFitsInZero(Fields(entries));
        return;
      }
      EvictTo(maximum - size);
      ghost var kept := Fields(entries);
      entries := [Entry(f, size)] + entries;
      chargedBytes := chargedBytes + size;
      assert Fields(entries) == [f] + kept;
      assert Fields(entries)[1..] == kept;
    }

    method Clear()
      requires Valid()
      modifies this
      ensures Valid() && View() == old(View()).Cleared()
    {
      EvictTo(0);
      NothingFitsInZero(Fields(entries));
    }

    /** Pops the oldest entry while the charge is too high; there always is one to pop. */
    method EvictTo(room: nat)
      requires Accounted()
      modifies this`entries, this`chargedBytes
      ensures Accounted() && Fields(entries) == Kept(old(Fields(entries)), room)
    {
      while chargedBytes > room
        invariant Accounted() && Kept(Fields(entries), room) == Kept(old(Fields(entries)), room)
        decreases |entries|
      {
        ghost var before := Fields(entries);
        assert |entries| > 0;
        var last := entries[|entries| - 1];
        entries := entries[..|entries| - 1];
        assert Fields(entries) == before[..|before| - 1];
        ChargeLast(before);
        chargedBytes := chargedBytes - last.charged;
      }
    }
  }

  lemma ChargeLast(entries: seq<Field>)
    requires entries != []
    ensures Charge(entries) == Charge(entries[..|entries| - 1]) + Size(entries[|entries| - 1])
  {
    var last := entries[|entries| - 1];
    ChargeAppend(entries[..|entries| - 1], [last]);
    assert entries == entries[..|entries| - 1] + [last];
    assert Charge([last]) == Size(last) + Charge([]);
  }

  lemma NothingFitsInZero(entries: seq<Field>)
    requires Charge(entries) == 0
    ensures entries == []
  {
  }
}
