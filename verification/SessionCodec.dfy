/** How a session map travels in a cookie: entries separated by the byte FF, padded with FF to a
    multiple of three, and written in base64. */
module SessionCodec {
  import opened Wrappers
  import opened Base64
  import Utf8

  type Text = Utf8.Text
  type Entry = (Text, Text)
  type Data = map<Text, Text>

  const SEPARATOR: Byte := 0xFF

  // ---------------------------------------------------------------------------
  // Specification
  // ---------------------------------------------------------------------------

  function EntryBytes(e: Entry): seq<Byte> { e.0 + [SEPARATOR] + e.1 }

  /** The entries in order, a separator between any two of them. */
  function Body(entries: seq<Entry>): seq<Byte> {
    if entries == [] then []
    else if |entries| == 1 then EntryBytes(entries[0])
    else EntryBytes(entries[0]) + [SEPARATOR] + Body(entries[1..])
  }

  function Separators(n: nat): (s: seq<Byte>)
    ensures |s| == n && forall i :: 0 <= i < n ==> s[i] == SEPARATOR
  {
    seq(n, _ => SEPARATOR)
  }

  function PaddingFor(length: nat): (n: nat)
    ensures n < 3 && (length + n) % 3 == 0
  {
    (3 - length % 3) % 3
  }

  function Padded(body: seq<Byte>): seq<Byte> { body + Separators(PaddingFor(|body|)) }

  function Encoded(entries: seq<Entry>): string { Base64.Encode(Padded(Body(entries))) }

  /** `bytes.split(|b| b == 0xff)`: always at least one part. */
  function Split(bytes: seq<Byte>): (parts: seq<seq<Byte>>)
    ensures |parts| >= 1
  {
    if bytes == [] then [[]]
    else
      var rest := Split(bytes[1..]);
      if bytes[0] == SEPARATOR then [[]] + rest
      else [[bytes[0]] + rest[0]] + rest[1..]
  }

  /** Two parts at a time are read as an entry; an empty key ends the reading, an entry that is
      not UTF-8 is skipped, and a later entry replaces an earlier one. */
  function ReadPairs(parts: seq<seq<Byte>>, read: Data): Data {
    if |parts| < 2 || parts[0] == [] then read
    else
      var key, value := parts[0], parts[1];
      ReadPairs(parts[2..], if Utf8.Valid(key) && Utf8.Valid(value) then read[key := value] else read)
  }

  function BytesOf(cookie: string): seq<Byte> {
    match Base64.Decode(cookie)
    case Some(bytes) => bytes
    case None => []
  }

  function Decoded(cookie: string): Data { ReadPairs(Split(BytesOf(cookie)), map[]) }

  function MapOf(entries: seq<Entry>): Data {
    if entries == [] then map[]
    else
      var last := entries[|entries| - 1];
      MapOf(entries[..|entries| - 1])[last.0 := last.1]
  }

  predicate DistinctKeys(entries: seq<Entry>) {
    forall i, j :: 0 <= i < j < |entries| ==> entries[i].0 != entries[j].0
  }

  /** One of the orders in which a hash map may enumerate its entries. */
  predicate Enumerates(entries: seq<Entry>, data: Data) { DistinctKeys(entries) && MapOf(entries) == data }

  // ---------------------------------------------------------------------------
  // The program's loops
  // ---------------------------------------------------------------------------

  lemma BodyCons(e: Entry, rest: seq<Entry>)
    requires rest != []
    ensures Body([e] + rest) == EntryBytes(e) + [SEPARATOR] + Body(rest)
  {
    assert ([e] + rest)[1..] == rest;
  }

  lemma {:induction false} BodySnoc(entries: seq<Entry>, e: Entry)
    ensures Body(entries + [e]) == Body(entries) + (if entries == [] then [] else [SEPARATOR]) + EntryBytes(e)
  {
    hide Utf8.Valid;
    if entries == [] {
      assert [] + [e] == [e];
    } else {
      var first, rest := entries[0], entries[1..];
      assert entries + [e] == [first] + (rest + [e]);
      BodyCons(first, rest + [e]);
      BodySnoc(rest, e);
      if rest == [] {
        assert Body(rest) == [];
      } else {
        assert entries == [first] + rest;
        BodyCons(first, rest);
      }
    }
  }

  method Encode(entries: seq<Entry>) returns (cookie: string)
    ensures cookie == Encoded(entries)
  {
    var ret: seq<Byte> := [];
    for i := 0 to |entries|
      invariant ret == Body(entries[..i])
    {
      BodySnoc(entries[..i], entries[i]);
      assert entries[..i + 1] == entries[..i] + [entries[i]];
      if i != 0 { ret := ret + [0xFF]; }
      ret := ret + (entries[i].0 + [0xFF] + entries[i].1);
    }
    assert entries[..|entries|] == entries;
    ret := Pad(ret);
    cookie := Base64.Encode(ret);
  }

  /** The second loop of `encode`. */
  method Pad(body: seq<Byte>) returns (ret: seq<Byte>)
    ensures ret == Padded(body)
  {
    ret := body;
    while |ret| * 8 % 6 != 0
      invariant |body| <= |ret| <= |body| + PaddingFor(|body|)
      invariant ret == body + Separators(|ret| - |body|)
      decreases |body| + PaddingFor(|body|) - |ret|
    {
      WholeSextets(|ret|);
      ret := ret + [0xFF];
    }
    WholeSextets(|ret|);
  }

  lemma WholeSextets(n: nat)
    ensures n * 8 % 6 == 0 <==> n % 3 == 0
  {
    var q, r := n / 3, n % 3;
    assert n * 8 == 6 * (4 * q) + 8 * r;
    SixesVanish(4 * q, 8 * r);
  }

  lemma SixesVanish(q: nat, r: nat)
    ensures (6 * q + r) % 6 == r % 6
  {
  }

  method Decode(cookie: string) returns (ret: Data)
    ensures ret == Decoded(cookie)
  {
    hide Utf8.Valid, Base64.Decode, Split;
    ret := map[];
    var decoded := Base64.Decode(cookie);
    var bytes := if decoded.Some? then decoded.value else [];
    var parts := Split(bytes);
    var i := 0;
    while i + 1 < |parts|
      invariant 0 <= i <= |parts|
      invariant ReadPairs(parts[i..], ret) == Decoded(cookie)
    {
      var key, value := parts[i], parts[i + 1];
      assert parts[i..][0] == key && parts[i..][1] == value && parts[i..][2..] == parts[i + 2..];
      if key == [] { break; }
      if Utf8.Valid(key) && Utf8.Valid(value) {
        var k: Text, v: Text := key, value;
        ret := ret[k := v];
      }
      i := i + 2;
    }
  }

  // ---------------------------------------------------------------------------
  // Round trip
  // ---------------------------------------------------------------------------

  /** Text up to a separator is a part of its own. */
  lemma {:induction false} SplitAtSeparator(part: seq<Byte>, rest: seq<Byte>)
    requires SEPARATOR !in part
    ensures Split(part + [SEPARATOR] + rest) == [part] + Split(rest)
    ensures Split(part) == [part]
  {
    var all := part + [SEPARATOR] + rest;
    if part == [] {
      assert all[1..] == rest;
    } else {
      SplitAtSeparator(part[1..], rest);
      assert all[1..] == part[1..] + [SEPARATOR] + rest;
      assert [part[0]] + part[1..] == part;
      assert ([part[1..]] + Split(rest))[1..] == Split(rest);
    }
  }

  /** The padding yields at most two empty parts, which are never read as an entry. */
  lemma PaddingIsNotRead(last: seq<Byte>, n: nat, read: Data)
    requires SEPARATOR !in last && n < 3
    ensures var parts := Split(last + Separators(n));
            |parts| == n + 1 && parts[0] == last && ReadPairs(parts[1..], read) == read
  {
    SplitAtSeparator(last, []);
    if n == 0 {
      assert last + Separators(0) == last;
    } else {
      SplitAtSeparator(last, Separators(n - 1));
      assert last + Separators(n) == last + [SEPARATOR] + Separators(n - 1);
      if n == 2 {
        SplitAtSeparator([], []);
        assert Separators(1) == [] + [SEPARATOR] + [];
      } else {
        assert Separators(0) == [];
      }
    }
  }

  /** The entries that can be read back: those before the first empty key. */
  function Readable(entries: seq<Entry>): seq<Entry> {
    if entries == [] || entries[0].0 == [] then [] else [entries[0]] + Readable(entries[1..])
  }

  /** Inserting the entries one after the other. */
  function InsertAll(entries: seq<Entry>, data: Data): Data {
    if entries == [] then data else InsertAll(entries[1..], data[entries[0].0 := entries[0].1])
  }

  /** Reading the parts of one entry and of what follows it. */
  lemma ReadEntry(entry: Entry, tail: seq<Byte>, later: seq<seq<Byte>>, read: Data)
    requires Split(entry.1 + tail) == [entry.1] + later
    ensures ReadPairs(Split(EntryBytes(entry) + tail), read) ==
            if entry.0 == [] then read else ReadPairs(later, read[entry.0 := entry.1])
  {
    Utf8.NeverFF(entry.0);
    SplitAtSeparator(entry.0, entry.1 + tail);
    assert EntryBytes(entry) + tail == entry.0 + [SEPARATOR] + (entry.1 + tail);
    var parts := [entry.0] + ([entry.1] + later);
    assert parts[0] == entry.0 && parts[1] == entry.1 && parts[2..] == later;
  }

  lemma ReadLastEntry(entry: Entry, n: nat, read: Data)
    requires n < 3
    ensures ReadPairs(Split(EntryBytes(entry) + Separators(n)), read) ==
            if entry.0 == [] then read else read[entry.0 := entry.1]
  {
    Utf8.NeverFF(entry.1);
    var read' := read[entry.0 := entry.1];
    PaddingIsNotRead(entry.1, n, read');
    var parts := Split(entry.1 + Separators(n));
    assert parts == [entry.1] + parts[1..];
    ReadEntry(entry, Separators(n), parts[1..], read);
  }

  lemma ReadEarlierEntry(entry: Entry, later: seq<Byte>, read: Data)
    ensures ReadPairs(Split(EntryBytes(entry) + ([SEPARATOR] + later)), read) ==
            if entry.0 == [] then read else ReadPairs(Split(later), read[entry.0 := entry.1])
  {
    Utf8.NeverFF(entry.1);
    SplitAtSeparator(entry.1, later);
    assert entry.1 + ([SEPARATOR] + later) == entry.1 + [SEPARATOR] + later;
    ReadEntry(entry, [SEPARATOR] + later, Split(later), read);
  }

  lemma InsertAllReadable(entries: seq<Entry>, read: Data)
    requires entries != []
    ensures InsertAll(Readable(entries), read) ==
            if entries[0].0 == [] then read else InsertAll(Readable(entries[1..]), read[entries[0].0 := entries[0].1])
  {
    assert ([entries[0]] + Readable(entries[1..]))[1..] == Readable(entries[1..]);
  }

  lemma {:induction false} ReadingInserts(entries: seq<Entry>, n: nat, read: Data)
    requires entries != [] && n < 3
    ensures ReadPairs(Split(Body(entries) + Separators(n)), read) == InsertAll(Readable(entries), read)
  {
    hide Utf8.Valid;
    var entry, rest := entries[0], entries[1..];
    InsertAllReadable(entries, read);
    if rest == [] {
      ReadLastEntry(entry, n, read);
    } else {
      var later := Body(rest) + Separators(n);
      ReadEarlierEntry(entry, later, read);
      assert Body(entries) + Separators(n) == EntryBytes(entry) + ([SEPARATOR] + later);
      ReadingInserts(rest, n, read[entry.0 := entry.1]);
    }
  }

  lemma {:induction false} InsertAllSnoc(entries: seq<Entry>, e: Entry, data: Data)
    ensures InsertAll(entries + [e], data) == InsertAll(entries, data)[e.0 := e.1]
  {
    if entries == [] {
      assert [] + [e] == [e];
    } else {
      assert (entries + [e])[1..] == entries[1..] + [e];
      InsertAllSnoc(entries[1..], e, data[entries[0].0 := entries[0].1]);
    }
  }

  lemma {:induction false} InsertAllIsMapOf(entries: seq<Entry>)
    ensures InsertAll(entries, map[]) == MapOf(entries)
  {
    if entries != [] {
      var init := entries[..|entries| - 1];
      InsertAllIsMapOf(init);
      InsertAllSnoc(init, entries[|entries| - 1], map[]);
      assert entries == init + [entries[|entries| - 1]];
    }
  }

  /** What comes back, for every list of entries: those before the first empty key. */
  lemma DecodeAfterEncode(entries: seq<Entry>)
    ensures Decoded(Encoded(entries)) == MapOf(Readable(entries))
  {
    Base64.RoundTrip(Padded(Body(entries)));
    if entries == [] {
      assert Padded(Body(entries)) == [];
    } else {
      ReadingInserts(entries, PaddingFor(|Body(entries)|), map[]);
    }
    InsertAllIsMapOf(Readable(entries));
  }

  lemma {:induction false} AllReadable(entries: seq<Entry>)
    requires forall i :: 0 <= i < |entries| ==> entries[i].0 != []
    ensures Readable(entries) == entries
  {
    if entries != [] { AllReadable(entries[1..]); }
  }

  lemma {:induction false} ReadableKeysNonempty(entries: seq<Entry>)
    ensures forall i :: 0 <= i < |Readable(entries)| ==> Readable(entries)[i].0 != []
  {
    if entries != [] { ReadableKeysNonempty(entries[1..]); }
  }

  lemma {:induction false} KeysOfMap(entries: seq<Entry>)
    ensures forall key :: key in MapOf(entries) <==> exists i :: 0 <= i < |entries| && entries[i].0 == key
  {
    if entries != [] {
      var init, last := entries[..|entries| - 1], entries[|entries| - 1];
      KeysOfMap(init);
      forall key | key in MapOf(entries) ensures exists i :: 0 <= i < |entries| && entries[i].0 == key {
        if key == last.0 {
          assert entries[|entries| - 1].0 == key;
        } else {
          assert key in MapOf(init);
          var i :| 0 <= i < |init| && init[i].0 == key;
          assert entries[i].0 == key;
        }
      }
      forall i | 0 <= i < |entries| ensures entries[i].0 in MapOf(entries) {
        if i < |init| { assert init[i].0 in MapOf(init); }
      }
    }
  }

  lemma EnumerateOneMore(init: seq<Entry>, rest: Data, key: Text, value: Text)
    requires Enumerates(init, rest) && key !in rest
    ensures Enumerates(init + [(key, value)], rest[key := value])
  {
    hide Utf8.Valid, MapOf;
    KeysOfMap(init);
    var entries := init + [(key, value)];
    MapOfSnoc(init, (key, value));
    forall i, j | 0 <= i < j < |entries| ensures entries[i].0 != entries[j].0 {
      if j == |init| { assert init[i].0 in MapOf(init); }
    }
  }

  lemma MapOfSnoc(init: seq<Entry>, last: Entry)
    ensures MapOf(init + [last]) == MapOf(init)[last.0 := last.1]
  {
    assert (init + [last])[..|init|] == init;
  }

  /** Every map can be enumerated. */
  lemma {:induction false} EveryMapEnumerates(data: Data) returns (entries: seq<Entry>)
    ensures Enumerates(entries, data)
    decreases data.Keys
  {
    hide Utf8.Valid;
    if data == map[] {
      entries := [];
    } else {
      hide Enumerates;
      var key :| key in data.Keys;
      var rest := data - {key};
      assert rest.Keys == data.Keys - {key};
      var init := EveryMapEnumerates(rest);
      EnumerateOneMore(init, rest, key, data[key]);
      entries := init + [(key, data[key])];
      assert rest[key := data[key]] == data;
    }
  }

  /** For every map and every enumeration of it, decoding gives the map back if and only if it has
      no empty key. */
  lemma SessionRoundTrip(data: Data, entries: seq<Entry>)
    requires Enumerates(entries, data)
    ensures Decoded(Encoded(entries)) == data <==> [] !in data
  {
    DecodeAfterEncode(entries);
    KeysOfMap(entries);
    KeysOfMap(Readable(entries));
    ReadableKeysNonempty(entries);
    if [] !in data { AllReadable(entries); }
  }

  /** The cookie text never contains the padding character. */
  lemma CookieHasNoPadding(entries: seq<Entry>)
    ensures '=' !in Encoded(entries)
  {
    Base64.WholeGroupsNeedNoPadding(Padded(Body(entries)));
  }

  // ---------------------------------------------------------------------------
  // What any cookie text decodes to
  // ---------------------------------------------------------------------------

  /** The parts with the separator between any two of them. */
  function JoinParts(parts: seq<seq<Byte>>): seq<Byte>
    requires parts != []
  {
    if |parts| == 1 then parts[0] else parts[0] + [0xFF] + JoinParts(parts[1..])
  }

  /** Splitting cuts at every separator and loses nothing. */
  lemma {:induction false} SplitCutsAtSeparators(bytes: seq<Byte>)
    ensures JoinParts(Split(bytes)) == bytes && forall i :: 0 <= i < |Split(bytes)| ==> 0xFF !in Split(bytes)[i]
  {
    if bytes != [] {
      SplitCutsAtSeparators(bytes[1..]);
      var rest, parts := Split(bytes[1..]), Split(bytes);
      assert bytes == [bytes[0]] + bytes[1..];
      if bytes[0] == SEPARATOR {
        assert parts[1..] == rest && [] + [0xFF] + JoinParts(rest) == [0xFF] + bytes[1..];
      } else {
        assert parts[1..] == rest[1..];
        if |rest| > 1 {
          var later := JoinParts(rest[1..]);
          assert [bytes[0]] + rest[0] + [0xFF] + later == [bytes[0]] + (rest[0] + [0xFF] + later);
        }
      }
    }
  }

  /** The `k`-th pair of parts is read as an entry: no key up to it is empty, and it is UTF-8. */
  ghost predicate ReadAt(parts: seq<seq<Byte>>, k: nat) {
    && 2 * k + 1 < |parts|
    && (forall j :: 0 <= j <= k ==> parts[2 * j] != [])
    && Utf8.Valid(parts[2 * k]) && Utf8.Valid(parts[2 * k + 1])
  }

  ghost predicate LastReadAt(parts: seq<seq<Byte>>, key: seq<Byte>, k: nat) {
    && ReadAt(parts, k) && parts[2 * k] == key
    && forall j: nat :: j > k && ReadAt(parts, j) ==> parts[2 * j] != key
  }

  lemma ReadAtLater(parts: seq<seq<Byte>>, k: nat)
    requires |parts| >= 2
    ensures ReadAt(parts, k + 1) <==> parts[0] != [] && ReadAt(parts[2..], k)
    ensures ReadAt(parts, k + 1) ==>
              parts[2 * (k + 1)] == parts[2..][2 * k] && parts[2 * (k + 1) + 1] == parts[2..][2 * k + 1]
  {
    var later := parts[2..];
    assert forall j :: 0 <= j < |later| ==> later[j] == parts[j + 2];
    if ReadAt(parts, k + 1) {
      assert parts[2 * 0] != [];
      forall j | 0 <= j <= k ensures later[2 * j] != [] { assert parts[2 * (j + 1)] != []; }
    }
    if parts[0] != [] && ReadAt(later, k) {
      forall j | 0 <= j <= k + 1 ensures parts[2 * j] != [] {
        if j > 0 { assert later[2 * (j - 1)] != []; }
      }
    }
  }

  /** A key is found exactly if some pair is read for it, with the value of the last one, or was there. */
  ghost predicate FindsLast(parts: seq<seq<Byte>>, read: Data, result: Data, key: Text) {
    && (key in result <==> key in read || exists k: nat :: LastReadAt(parts, key, k))
    && (forall k: nat :: LastReadAt(parts, key, k) ==> result[key] == parts[2 * k + 1])
    && (key in read && !(exists k: nat :: LastReadAt(parts, key, k)) ==> result[key] == read[key])
  }

  lemma LastOfLater(parts: seq<seq<Byte>>, result: Data, key: Text, k: nat)
    requires |parts| >= 2 && parts[0] != [] && k > 0 && LastReadAt(parts, key, k)
    requires forall j: nat :: LastReadAt(parts[2..], key, j) ==> key in result && result[key] == parts[2..][2 * j + 1]
    ensures key in result && result[key] == parts[2 * k + 1] && LastReadAt(parts[2..], key, k - 1)
  {
    LaterLast(parts, key, k - 1);
    ReadAtLater(parts, k - 1);
  }

  lemma FindsLastStep(parts: seq<seq<Byte>>, read: Data, next: Data, result: Data, key: Text)
    requires |parts| >= 2 && parts[0] != [] && FindsLast(parts[2..], next, result, key)
    requires if ReadAt(parts, 0) then parts[0] in next && next == read[parts[0] := parts[1]] else next == read
    ensures FindsLast(parts, read, result, key)
  {
    FirstIsLast(parts, key);
    forall k: nat | LastReadAt(parts, key, k) ensures key in result && result[key] == parts[2 * k + 1] {
      if k > 0 { LastOfLater(parts, result, key, k); }
    }
    forall k: nat | LastReadAt(parts[2..], key, k) ensures LastReadAt(parts, key, k + 1) { LaterLast(parts, key, k); }
    if ReadAt(parts, 0) && parts[0] == key && !(exists k: nat :: LastReadAt(parts[2..], key, k)) {
      assert LastReadAt(parts, key, 0);
    }
    if k: nat :| LastReadAt(parts, key, k) && k > 0 { LastOfLater(parts, result, key, k); }
  }

  lemma ReadMeansFirstKey(parts: seq<seq<Byte>>, k: nat)
    requires ReadAt(parts, k)
    ensures |parts| >= 2 && parts[0] != []
  {
    assert parts[2 * 0] != [];
  }

  lemma {:induction false} ReadPairsFindsLast(parts: seq<seq<Byte>>, read: Data, key: Text)
    ensures FindsLast(parts, read, ReadPairs(parts, read), key)
    decreases |parts|
  {
    hide Utf8.Valid, LastReadAt;
    if |parts| >= 2 && parts[0] != [] {
      hide FindsLast;
      var valid := Utf8.Valid(parts[0]) && Utf8.Valid(parts[1]);
      assert valid <==> ReadAt(parts, 0) by { assert 2 * 0 == 0; }
      var next := if valid then read[parts[0] := parts[1]] else read;
      ReadPairsFindsLast(parts[2..], next, key);
      FindsLastStep(parts, read, next, ReadPairs(parts, read), key);
    } else {
      forall k: nat ensures !LastReadAt(parts, key, k) { NotLast(parts, key, k); }
    }
  }

  lemma NotLast(parts: seq<seq<Byte>>, key: seq<Byte>, k: nat)
    requires |parts| < 2 || parts[0] == []
    ensures !LastReadAt(parts, key, k)
  {
    if ReadAt(parts, k) { ReadMeansFirstKey(parts, k); }
  }

  lemma LaterLast(parts: seq<seq<Byte>>, key: seq<Byte>, k: nat)
    requires |parts| >= 2 && parts[0] != []
    ensures LastReadAt(parts, key, k + 1) <==> LastReadAt(parts[2..], key, k)
  {
    forall j: nat ensures ReadAt(parts, j + 1) <==> ReadAt(parts[2..], j) { ReadAtLater(parts, j); }
    forall j: nat ensures ReadAt(parts, j + 1) ==> parts[2 * (j + 1)] == parts[2..][2 * j] { ReadAtLater(parts, j); }
    if LastReadAt(parts, key, k + 1) {
      forall j: nat | j > k && ReadAt(parts[2..], j) ensures parts[2..][2 * j] != key { assert ReadAt(parts, j + 1); }
    }
    if LastReadAt(parts[2..], key, k) {
      forall j: nat | j > k + 1 && ReadAt(parts, j) ensures parts[2 * j] != key { assert ReadAt(parts[2..], j - 1); }
    }
  }

  lemma FirstIsLast(parts: seq<seq<Byte>>, key: seq<Byte>)
    requires |parts| >= 2 && parts[0] != []
    ensures LastReadAt(parts, key, 0) <==>
            ReadAt(parts, 0) && parts[0] == key && !(exists k: nat :: LastReadAt(parts[2..], key, k))
  {
    if ReadAt(parts, 0) && parts[0] == key && !(exists k: nat :: LastReadAt(parts[2..], key, k)) {
      forall j: nat | j > 0 && ReadAt(parts, j) ensures parts[2 * j] != key {
        ReadAtLater(parts, j - 1);
        if parts[2..][2 * (j - 1)] == key { var last := LastFrom(parts[2..], key, j - 1); }
      }
    }
    if LastReadAt(parts, key, 0) {
      forall k: nat ensures !LastReadAt(parts[2..], key, k) { ReadAtLater(parts, k); }
    }
  }

  /** If anything is read for a key, something is read last. */
  lemma {:induction false} LastFrom(parts: seq<seq<Byte>>, key: seq<Byte>, k: nat) returns (last: nat)
    requires ReadAt(parts, k) && parts[2 * k] == key
    ensures LastReadAt(parts, key, last)
    decreases |parts| - k
  {
    if j: nat :| j > k && ReadAt(parts, j) && parts[2 * j] == key {
      last := LastFrom(parts, key, j);
    } else {
      last := k;
    }
  }

  /** What a cookie decodes to: nothing, if it is not base64 or has no entry before an empty key; otherwise
      each key that some UTF-8 pair of parts is read for, with the value of the last such pair. */
  lemma DecodedMeaning(cookie: string, key: Text)
    ensures Base64.Decode(cookie).None? ==> Decoded(cookie) == map[]
    ensures Base64.Decode(cookie).Some? ==>
              var parts := Split(Base64.Decode(cookie).value);
              && JoinParts(parts) == Base64.Decode(cookie).value
              && (forall i :: 0 <= i < |parts| ==> 0xFF !in parts[i])
              && (key in Decoded(cookie) <==> exists k: nat :: LastReadAt(parts, key, k))
              && forall k: nat :: LastReadAt(parts, key, k) ==> Decoded(cookie)[key] == parts[2 * k + 1]
  {
    var parts := Split(BytesOf(cookie));
    SplitCutsAtSeparators(BytesOf(cookie));
    ReadPairsFindsLast(parts, map[], key);
    if Base64.Decode(cookie).None? { assert Split([]) == [[]]; }
  }
}
