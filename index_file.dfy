/** The persisted index (ADB.cpp:125-161): a headerless run of
    `(encode(key), encode(offset))` pairs. Loading reads pairs until the end of
    the file; saving writes one pair per entry of the in-memory index, in
    whatever order the index enumerates them. */
module IndexFile {
  import opened Wrappers
  import opened Codec

  /** One pair: a 4-byte key followed by a stream position, at the model's
      fixed 8-byte width. */
  const ENTRY_BYTES: nat := INT_BYTES + WORD_BYTES

  function EncodeEntry(key: Int32, offset: U64): (r: seq<Byte>)
    ensures |r| == ENTRY_BYTES
  {
    EncodeInt32(key) + EncodeU64(offset)
  }

  /** Reads the key, then the position, from the front of the stream. */
  function DecodeEntry(s: seq<Byte>): (r: Option<(Int32, U64, seq<Byte>)>)
    ensures r.None? <==> |s| < ENTRY_BYTES
    ensures r.Some? ==> r.value.2 == s[ENTRY_BYTES..]
  {
    match DecodeInt32(s)
    case None => None
    case Some((key, rest)) =>
      match DecodeU64(rest)
      case None => None
      case Some((offset, rest')) => Some((key, offset, rest'))
  }

  lemma EntryRoundTrip(key: Int32, offset: U64, rest: seq<Byte>)
    ensures DecodeEntry(EncodeEntry(key, offset) + rest) == Some((key, offset, rest))
  {
    var k, o := EncodeInt32(key), EncodeU64(offset);
    assert EncodeEntry(key, offset) + rest == k + (o + rest);
    Int32RoundTrip(key, o + rest);
    U64RoundTrip(offset, rest);
  }

  /** The index after reading the pairs of `s` into `acc` in file order; a
      later pair for the same key overwrites an earlier one. Reading stops at
      the end of the file, or at a final pair cut short. */
  function LoadEntries(acc: map<Int32, U64>, s: seq<Byte>): (r: map<Int32, U64>)
    ensures acc.Keys <= r.Keys
    ensures |s| < ENTRY_BYTES ==> r == acc
    decreases |s|
  {
    if |s| == 0 then acc
    else
      match DecodeEntry(s)
      case None => acc
      case Some((key, offset, rest)) => LoadEntries(acc[key := offset], rest)
  }

  /** The index a store starts with: empty when there is no index file. */
  function LoadIndex(file: Option<seq<Byte>>): (r: map<Int32, U64>)
    ensures file.None? || |file.value| < ENTRY_BYTES ==> r == map[]
  {
    match file
    case None => map[]
    case Some(bytes) => LoadEntries(map[], bytes)
  }

  /** The file written for index `m` when its keys are enumerated in `order`. */
  function SerializeIndex(m: map<Int32, U64>, order: seq<Int32>): (r: seq<Byte>)
    requires forall i | 0 <= i < |order| :: order[i] in m
    ensures |r| == ENTRY_BYTES * |order|
  {
    if order == [] then []
    else
      var key := order[|order| - 1];
      SerializeIndex(m, order[..|order| - 1]) + EncodeEntry(key, m[key])
  }

  /** `order` lists every key of `keys` exactly once. */
  ghost predicate Enumerates(order: seq<Int32>, keys: set<Int32>)
  {
    && (forall i, j | 0 <= i < j < |order| :: order[i] != order[j])
    && (forall k :: k in order <==> k in keys)
  }

  /** `bytes` is what saving index `m` writes, for some enumeration order of
      its keys. */
  ghost predicate SavedImage(bytes: seq<Byte>, m: map<Int32, U64>)
  {
    exists order :: Enumerates(order, m.Keys) && bytes == SerializeIndex(m, order)
  }

  /** Appending one pair behind whole pairs updates the loaded index with that
      pair and nothing else. */
  lemma {:induction false} LoadAppend(acc: map<Int32, U64>, s: seq<Byte>, key: Int32, offset: U64)
    requires |s| % ENTRY_BYTES == 0
    ensures LoadEntries(acc, s + EncodeEntry(key, offset)) == LoadEntries(acc, s)[key := offset]
    decreases |s|
  {
    var e := EncodeEntry(key, offset);
    if |s| == 0 {
      assert s + e == e + [];
      EntryRoundTrip(key, offset, []);
    } else {
      var tail := s[ENTRY_BYTES..];
      assert s == s[..ENTRY_BYTES] + tail;
      assert s + e == s[..ENTRY_BYTES] + (tail + e);
      var d := DecodeEntry(s).value;
      assert DecodeEntry(s + e) == Some((d.0, d.1, tail + e)) by {
        assert (s + e)[..INT_BYTES] == s[..INT_BYTES];
        assert (s + e)[INT_BYTES..][..WORD_BYTES] == s[INT_BYTES..][..WORD_BYTES];
      }
      LoadAppend(acc[d.0 := d.1], tail, key, offset);
    }
  }

  /** Loading a saved file gives back the entries of the index that were
      written, whatever their order and even with repeats. */
  lemma {:induction false} LoadSerialized(m: map<Int32, U64>, order: seq<Int32>)
    requires forall i | 0 <= i < |order| :: order[i] in m
    ensures var loaded := LoadEntries(map[], SerializeIndex(m, order));
      && (forall k :: k in loaded <==> k in order)
      && (forall k | k in loaded :: loaded[k] == m[k])
  {
    if order != [] {
      var init, key := order[..|order| - 1], order[|order| - 1];
      assert order == init + [key];
      LoadSerialized(m, init);
      assert SerializeIndex(m, order) == SerializeIndex(m, init) + EncodeEntry(key, m[key]);
      LoadAppend(map[], SerializeIndex(m, init), key, m[key]);
    }
  }

  function KeySet(order: seq<Int32>): set<Int32>
  {
    set k | k in order
  }

  lemma {:induction false} DistinctCardinality(order: seq<Int32>)
    requires forall i, j | 0 <= i < j < |order| :: order[i] != order[j]
    ensures |KeySet(order)| == |order|
  {
    if order != [] {
      var init, key := order[..|order| - 1], order[|order| - 1];
      DistinctCardinality(init);
      var before := KeySet(init);
      assert KeySet(order) == before + {key} by {
        assert order == init + [key];
      }
      assert forall i | 0 <= i < |init| :: init[i] != key by {
        forall i | 0 <= i < |init| ensures init[i] != key {
          assert init[i] == order[i];
        }
      }
      assert key !in before;
    }
  }

  /** Saving and then loading rebuilds the same key-to-offset map, whatever
      the enumeration order, with one 12-byte pair per entry. */
  lemma SaveLoadRoundTrip(m: map<Int32, U64>, order: seq<Int32>)
    requires Enumerates(order, m.Keys)
    ensures LoadIndex(Some(SerializeIndex(m, order))) == m
    ensures |SerializeIndex(m, order)| == ENTRY_BYTES * |m|
  {
    LoadSerialized(m, order);
    DistinctCardinality(order);
    assert KeySet(order) == m.Keys;
    assert LoadEntries(map[], SerializeIndex(m, order)).Keys == m.Keys;
  }

  /** Whatever order the save enumerated the index in, loading the file
      rebuilds that index. */
  lemma SavedImageLoads(bytes: seq<Byte>, m: map<Int32, U64>)
    requires SavedImage(bytes, m)
    ensures LoadIndex(Some(bytes)) == m
    ensures |bytes| == ENTRY_BYTES * |m|
  {
    var order :| Enumerates(order, m.Keys) && bytes == SerializeIndex(m, order);
    SaveLoadRoundTrip(m, order);
  }
}
