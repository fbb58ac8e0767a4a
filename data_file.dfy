/** The append-only data file of a store (ADB.cpp:61-123): a run of records,
    each `encode(id) ++ encode(data)`, found through an index that maps a key
    to the offset where its record begins. */
module DataFile {
  import opened Wrappers
  import opened Codec

  /** Why retrieving a record fails. */
  datatype StoreError =
    | NotFound             // "Record not found." (ADB.cpp:94)
    | CannotOpenDataFile   // "Unable to open data file." (ADB.cpp:100)
    | ShortRead            // the file ends inside the record

  /** What insertRecord appends: the key, then the value. */
  function RecordBytes<V>(c: Codec<V>, id: Int32, v: V): (r: seq<Byte>)
    ensures |r| >= INT_BYTES
    ensures r[..INT_BYTES] == EncodeInt32(id)
  {
    EncodeInt32(id) + c.encode(v)
  }

  /** What retrieveRecord reads after seeking to `offset`: a key, which it
      discards without comparing it with the requested id, then a value. */
  function ReadAt<V>(c: Codec<V>, data: seq<Byte>, offset: nat): (r: Result<V, StoreError>)
    ensures offset + INT_BYTES > |data| ==> r == Failure(ShortRead)
    ensures r.Failure? ==> r.error == ShortRead
  {
    if offset > |data| then Failure(ShortRead)
    else
      match DecodeInt32(data[offset..])
      case None => Failure(ShortRead)
      case Some((_, rest)) =>
        match c.decode(rest)
        case None => Failure(ShortRead)
        case Some((v, _)) => Success(v)
  }

  /** The record of `id` with value `v` lies in `data` from `offset` on. */
  ghost predicate RecordAt<V>(c: Codec<V>, data: seq<Byte>, offset: nat, id: Int32, v: V)
  {
    var rec := RecordBytes(c, id, v);
    offset + |rec| <= |data| && data[offset..offset + |rec|] == rec
  }

  /** The store's invariant: every offset in the index begins a whole record
      whose key field is that index key. */
  ghost predicate WellIndexed<V(!new)>(c: Codec<V>, index: map<Int32, U64>, data: seq<Byte>)
  {
    forall id | id in index :: exists v :: RecordAt(c, data, index[id], id, v)
  }

  /** The table a store holds: each indexed key with the value read at its
      offset. */
  ghost function Table<V>(c: Codec<V>, index: map<Int32, U64>, data: seq<Byte>): map<Int32, V>
  {
    map id | id in index && ReadAt(c, data, index[id]).Success? :: ReadAt(c, data, index[id]).value
  }

  /** A whole record at an offset reads back as its value, and its key field
      decodes to its key. */
  lemma ReadRecordAt<V(!new)>(c: Codec<V>, data: seq<Byte>, offset: nat, id: Int32, v: V)
    requires Lawful(c)
    requires RecordAt(c, data, offset, id, v)
    ensures ReadAt(c, data, offset) == Success(v)
    ensures offset + INT_BYTES <= |data| && DecodeInt32(data[offset..]).value.0 == id
  {
    var enc := c.encode(v);
    var tail := data[offset + |RecordBytes(c, id, v)|..];
    assert data[offset..] == EncodeInt32(id) + (enc + tail);
    Int32RoundTrip(id, enc + tail);
    assert c.decode(enc + tail) == Some((v, tail));
  }

  /** Appending to the file leaves every record already in it in place. */
  lemma RecordAtAppend<V>(c: Codec<V>, data: seq<Byte>, more: seq<Byte>, offset: nat, id: Int32, v: V)
    requires RecordAt(c, data, offset, id, v)
    ensures RecordAt(c, data + more, offset, id, v)
  {
    var n := |RecordBytes(c, id, v)|;
    assert (data + more)[offset..offset + n] == data[offset..offset + n];
  }

  /** Under the invariant the table has exactly the indexed keys, and each
      one reads back as its table value. */
  lemma TableDomain<V(!new)>(c: Codec<V>, index: map<Int32, U64>, data: seq<Byte>)
    requires Lawful(c) && WellIndexed(c, index, data)
    ensures Table(c, index, data).Keys == index.Keys
    ensures forall id | id in index :: ReadAt(c, data, index[id]) == Success(Table(c, index, data)[id])
  {
    forall id | id in index ensures ReadAt(c, data, index[id]).Success? {
      var v :| RecordAt(c, data, index[id], id, v);
      ReadRecordAt(c, data, index[id], id, v);
    }
  }

  /** Appending the record of a new key at the end of the file, and indexing
      it at the old length, keeps the invariant. */
  lemma InsertWellIndexed<V(!new)>(c: Codec<V>, index: map<Int32, U64>, data: seq<Byte>, id: Int32, v: V)
    requires WellIndexed(c, index, data)
    requires |data| < TWO_64
    ensures WellIndexed(c, index[id := |data|], data + RecordBytes(c, id, v))
    ensures RecordAt(c, data + RecordBytes(c, id, v), |data|, id, v)
  {
    var rec := RecordBytes(c, id, v);
    var index', data' := index[id := |data|], data + rec;
    assert data'[|data|..|data| + |rec|] == rec;
    forall k | k in index' ensures exists w :: RecordAt(c, data', index'[k], k, w) {
      if k == id {
        assert RecordAt(c, data', index'[k], k, v);
      } else {
        var w :| RecordAt(c, data, index[k], k, w);
        RecordAtAppend(c, data, rec, index[k], k, w);
      }
    }
  }

  /** ... and adds exactly that key, with that value, to the table. */
  lemma TableInsert<V(!new)>(c: Codec<V>, index: map<Int32, U64>, data: seq<Byte>, id: Int32, v: V)
    requires Lawful(c) && WellIndexed(c, index, data)
    requires id !in index && |data| < TWO_64
    ensures Table(c, index[id := |data|], data + RecordBytes(c, id, v)) == Table(c, index, data)[id := v]
  {
    var t, t' := Table(c, index, data), Table(c, index[id := |data|], data + RecordBytes(c, id, v));
    var expected := t[id := v];
    forall k ensures (k in t' <==> k in expected) && (k in t' ==> t'[k] == expected[k]) {
      TableInsertAt(c, index, data, id, v, k);
    }
    assert t' == expected;
  }

  lemma TableInsertAt<V(!new)>(c: Codec<V>, index: map<Int32, U64>, data: seq<Byte>, id: Int32, v: V, k: Int32)
    requires Lawful(c) && WellIndexed(c, index, data)
    requires id !in index && |data| < TWO_64
    ensures var t, t' := Table(c, index, data), Table(c, index[id := |data|], data + RecordBytes(c, id, v));
      && (k in t' <==> k in t || k == id)
      && (k in t' ==> t'[k] == if k == id then v else t[k])
  {
    var rec := RecordBytes(c, id, v);
    if k == id {
      InsertWellIndexed(c, index, data, id, v);
      ReadRecordAt(c, data + rec, |data|, id, v);
    } else if k in index {
      ReadStable(c, index, data, rec, k);
    }
  }

  /** An indexed record reads successfully, and reads the same after the file
      has grown. */
  lemma ReadStable<V(!new)>(c: Codec<V>, index: map<Int32, U64>, data: seq<Byte>, more: seq<Byte>, k: Int32)
    requires Lawful(c) && WellIndexed(c, index, data) && k in index
    ensures ReadAt(c, data, index[k]).Success?
    ensures ReadAt(c, data + more, index[k]) == ReadAt(c, data, index[k])
  {
    var w :| RecordAt(c, data, index[k], k, w);
    RecordAtAppend(c, data, more, index[k], k, w);
    ReadRecordAt(c, data, index[k], k, w);
    ReadRecordAt(c, data + more, index[k], k, w);
  }

  /** Dropping a key from the index keeps the invariant and removes exactly
      that key from the table; the file is not touched. */
  lemma TableDelete<V(!new)>(c: Codec<V>, index: map<Int32, U64>, data: seq<Byte>, id: Int32)
    requires Lawful(c) && WellIndexed(c, index, data)
    ensures WellIndexed(c, index - {id}, data)
    ensures Table(c, index - {id}, data) == Table(c, index, data) - {id}
  {
    var index' := index - {id};
    forall k | k in index' ensures exists w :: RecordAt(c, data, index'[k], k, w) {
      var w :| RecordAt(c, data, index[k], k, w);
      assert RecordAt(c, data, index'[k], k, w);
    }
    TableDomain(c, index, data);
    TableDomain(c, index', data);
    var t, t' := Table(c, index, data), Table(c, index', data);
    assert t'.Keys == t.Keys - {id};
    forall k | k in t' ensures t'[k] == t[k] {
      assert ReadAt(c, data, index'[k]) == ReadAt(c, data, index[k]);
    }
  }

  /** retrieveRecord never compares the key it reads with the one it was asked
      for: an index entry pointing at another key's record yields that
      record's value. */
  lemma ReadIgnoresKey<V(!new)>(c: Codec<V>, asked: Int32, stored: Int32, v: V)
    requires Lawful(c)
    ensures var index := map[asked := 0];
      Table(c, index, RecordBytes(c, stored, v)) == map[asked := v]
  {
    var data := RecordBytes(c, stored, v);
    assert RecordAt(c, data, 0, stored, v) by {
      assert data[0..|data|] == data;
    }
    ReadRecordAt(c, data, 0, stored, v);
  }
}
