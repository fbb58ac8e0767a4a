/** The record store of ADB.cpp: `Schema<int, DataType>`, an append-only data
    file of records and an in-memory index from key to record offset, loaded
    from an index file when the store opens and written back when it closes.

    The two files are the contents the store sees: the data file as bytes (an
    absent data file reads as empty), the index file as bytes or None when it
    does not exist. Whether a file can be opened is a parameter of each
    operation that opens one. */
module Adb {
  import opened Wrappers
  import opened Codec
  import opened IndexFile
  import opened DataFile

  class Schema<V(!new)> {
    /** The serialize/deserialize pair of the data type. */
    const codec: Codec<V>
    /** The in-memory index: key to the offset of its record. */
    var index: map<Int32, U64>
    /** The contents of the data file. */
    var data: seq<Byte>
    /** The contents of the index file, None when there is none. */
    var indexFile: Option<seq<Byte>>
    /** Open and not yet closed. */
    var ready: bool

    /** The invariant of a consistent store: a lawful codec, and every index
        entry pointing at a whole record of its own key. */
    ghost predicate Valid()
      reads this
    {
      Lawful(codec) && WellIndexed(codec, index, data)
    }

    /** The table the store holds. */
    ghost function Contents(): map<Int32, V>
      reads this
    {
      Table(codec, index, data)
    }

    /** The constructor: bind the files and load the index. */
    constructor Open(codec: Codec<V>, dataFile: seq<Byte>, indexFile: Option<seq<Byte>>)
      ensures ready && this.codec == codec && data == dataFile && this.indexFile == indexFile
      ensures index == LoadIndex(indexFile)
      ensures indexFile.None? ==> index == map[] && Contents() == map[]
      ensures Lawful(codec) && indexFile.None? ==> Valid()
    {
      this.codec := codec;
      index := map[];
      data := dataFile;
      this.indexFile := indexFile;
      ready := true;
      new;
      LoadIndexFromFile();
    }

    /** Reads (key, offset) pairs into the index until the end of the index
        file; without an index file the index stays as it is. */
    method LoadIndexFromFile()
      modifies this`index
      ensures index == if indexFile.Some? then LoadEntries(old(index), indexFile.value) else old(index)
    {
      if indexFile.None? {
        return;
      }
      var rest := indexFile.value;
      while |rest| > 0
        invariant LoadEntries(old(index), indexFile.value) == LoadEntries(index, rest)
        decreases |rest|
      {
        match DecodeEntry(rest)
        case None =>
          break;
        case Some((key, offset, rest')) =>
          index := index[key := offset];
          rest := rest';
      }
    }

    /** insertRecord: refuse a key already indexed, otherwise append the
        record at the end of the data file and index it at the old length. */
    method Insert(id: Int32, v: V, dataFileOpens: bool) returns (ok: bool)
      requires ready
      requires |data| < TWO_64
      modifies this`index, this`data
      ensures ok <==> old(id !in index) && dataFileOpens
      ensures ok ==> index == old(index)[id := old(|data|)] && data == old(data) + RecordBytes(codec, id, v)
      ensures !ok ==> index == old(index) && data == old(data)
      ensures old(Valid()) ==> Valid() && Contents() == if ok then old(Contents())[id := v] else old(Contents())
    {
      if id in index {
        return false;
      }
      if !dataFileOpens {
        return false;
      }
      ghost var index0, data0 := index, data;
      var pos: U64 := |data|;
      data := data + EncodeInt32(id);
      data := data + codec.encode(v);
      index := index[id := pos];
      ok := true;
      assert data == data0 + RecordBytes(codec, id, v);
      if Lawful(codec) && WellIndexed(codec, index0, data0) {
        InsertWellIndexed(codec, index0, data0, id, v);
        TableInsert(codec, index0, data0, id, v);
      }
    }

    /** retrieveRecord: look the key up, seek to its offset, read the key
        field and then the value. */
    method Retrieve(id: Int32, dataFileOpens: bool) returns (r: Result<V, StoreError>)
      requires ready
      ensures id !in index ==> r == Failure(NotFound)
      ensures id in index && !dataFileOpens ==> r == Failure(CannotOpenDataFile)
      ensures id in index && dataFileOpens ==> r == ReadAt(codec, data, index[id])
      ensures Valid() && dataFileOpens ==>
        r == if id in Contents() then Success(Contents()[id]) else Failure(NotFound)
    {
      if id !in index {
        return Failure(NotFound);
      }
      if !dataFileOpens {
        return Failure(CannotOpenDataFile);
      }
      if Valid() {
        TableDomain(codec, index, data);
      }
      r := ReadAt(codec, data, index[id]);
    }

    /** deleteRecord: erase the index entry; the data file is not touched. */
    method Delete(id: Int32) returns (removed: bool)
      requires ready
      modifies this`index
      ensures removed <==> id in old(index)
      ensures index == old(index) - {id}
      ensures old(Valid()) ==> Valid() && Contents() == old(Contents()) - {id}
    {
      removed := id in index;
      if Valid() {
        TableDelete(codec, index, data, id);
      }
      index := index - {id};
    }

    /** Truncates the index file and writes one (key, offset) pair per index
        entry, enumerating the keys in no particular order. */
    method SaveIndexToFile(indexFileOpens: bool)
      modifies this`indexFile
      ensures !indexFileOpens ==> indexFile == old(indexFile)
      ensures indexFileOpens ==> indexFile.Some? && SavedImage(indexFile.value, index)
      ensures indexFileOpens ==> LoadIndex(indexFile) == index
    {
      if !indexFileOpens {
        return;
      }
      var out: seq<Byte> := [];
      var remaining := index.Keys;
      ghost var order: seq<Int32> := [];
      while remaining != {}
        invariant remaining <= index.Keys
        invariant forall k :: k in order <==> k in index && k !in remaining
        invariant forall i, j | 0 <= i < j < |order| :: order[i] != order[j]
        invariant out == SerializeIndex(index, order)
        decreases remaining
      {
        var key :| key in remaining;
        out := out + EncodeEntry(key, index[key]);
        order := order + [key];
        remaining := remaining - {key};
      }
      indexFile := Some(out);
      assert Enumerates(order, index.Keys);
      SavedImageLoads(out, index);
    }

    /** The destructor: save the index, after which the store is closed. */
    method Close(indexFileOpens: bool)
      requires ready
      modifies this`indexFile, this`ready
      ensures !ready
      ensures !indexFileOpens ==> indexFile == old(indexFile)
      ensures indexFileOpens ==> indexFile.Some? && SavedImage(indexFile.value, index)
      ensures indexFileOpens ==> LoadIndex(indexFile) == index
    {
      SaveIndexToFile(indexFileOpens);
      ready := false;
    }
  }

  /** Closing a consistent store and opening a new one on the same files gives
      back the same table without inserting anything again. */
  method Reopen<V(!new)>(db: Schema<V>) returns (db': Schema<V>)
    requires db.ready && db.Valid()
    modifies db
    ensures db'.ready && db'.Valid()
    ensures db'.Contents() == old(db.Contents())
  {
    db.Close(true);
    db' := new Schema.Open(db.codec, db.data, db.indexFile);
  }

  /** On fresh files: a record inserted under a new key reads back as
      inserted; a second insert under the same key is refused and leaves the
      first value in place. */
  method InsertRetrieveScenario<V(!new)>(codec: Codec<V>, id: Int32, v: V, other: V)
    returns (inserted: bool, first: Result<V, StoreError>, reinserted: bool, second: Result<V, StoreError>)
    requires Lawful(codec)
    requires |RecordBytes(codec, id, v)| < TWO_64
    ensures inserted && first == Success(v)
    ensures !reinserted && second == Success(v)
  {
    var db := new Schema.Open(codec, [], None);
    inserted := db.Insert(id, v, true);
    first := db.Retrieve(id, true);
    reinserted := db.Insert(id, other, true);
    second := db.Retrieve(id, true);
  }

  /** On fresh files: deleting a record hides it; inserting the key again
      succeeds, appends after the old record, and the new value is the one
      read back. */
  method DeleteReinsertScenario<V(!new)>(codec: Codec<V>, id: Int32, v: V, v': V)
    returns (removed: bool, gone: Result<V, StoreError>, reinserted: bool, back: Result<V, StoreError>,
             newOffset: nat)
    requires Lawful(codec)
    requires |RecordBytes(codec, id, v)| < TWO_64
    ensures removed && gone == Failure(NotFound)
    ensures reinserted && back == Success(v')
    ensures newOffset == |RecordBytes(codec, id, v)|
  {
    var db := new Schema.Open(codec, [], None);
    var ok := db.Insert(id, v, true);
    removed := db.Delete(id);
    gone := db.Retrieve(id, true);
    reinserted := db.Insert(id, v', true);
    back := db.Retrieve(id, true);
    newOffset := db.index[id];
  }

  /** On fresh files: a key never inserted is not found, and neither file is
      created or written. */
  method MissingKeyScenario<V(!new)>(codec: Codec<V>, id: Int32)
    returns (missing: Result<V, StoreError>, dataFile: seq<Byte>, indexFile: Option<seq<Byte>>)
    ensures missing == Failure(NotFound)
    ensures dataFile == [] && indexFile == None
  {
    var db := new Schema.Open(codec, [], None);
    missing := db.Retrieve(id, true);
    dataFile, indexFile := db.data, db.indexFile;
  }
}
