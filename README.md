# ADB record store, modelled in Dafny

ADB is a single-table record store. A `Schema<KeyType, DataType>` keeps records
in an append-only binary data file. Each record is `serialize(id)` followed by
`serialize(data)`. An in-memory `unordered_map` maps each key to the byte offset
where its record begins. The map is loaded from an index file when the store is
constructed and written back to that file when it is destroyed. The index file
is a headerless run of `(serialize(key), serialize(offset))` pairs. Fixed-width
values are serialized as their raw bytes. A `std::string` is serialized as its
`size_t` length followed by its bytes. `example.cpp` adds a `Person` value type
(age, then name) and a small `main`.

The model has one module per part of the system:

- `Codec` (`codec.dfy`): the serialize/deserialize overloads. The model fixes
  their widths: little-endian, `int` as 4 bytes in two's complement, `size_t`
  as 8 bytes, and the stream position as an 8-byte unsigned offset. On
  libstdc++ `sizeof(std::streampos)` is 16, so a real index pair is 20 bytes
  rather than the model's 12. A decoder takes a byte stream and
  returns the value and the rest of the stream, or `None` when the stream ends
  too early. A `Codec<T>` is the encode/decode pair a client supplies for a
  data type. `Lawful` says that decoding reads back exactly what encoding wrote.
- `IndexFile` (`index_file.dfy`): the pairs of the index file, loading them
  (`LoadEntries`), and the bytes a save writes for a given enumeration order
  (`SerializeIndex`). Save and load are proved inverse for every order.
- `DataFile` (`data_file.dfy`): records, reading a record at an offset
  (`ReadAt`), and the store invariant `WellIndexed`. The invariant says every
  indexed offset begins a whole record whose key field is that index key. The
  table a store holds (`Table`) is each indexed key with the value read at
  its offset. Lemmas show how insert and delete change that table.
- `Adb` (`adb.dfy`): the class `Schema`, with fields `index`, `data` (the
  data file's bytes) and `indexFile` (the index file's bytes, or `None` when
  it does not exist). The constructor `Open` loads the index in a loop and
  `Close` saves it in a loop over the keys, taken in any order. `Insert`,
  `Retrieve` and `Delete` update or read the fields in place. Each method states
  its new state and how it changes the table (`Contents`). Scenario methods
  drive a fresh store: insert then retrieve, duplicate rejection,
  delete then reinsert, a missing key, and close then reopen.
- `PersonDb` (`person.dfy`): the `Person` codec, its layout and round trip,
  and the `main` of `example.cpp`.

The specification and the code disagree in a few places, and the model
follows the code:
- Decoding never reports corrupt data. The C++ does not check whether a read
  succeeded. The model's decoders return `None` on a short stream. `Retrieve`
  then reports `ShortRead`; that outcome is not a promise the source makes.
- `retrieveRecord` never compares the key it reads with the requested id. The
  model does not compare them either (`DataFile.ReadIgnoresKey`). The invariant
  `WellIndexed` is what makes the key match.
- The source has only one error for failing to open the data file. It is
  thrown by retrieve and is a `false` result for insert.

## Model

| member | source | states |
|---|---|---|
| `Codec.EncodeLE` | ADB.cpp:38-41 | a value below 256^w is written as exactly w raw bytes, and those bytes decode back to the value |
| `Codec.EncodeDecodeLE` | ADB.cpp:49-52 | reading w raw bytes and writing the value back gives the same bytes, so the raw encoding is a bijection |
| `Codec.EncodeInt32` | ADB.cpp:38-41 | an `int` is written as sizeof(int) = 4 bytes |
| `Codec.DecodeInt32` | ADB.cpp:49-52 | reading an `int` fails exactly when fewer than 4 bytes remain; otherwise it consumes exactly 4 bytes |
| `Codec.Int32RoundTrip` | ADB.cpp:38-52 | deserialize of serialize(x) followed by any bytes gives x and leaves those bytes |
| `Codec.Int32Canonical` | ADB.cpp:49-52 | any 4 bytes are the encoding of the `int` they decode to |
| `Codec.EncodeU64` | ADB.cpp:44-45 | a `size_t` or stream position is written as 8 bytes |
| `Codec.DecodeU64` | ADB.cpp:55-56 | reading a `size_t` fails exactly when fewer than 8 bytes remain; otherwise it consumes exactly 8 bytes |
| `Codec.U64RoundTrip` | ADB.cpp:38-52 | deserialize of serialize(n) followed by any bytes gives n and leaves those bytes |
| `Codec.U64Canonical` | ADB.cpp:49-52 | any 8 bytes are the encoding of the value they decode to |
| `Codec.EncodeString` | ADB.cpp:43-47 | a string is written as an 8-byte length prefix followed by exactly its bytes |
| `Codec.DecodeString` | ADB.cpp:54-59 | reading a string fails on a stream shorter than its length prefix; a success consumes exactly the prefix and the string's bytes (with `Codec.StringRoundTrip` and `Codec.StringDecodeCanonical` it inverts `EncodeString`) |
| `Codec.StringRoundTrip` | ADB.cpp:43-59 | decode(encode(s) ++ rest) is (s, rest) |
| `Codec.StringDecodeCanonical` | ADB.cpp:54-59 | a string decode succeeds exactly when the stream holds the length prefix and that many bytes, and it splits off exactly encode(s) |
| `Codec.Int32CodecLawful` | ADB.cpp:38-52 | the `int` codec is lawful: it reads back what it wrote, whatever follows |
| `Codec.StringCodecLawful` | ADB.cpp:43-59 | the string codec is lawful |
| `IndexFile.EncodeEntry` | ADB.cpp:155-158 | one index pair takes the model's 4 + 8 = 12 bytes (the stream position fixed to 8 bytes) |
| `IndexFile.DecodeEntry` | ADB.cpp:137-140 | reading a pair fails exactly when fewer than 12 bytes remain, and otherwise consumes exactly 12 |
| `IndexFile.EntryRoundTrip` | ADB.cpp:137-158 | a pair written by save is read back by load as the same key and offset |
| `IndexFile.LoadEntries` | ADB.cpp:136-141 | the load loop never drops a key already in the index, and a file shorter than one pair adds nothing (with `IndexFile.LoadAppend` and `IndexFile.LoadSerialized` it inverts a save) |
| `IndexFile.LoadIndex` | ADB.cpp:127-144 | a store with no index file, or one shorter than a pair, starts with an empty index (`IndexFile.SaveLoadRoundTrip` gives what a saved file loads to) |
| `IndexFile.SerializeIndex` | ADB.cpp:155-158 | saving writes 12 bytes per enumerated key |
| `IndexFile.LoadAppend` | ADB.cpp:137-141 | reading one more pair after whole pairs sets that key to that offset and changes nothing else |
| `IndexFile.LoadSerialized` | ADB.cpp:127-161 | loading a saved file gives exactly the written keys, each with its offset in the index, in any order and even with repeats |
| `IndexFile.SaveLoadRoundTrip` | ADB.cpp:127-161 | for every enumeration order of the keys, load after save rebuilds the same key-to-offset map, and the file has 12 bytes per entry |
| `IndexFile.SavedImageLoads` | ADB.cpp:148-161 | whatever order the save used, loading its file rebuilds the index |
| `DataFile.RecordBytes` | ADB.cpp:79-81 | a record begins with the 4-byte encoding of its key |
| `DataFile.ReadAt` | ADB.cpp:103-112 | seeking to an offset and reading key then value fails only by reading past the end, and does so whenever fewer than 4 bytes follow the offset (with `DataFile.ReadRecordAt` and `DataFile.TableDomain` it returns the record's value) |
| `DataFile.ReadRecordAt` | ADB.cpp:103-112 | seeking to a whole record and reading key then value gives its value, and the key field decodes to its key |
| `DataFile.RecordAtAppend` | ADB.cpp:69-81 | appending to the data file leaves every record already written in place |
| `DataFile.TableDomain` | ADB.cpp:91-112 | under the invariant the table has exactly the indexed keys, and each indexed offset reads back as that key's value |
| `DataFile.InsertWellIndexed` | ADB.cpp:76-84 | appending a record and indexing it at the old file length keeps every index entry pointing at a record of its own key |
| `DataFile.TableInsert` | ADB.cpp:63-87 | a successful insert adds exactly (id, value) to the table, and every other key reads as before |
| `DataFile.TableInsertAt` | ADB.cpp:63-87 | the same, key by key: after the insert, id reads as the new value and every other key reads as before |
| `DataFile.ReadStable` | ADB.cpp:63-112 | an indexed record reads successfully, and reads the same after any later append |
| `DataFile.TableDelete` | ADB.cpp:117-123 | erasing an index entry keeps the invariant and removes exactly that key from the table |
| `DataFile.ReadIgnoresKey` | ADB.cpp:106-110 | retrieve does not compare keys: an entry for one key that points at another key's record yields that record's value |
| `Adb.Schema.Open` | ADB.cpp:15-18 | the constructor binds the files and loads the index; with no index file the index and the table start empty |
| `Adb.Schema.LoadIndexFromFile` | ADB.cpp:127-144 | the loop reads pairs until end of file into the index; with no index file the index is unchanged |
| `Adb.Schema.Insert` | ADB.cpp:63-87 | fails, changing nothing, exactly when the id is already indexed or the data file cannot be opened; otherwise appends encode(id) ++ encode(data), maps id to the old file length, and adds (id, data) to the table |
| `Adb.Schema.Retrieve` | ADB.cpp:91-113 | an absent id gives NotFound and an unopenable file gives CannotOpenDataFile; otherwise it reads the record at the indexed offset, and on a consistent store it returns the table's value |
| `Adb.Schema.Delete` | ADB.cpp:117-123 | returns true exactly when the id was indexed, removes only that key, leaves the data file alone and removes that key from the table |
| `Adb.Schema.SaveIndexToFile` | ADB.cpp:148-161 | on failure to open, the index file is unchanged; otherwise the file is the pairs of the index in some enumeration order, and loading it gives back the index |
| `Adb.Schema.Close` | ADB.cpp:20-22 | the destructor saves the index as above and ends the store's life |
| `Adb.Reopen` | ADB.cpp:15-22 | closing a consistent store and constructing a new one on the same files gives the same table without re-inserting anything |
| `Adb.InsertRetrieveScenario` | ADB.cpp:63-112 | on fresh files, insert(k, v) succeeds and retrieve(k) is v; a second insert(k, v2) fails and retrieve(k) is still v |
| `Adb.DeleteReinsertScenario` | ADB.cpp:63-123 | insert, then delete succeeds and retrieve is NotFound; reinsert succeeds at the offset after the old record and retrieve gives the new value |
| `Adb.MissingKeyScenario` | ADB.cpp:91-95 | on an empty store retrieve(42) fails with NotFound and neither file is written |
| `PersonDb.EncodePerson` | example.cpp:8-11 | a Person takes sizeof(int) + sizeof(size_t) + the name's length in bytes |
| `PersonDb.DecodePerson` | example.cpp:14-17 | reading a person fails on fewer than 4 + 8 bytes; a success consumes exactly the age, the length prefix and the name (with `PersonDb.PersonRoundTrip` and `PersonDb.PersonDecodeCanonical` it inverts `EncodePerson`) |
| `PersonDb.PersonLayout` | example.cpp:8-11 | the bytes are the age's 4 bytes, then the name's 8-byte length, then the name, in that order |
| `PersonDb.PersonRoundTrip` | example.cpp:8-17 | reading age then name gives back the person and leaves the rest of the stream |
| `PersonDb.PersonDecodeCanonical` | example.cpp:14-17 | a successful Person decode splits off exactly the encoding of the person it read |
| `PersonDb.PersonCodecLawful` | example.cpp:7-17 | the Person codec is lawful, so records can be read back to back without length metadata |
| `PersonDb.MainScenario` | example.cpp:20-25 | on fresh files, insertRecord(1, {10, "Bob"}) succeeds and retrieveRecord(1) has name "Bob" and age 10; inserting key 1 again fails and the record stays {10, "Bob"} |

## Left out

- File streams: the model has no file names. A file is the bytes it holds, and
  whether it opens is a boolean parameter of each operation that opens it.
- An absent data file is modelled as an empty one, and the model does not tie
  the `dataFileOpens` flag to whether the file exists. A caller that passes
  `false` for a missing file gets `CannotOpenDataFile`, as the source's
  retrieve throws. A caller that passes `true` for an empty data file behind a
  stale index gets `ShortRead`.
- Console messages (`std::cout`, `std::cerr`) are output only and are left out.
- Raw memory layout: the model fixes little-endian byte order and the widths
  4 (`int`) and 8 (`size_t`), and it fixes the stream position to an 8-byte
  unsigned offset. On libstdc++ `std::streampos` is 16 bytes: a signed 8-byte
  offset plus an 8-byte conversion state. So a real index pair is 20 bytes,
  not 12, and the conversion state is not modelled.
- `tellp()` in append mode: the recorded offset is the data file's length
  before the append, as the comment at ADB.cpp:76 intends.
- Short reads: the source never checks whether a read succeeded, and then
  returns whatever the partly filled value holds. The model's retrieve reports
  `ShortRead` instead. When an index file ends inside a pair, the source still
  stores the partly read pair; the model's load stops without it.
- `KeyType` is fixed to `int`, the only key type the repository uses. The
  generic fixed-width `serialize<T>` is modelled for `int`, `size_t` and the
  stream position only.
- `Adb.Schema.Insert`: requires the data file to be shorter than 2^64 bytes,
  the range of the model's unsigned 8-byte offset. A real signed
  `std::streamoff` stops at 2^63.
- Exceptions become `Result` values. The constructor and destructor become
  `Open` and `Close`.
- Strings are byte sequences. A `size_t` length that cannot be allocated
  (`std::bad_alloc` in `resize`) is not modelled.
- Concurrency, crash consistency and compaction: the source has no support
  for them.
