/** The client of example.cpp: a `Person` value type with its codec, and the
    store `Schema<int, Person>` driven through insert and retrieve. */
module PersonDb {
  import opened Wrappers
  import opened Codec
  import opened DataFile
  import opened Adb

  datatype Person = Person(age: Int32, name: String)

  /** The age, then the name. */
  function EncodePerson(p: Person): (r: seq<Byte>)
    ensures |r| == INT_BYTES + WORD_BYTES + |p.name|
  {
    EncodeInt32(p.age) + EncodeString(p.name)
  }

  /** Reads the age, then the name, in the order they were written. */
  function DecodePerson(s: seq<Byte>): (r: Option<(Person, seq<Byte>)>)
    ensures |s| < INT_BYTES + WORD_BYTES ==> r.None?
    ensures r.Some? ==> var n := INT_BYTES + WORD_BYTES + |r.value.0.name|;
      n <= |s| && r.value.1 == s[n..]
  {
    match DecodeInt32(s)
    case None => None
    case Some((age, rest)) =>
      match DecodeString(rest)
      case None => None
      case Some((name, rest')) => Some((Person(age, name), rest'))
  }

  function PersonCodec(): Codec<Person>
  {
    Codec(EncodePerson, DecodePerson)
  }

  /** The bytes of a person: four bytes of age, the eight-byte length of the
      name, the name. */
  lemma PersonLayout(p: Person)
    ensures EncodePerson(p)[..INT_BYTES] == EncodeInt32(p.age)
    ensures EncodePerson(p)[INT_BYTES..INT_BYTES + WORD_BYTES] == EncodeU64(|p.name|)
    ensures EncodePerson(p)[INT_BYTES + WORD_BYTES..] == p.name
  {
    var e := EncodePerson(p);
    assert e == EncodeInt32(p.age) + (EncodeU64(|p.name|) + p.name);
    assert e[INT_BYTES..] == EncodeU64(|p.name|) + p.name;
  }

  lemma PersonRoundTrip(p: Person, rest: seq<Byte>)
    ensures DecodePerson(EncodePerson(p) + rest) == Some((p, rest))
  {
    var a, n := EncodeInt32(p.age), EncodeString(p.name);
    assert EncodePerson(p) + rest == a + (n + rest);
    Int32RoundTrip(p.age, n + rest);
    StringRoundTrip(p.name, rest);
  }

  /** A successful decode splits off exactly the encoding of what it read. */
  lemma PersonDecodeCanonical(s: seq<Byte>)
    requires DecodePerson(s).Some?
    ensures s == EncodePerson(DecodePerson(s).value.0) + DecodePerson(s).value.1
  {
    Int32Canonical(s);
    var rest := s[INT_BYTES..];
    StringDecodeCanonical(rest);
    assert s == s[..INT_BYTES] + rest;
  }

  lemma PersonCodecLawful()
    ensures Lawful(PersonCodec())
  {
    forall p: Person, rest: seq<Byte> {
      PersonRoundTrip(p, rest);
    }
  }

  /** "Bob" */
  const BOB: String := [0x42, 0x6F, 0x62]
  /** "Al" */
  const AL: String := [0x41, 0x6C]

  /** main: on fresh files, insert 1 -> {10, "Bob"} and read back a person
      named "Bob" aged 10; a second insert under key 1 is refused and the
      record stays {10, "Bob"}. */
  method MainScenario() returns (inserted: bool, first: Result<Person, StoreError>,
                                 reinserted: bool, second: Result<Person, StoreError>)
    ensures inserted && first.Success? && first.value.name == BOB && first.value.age == 10
    ensures !reinserted && second == Success(Person(10, BOB))
  {
    PersonCodecLawful();
    inserted, first, reinserted, second := InsertRetrieveScenario(PersonCodec(), 1, Person(10, BOB), Person(20, AL));
  }
}
