/**
 The key layout of the Redis store: one hash per (info hash, role, family), told
 apart by a fixed prefix, and the prefix tests by which the garbage collector
 recovers the role of a key it reads back from CHI_I.
 */
module RedisKeys {
  import opened ByteStrings

  const IH4_SEEDER: Bytes := "CHI_S4_"
  const IH6_SEEDER: Bytes := "CHI_S6_"
  const IH4_LEECHER: Bytes := "CHI_L4_"
  const IH6_LEECHER: Bytes := "CHI_L6_"

  function Prefix(seeder: bool, v6: bool): (p: Bytes)
    ensures |p| == 7
  {
    match (seeder, v6)
    case (true, true) => IH6_SEEDER
    case (false, true) => IH6_LEECHER
    case (true, false) => IH4_SEEDER
    case (false, false) => IH4_LEECHER
  }

  function InfoHashKey(infoHash: Bytes, seeder: bool, v6: bool): (key: Bytes)
  {
    Prefix(seeder, v6) + infoHash
  }

  predicate HasPrefix(s: Bytes, prefix: Bytes) {
    prefix <= s
  }

  /** gc's first test on a record of CHI_I. */
  predicate SeederRecord(s: Bytes) {
    HasPrefix(s, IH4_SEEDER) || HasPrefix(s, IH6_SEEDER)
  }

  /** gc's second test, made when the first one fails; without either, the record is skipped. */
  predicate LeecherRecord(s: Bytes) {
    HasPrefix(s, IH4_LEECHER) || HasPrefix(s, IH6_LEECHER)
  }

  /** What a Redis key stands for: the peers of a swarm, or nothing the store wrote. */
  datatype Key =
    | Peers(infoHash: Bytes, seeder: bool, v6: bool)
    | Foreign(record: Bytes)
  {
    predicate Valid() {
      Foreign? ==> !SeederRecord(record) && !LeecherRecord(record)
    }
  }

  function Render(k: Key): Bytes {
    match k
    case Peers(infoHash, seeder, v6) => InfoHashKey(infoHash, seeder, v6)
    case Foreign(record) => record
  }

  function Classify(s: Bytes): (k: Key) {
    if SeederRecord(s) then Peers(s[7..], true, HasPrefix(s, IH6_SEEDER))
    else if LeecherRecord(s) then Peers(s[7..], false, HasPrefix(s, IH6_LEECHER))
    else Foreign(s)
  }

  /**
   The layout is a bijection between byte strings and keys. In particular gc recovers
   exactly the role a key was built with, whatever the info hash.
   */
  lemma ClassifyRender(k: Key)
    requires k.Valid()
    ensures Classify(Render(k)) == k
  {
    if k.Peers? {
      var s := Render(k);
      assert s[4] == Prefix(k.seeder, k.v6)[4] && s[5] == Prefix(k.seeder, k.v6)[5];
      assert Prefix(k.seeder, k.v6) <= s && s[7..] == k.infoHash;
    }
  }

  lemma RenderClassify(s: Bytes)
    ensures Classify(s).Valid() && Render(Classify(s)) == s
  {
    var k := Classify(s);
    if k.Peers? {
      assert Prefix(k.seeder, k.v6) <= s;
    }
  }

  /** Different (hash, role, family) triples never share a Redis hash. */
  lemma InfoHashKeyInjective(h: Bytes, seeder: bool, v6: bool, h': Bytes, seeder': bool, v6': bool)
    requires InfoHashKey(h, seeder, v6) == InfoHashKey(h', seeder', v6')
    ensures h == h' && seeder == seeder' && v6 == v6'
  {
    ClassifyRender(Peers(h, seeder, v6));
    ClassifyRender(Peers(h', seeder', v6'));
  }
}
