/**
 * Consensus digest items of a block header: the engine identifiers, the
 * dispatch that decodes a consensus message by its engine identifier, the
 * type tests on a decoded message and the construction of a consensus item
 * from a typed payload. SCALE encoding and decoding are foreign code; they
 * enter as the functions of a `Codec` value.
 */
module Digest {
  import opened Wrappers
  import opened Buffer

  /** A 4-byte consensus engine identifier. */
  type ConsensusEngineId = id: Bytes | |id| == 4 witness [0, 0, 0, 0]

  const BabeEngineId: ConsensusEngineId := [0x42, 0x41, 0x42, 0x45]
  const GrandpaEngineId: ConsensusEngineId := [0x46, 0x52, 0x4E, 0x4B]
  const UnsupportedEngineIdPol1: ConsensusEngineId := [0x50, 0x4F, 0x4C, 0x31]
  const UnsupportedEngineIdBeef: ConsensusEngineId := [0x42, 0x45, 0x45, 0x46]

  /** The identifiers that the dispatcher handles. */
  predicate IsKnownEngineId(id: ConsensusEngineId)
  {
    id == BabeEngineId || id == GrandpaEngineId || id == UnsupportedEngineIdPol1 || id == UnsupportedEngineIdBeef
  }

  /** The identifiers are the ASCII spellings of BABE, FRNK, POL1 and BEEF, and they are distinct. */
  lemma EngineIdsSpellNames()
    ensures BabeEngineId == Literal("BABE")
    ensures GrandpaEngineId == Literal("FRNK")
    ensures UnsupportedEngineIdPol1 == Literal("POL1")
    ensures UnsupportedEngineIdBeef == Literal("BEEF")
    ensures BabeEngineId != GrandpaEngineId && BabeEngineId != UnsupportedEngineIdPol1
    ensures BabeEngineId != UnsupportedEngineIdBeef && GrandpaEngineId != UnsupportedEngineIdPol1
    ensures GrandpaEngineId != UnsupportedEngineIdBeef && UnsupportedEngineIdPol1 != UnsupportedEngineIdBeef
  {
    assert BabeEngineId[1] != GrandpaEngineId[1];
  }

  /**
   * The payload types that a digest can carry. Their fields are SCALE data
   * that this model keeps opaque; only the type of a payload matters here.
   */
  datatype ItemKind = Unused | NextEpochData | NextConfigData | OnDisabled
                    | ScheduledChange | ForcedChange | Pause | Resume

  datatype Item = Item(kind: ItemKind, body: Bytes)

  /** The alternatives of the BABE digest variant. */
  predicate IsBabeKind(k: ItemKind)
  {
    k == Unused || k == NextEpochData || k == OnDisabled || k == NextConfigData
  }

  /** The alternatives of the GRANDPA digest variant. */
  predicate IsGrandpaKind(k: ItemKind)
  {
    k == Unused || k == ScheduledChange || k == ForcedChange || k == OnDisabled || k == Pause || k == Resume
  }

  type BabeDigest = i: Item | IsBabeKind(i.kind) witness Item(Unused, [])
  type GrandpaDigest = i: Item | IsGrandpaKind(i.kind) witness Item(Unused, [])

  datatype Payload =
    | Babe(babe: BabeDigest)
    | Grandpa(grandpa: GrandpaDigest)
    | UnsupportedPol1
    | UnsupportedBeef

  datatype DecodedConsensusMessage = DecodedConsensusMessage(engineId: ConsensusEngineId, digest: Payload)

  /** The error of a failed SCALE decoding, passed through unchanged. */
  datatype DecodeError = DecodeError(code: nat)

  /** The foreign SCALE functions for the digest variants. */
  datatype Codec = Codec(
    decodeBabe: Bytes -> Result<BabeDigest, DecodeError>,
    decodeGrandpa: Bytes -> Result<GrandpaDigest, DecodeError>,
    decodeTag: Bytes -> Result<(), DecodeError>,
    encodeBabe: BabeDigest -> Bytes,
    encodeGrandpa: GrandpaDigest -> Bytes)

  /** Decoding undoes encoding for both digest variants. */
  ghost predicate RoundTrips(codec: Codec)
  {
    && (forall d: BabeDigest :: codec.decodeBabe(codec.encodeBabe(d)) == Ok(d))
    && (forall d: GrandpaDigest :: codec.decodeGrandpa(codec.encodeGrandpa(d)) == Ok(d))
  }

  /**
   * `DecodedConsensusMessage::create`: decodes `data` as the digest type of
   * the engine. Any other engine identifier is a failed assertion in the
   * source, hence the precondition.
   */
  function Create(engineId: ConsensusEngineId, data: Bytes, codec: Codec): (r: Result<DecodedConsensusMessage, DecodeError>)
    requires IsKnownEngineId(engineId)
    ensures r.Ok? ==> r.value.engineId == engineId && WellFormed(r.value)
    ensures engineId == BabeEngineId ==>
      r == (match codec.decodeBabe(data)
            case Ok(d) => Ok(DecodedConsensusMessage(engineId, Babe(d)))
            case Err(e) => Err(e))
    ensures engineId == GrandpaEngineId ==>
      r == (match codec.decodeGrandpa(data)
            case Ok(d) => Ok(DecodedConsensusMessage(engineId, Grandpa(d)))
            case Err(e) => Err(e))
    ensures engineId == UnsupportedEngineIdPol1 ==>
      r == (if codec.decodeTag(data).Ok? then Ok(DecodedConsensusMessage(engineId, UnsupportedPol1))
            else Err(codec.decodeTag(data).error))
    ensures engineId == UnsupportedEngineIdBeef ==>
      r == (if codec.decodeTag(data).Ok? then Ok(DecodedConsensusMessage(engineId, UnsupportedBeef))
            else Err(codec.decodeTag(data).error))
  {
    EngineIdsSpellNames();
    if engineId == BabeEngineId then
      var payload :- codec.decodeBabe(data);
      Ok(DecodedConsensusMessage(engineId, Babe(payload)))
    else if engineId == GrandpaEngineId then
      var payload :- codec.decodeGrandpa(data);
      Ok(DecodedConsensusMessage(engineId, Grandpa(payload)))
    else if engineId == UnsupportedEngineIdPol1 then
      var _ :- codec.decodeTag(data);
      Ok(DecodedConsensusMessage(engineId, UnsupportedPol1))
    else
      var _ :- codec.decodeTag(data);
      Ok(DecodedConsensusMessage(engineId, UnsupportedBeef))
  }

  /** The payload alternative agrees with the engine identifier, as `create` guarantees. */
  predicate WellFormed(m: DecodedConsensusMessage)
  {
    && (m.engineId == BabeEngineId <==> m.digest.Babe?)
    && (m.engineId == GrandpaEngineId <==> m.digest.Grandpa?)
    && (m.engineId == UnsupportedEngineIdPol1 <==> m.digest.UnsupportedPol1?)
    && (m.engineId == UnsupportedEngineIdBeef <==> m.digest.UnsupportedBeef?)
  }

  /**
   * `isBabeDigestOf<T>`: the engine is BABE and the payload holds a `T`.
   * Reading the BABE payload of a message whose payload is of another
   * alternative throws in the source, hence the precondition.
   */
  function IsBabeDigestOf(m: DecodedConsensusMessage, kind: ItemKind): (r: bool)
    requires m.engineId == BabeEngineId ==> m.digest.Babe?
    ensures r ==> m.engineId == BabeEngineId && m.digest.Babe? && m.digest.babe.kind == kind
    ensures m.engineId == BabeEngineId && m.digest.babe.kind == kind ==> r
  {
    m.engineId == BabeEngineId && m.digest.babe.kind == kind
  }

  /** `isGrandpaDigestOf<T>`: the engine is GRANDPA and the payload holds a `T`. */
  function IsGrandpaDigestOf(m: DecodedConsensusMessage, kind: ItemKind): (r: bool)
    requires m.engineId == GrandpaEngineId ==> m.digest.Grandpa?
    ensures r ==> m.engineId == GrandpaEngineId && m.digest.Grandpa? && m.digest.grandpa.kind == kind
    ensures m.engineId == GrandpaEngineId && m.digest.grandpa.kind == kind ==> r
  {
    m.engineId == GrandpaEngineId && m.digest.grandpa.kind == kind
  }

  /** A decoded message answers at most one family of type tests. */
  lemma TypeTestsExclusive(engineId: ConsensusEngineId, data: Bytes, codec: Codec, k1: ItemKind, k2: ItemKind)
    requires IsKnownEngineId(engineId) && Create(engineId, data, codec).Ok?
    ensures var m := Create(engineId, data, codec).value;
      !(IsBabeDigestOf(m, k1) && IsGrandpaDigestOf(m, k2))
  {
    EngineIdsSpellNames();
  }

  /** The fields shared by the pre-runtime, consensus and seal digest items. */
  datatype DigestItemCommon = DigestItemCommon(engineId: ConsensusEngineId, data: Bytes)

  /** `DigestItemCommon::operator==`: equal engine identifiers and equal data. */
  function Equal(a: DigestItemCommon, b: DigestItemCommon): (r: bool)
    ensures r <==> a == b
  {
    a.engineId == b.engineId && ViewEquals(a.data, b.data)
  }

  /** The engine that a payload type belongs to in the `Consensus` constructor. */
  predicate IsConstructible(a: Item)
  {
    a.kind != Unused
  }

  /**
   * `Consensus(const A &)`: BABE for epoch and configuration data, GRANDPA
   * for authority-set changes, disabling, pause and resume; the data is the
   * SCALE encoding of the payload in the engine's digest variant.
   */
  function Consensus(a: Item, codec: Codec): (c: DigestItemCommon)
    requires IsConstructible(a)
    ensures a.kind == NextEpochData || a.kind == NextConfigData ==>
      c.engineId == BabeEngineId && c.data == codec.encodeBabe(a)
    ensures a.kind in {ScheduledChange, ForcedChange, OnDisabled, Pause, Resume} ==>
      c.engineId == GrandpaEngineId && c.data == codec.encodeGrandpa(a)
  {
    if a.kind == NextEpochData || a.kind == NextConfigData then
      DigestItemCommon(BabeEngineId, codec.encodeBabe(a))
    else
      DigestItemCommon(GrandpaEngineId, codec.encodeGrandpa(a))
  }

  /** `Consensus::decode`: the dispatch applied to the item's own engine identifier and data. */
  function Decode(c: DigestItemCommon, codec: Codec): (r: Result<DecodedConsensusMessage, DecodeError>)
    requires IsKnownEngineId(c.engineId)
    ensures r.Ok? ==> r.value.engineId == c.engineId
  {
    Create(c.engineId, c.data, codec)
  }

  /**
   * With a codec whose decoding undoes its encoding, decoding a constructed
   * consensus item gives back the payload in the right digest variant, and
   * exactly the matching type test holds.
   */
  lemma ConsensusDecodeRoundTrip(a: Item, codec: Codec)
    requires IsConstructible(a) && RoundTrips(codec)
    ensures IsKnownEngineId(Consensus(a, codec).engineId)
    ensures var r := Decode(Consensus(a, codec), codec);
      && r.Ok?
      && (a.kind == NextEpochData || a.kind == NextConfigData ==>
            r.value.digest == Babe(a) && IsBabeDigestOf(r.value, a.kind) && !IsGrandpaDigestOf(r.value, a.kind))
      && (a.kind !in {NextEpochData, NextConfigData} ==>
            r.value.digest == Grandpa(a) && IsGrandpaDigestOf(r.value, a.kind) && !IsBabeDigestOf(r.value, a.kind))
  {
    EngineIdsSpellNames();
    if a.kind == NextEpochData || a.kind == NextConfigData {
      var d: BabeDigest := a;
      assert codec.decodeBabe(codec.encodeBabe(d)) == Ok(d);
    } else {
      var d: GrandpaDigest := a;
      assert codec.decodeGrandpa(codec.encodeGrandpa(d)) == Ok(d);
    }
  }
}
