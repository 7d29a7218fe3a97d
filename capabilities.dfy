/**
 * The server capability bitset a node records from its validator (the
 * features field of Node): one bit per capability, tested with a mask.
 */
module Capabilities {

  const HAS_GEO: bv32 := 1 << 0
  const HAS_DOUBLE: bv32 := 1 << 1
  const HAS_BATCH_INDEX: bv32 := 1 << 2
  const HAS_REPLICAS_ALL: bv32 := 1 << 3
  const HAS_PEERS: bv32 := 1 << 4

  /** The capabilities a server can advertise. */
  datatype Feature = Geo | Double | BatchIndex | ReplicasAll | Peers

  const AllFeatures: set<Feature> := {Geo, Double, BatchIndex, ReplicasAll, Peers}

  function Bit(f: Feature): bv32
  {
    match f
    case Geo => HAS_GEO
    case Double => HAS_DOUBLE
    case BatchIndex => HAS_BATCH_INDEX
    case ReplicasAll => HAS_REPLICAS_ALL
    case Peers => HAS_PEERS
  }

  /** The mask test every capability accessor of Node performs. */
  predicate Has(features: bv32, f: Feature)
  {
    features & Bit(f) != 0
  }

  /** The bitset that advertises exactly the capabilities in s. */
  function Encode(s: set<Feature>): bv32
  {
    (if Geo in s then HAS_GEO else 0)
    | (if Double in s then HAS_DOUBLE else 0)
    | (if BatchIndex in s then HAS_BATCH_INDEX else 0)
    | (if ReplicasAll in s then HAS_REPLICAS_ALL else 0)
    | (if Peers in s then HAS_PEERS else 0)
  }

  /** The capabilities a bitset advertises. */
  function Decode(features: bv32): (s: set<Feature>)
    ensures forall f :: f in s <==> Has(features, f)
  {
    set f | f in AllFeatures && Has(features, f)
  }

  /** Every capability occupies a bit of its own. */
  lemma BitsDistinct(f: Feature, g: Feature)
    ensures Bit(f) & Bit(g) != 0 <==> f == g
  {
  }

  /** A bitset built from a set of capabilities advertises exactly that set. */
  lemma DecodeEncode(s: set<Feature>)
    ensures Decode(Encode(s)) == s
  {
    forall f ensures Has(Encode(s), f) <==> f in s {
      HasEncode(s, f);
    }
  }

  lemma HasEncode(s: set<Feature>, f: Feature)
    ensures Has(Encode(s), f) <==> f in s
  {
  }

  /** Bits other than the five capability bits carry no meaning: re-encoding keeps only the known bits. */
  lemma EncodeDecode(features: bv32)
    ensures Encode(Decode(features)) == features & 0x1f
  {
  }
}
