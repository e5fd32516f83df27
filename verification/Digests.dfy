/** Bytes, 32-byte hash values, and the two domain-separated hash functions of the log. */
module Digests {

  datatype Option<+T> = None | Some(value: T)

  datatype Result<+T, +E> = Ok(value: T) | Err(error: E)

  type Byte = b: int | 0 <= b < 256

  type Bytes32 = s: seq<Byte> | |s| == 32 witness seq(32, _ => 0)

  /** `unidpp_model::Hash`: a SHA-256 value. Entry commitments are hashes too. */
  datatype Hash = Hash(bytes: Bytes32)

  /** The leaf and node hashes. They are arbitrary total functions everywhere in this project:
      no result depends on the domain-separation constants or on injectivity. */
  datatype Hashing = Hashing(leaf: Hash -> Hash, node: (Hash, Hash) -> Hash)

  /** A pair of different hash inputs. */
  datatype Collision =
    | LeafLeaf(c1: Hash, c2: Hash)
    | NodeNode(l1: Hash, r1: Hash, l2: Hash, r2: Hash)
    | LeafNode(c: Hash, l: Hash, r: Hash)
  {
    /** The two inputs differ and hash to the same value. */
    predicate Valid(h: Hashing) {
      match this
      case LeafLeaf(c1, c2) => c1 != c2 && h.leaf(c1) == h.leaf(c2)
      case NodeNode(l1, r1, l2, r2) => (l1, r1) != (l2, r2) && h.node(l1, r1) == h.node(l2, r2)
      case LeafNode(c, l, r) => h.leaf(c) == h.node(l, r)
    }

    /** A collision inside one hash domain: not a leaf against a node. */
    predicate SameDomain() {
      !LeafNode?
    }
  }
}
