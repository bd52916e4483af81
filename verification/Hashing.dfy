/** What the tools use of SHA-256. */
module Hashing {

  type Hash = string -> string

  predicate IsHex(c: char) { '0' <= c <= '9' || 'a' <= c <= 'f' }

  /** Different texts give different nonempty hexadecimal digests. */
  ghost predicate GoodHash(hash: Hash) {
    && (forall a, b :: hash(a) == hash(b) ==> a == b)
    && (forall a :: hash(a) != "")
    && (forall a, c | c in hash(a) :: IsHex(c))
  }

  lemma HexHasNone(hash: Hash, text: string, c: char)
    requires GoodHash(hash) && !IsHex(c)
    ensures c !in hash(text)
  {
  }
}
