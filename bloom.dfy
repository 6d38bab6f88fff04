/**
 * The Bloom filter of bloom/src/lib.rs: m bits, and k + 1 hash functions,
 * the i-th of which takes byte i of the element's SHA3-256 digest modulo m.
 * The digest function is a parameter; a panic is a None result.
 */
module Bloom {
  import opened Wrappers

  /** A SHA3-256 digest: 32 bytes. */
  type Digest = d: seq<bv8> | |d| == 32 witness seq(32, _ => 0 as bv8)

  /**
   * `hash_bloom`: byte i of the digest modulo m; i must be below 32 (the
   * assertion panics otherwise), and the index is always a position of the
   * bit vector.
   */
  function HashBloom(digest: string -> Digest, elem: string, i: nat, m: nat): (r: Option<nat>)
    requires m > 0
    ensures r.None? <==> i >= 32
    ensures r.Some? ==> r.value < m
  {
    if i >= 32 then None else Some(digest(elem)[i] as nat % m)
  }

  /** The bit indices of an element under all hash functions, or None if one of them panics. */
  function Indices(digest: string -> Digest, fns: seq<nat>, elem: string, m: nat): (r: Option<seq<nat>>)
    requires m > 0
    ensures r.None? <==> exists j :: 0 <= j < |fns| && fns[j] >= 32
    ensures r.Some? ==> |r.value| == |fns|
    ensures r.Some? ==> forall j :: 0 <= j < |fns| ==> Some(r.value[j]) == HashBloom(digest, elem, fns[j], m)
  {
    if |fns| == 0 then Some([])
    else
      var idx :- HashBloom(digest, elem, fns[0], m);
      var rest :- Indices(digest, fns[1..], elem, m);
      Some([idx] + rest)
  }

  /** The bits with every listed index set. */
  function SetBits(bits: seq<bool>, idxs: seq<nat>): (r: seq<bool>)
    ensures |r| == |bits|
    ensures forall j :: 0 <= j < |bits| ==> r[j] == (bits[j] || j in idxs)
  {
    seq(|bits|, j requires 0 <= j < |bits| => bits[j] || j in idxs)
  }

  /** Setting bits never clears one, and setting them again changes nothing. */
  lemma SetBitsMonotoneIdempotent(bits: seq<bool>, idxs: seq<nat>)
    ensures forall j :: 0 <= j < |bits| && bits[j] ==> SetBits(bits, idxs)[j]
    ensures SetBits(SetBits(bits, idxs), idxs) == SetBits(bits, idxs)
  {
  }

  /**
   * What `not_in` answers, scanning the hash functions from the j-th on:
   * true at the first one whose bit is clear, a panic at the first one that
   * panics, false when all bits are set.
   */
  function NotInFrom(digest: string -> Digest, fns: seq<nat>, bits: seq<bool>, elem: string, j: nat): Option<bool>
    requires |bits| > 0 && j <= |fns|
    decreases |fns| - j
  {
    if j == |fns| then Some(false)
    else
      var idx :- HashBloom(digest, elem, fns[j], |bits|);
      if !bits[idx] then Some(true) else NotInFrom(digest, fns, bits, elem, j + 1)
  }

  /** Some index from the j-th on has a clear bit. */
  predicate SomeBitClear(bits: seq<bool>, idxs: seq<nat>, j: nat) {
    exists t :: j <= t < |idxs| && idxs[t] < |bits| && !bits[idxs[t]]
  }

  /**
   * When every hash function is usable, `not_in` is true exactly when some
   * hash index of the element has a clear bit.
   */
  lemma {:induction false} NotInMeaning(digest: string -> Digest, fns: seq<nat>, bits: seq<bool>, elem: string,
                                        idxs: seq<nat>, j: nat)
    requires |bits| > 0 && j <= |fns|
    requires Indices(digest, fns, elem, |bits|) == Some(idxs)
    ensures NotInFrom(digest, fns, bits, elem, j) == Some(SomeBitClear(bits, idxs, j))
    decreases |fns| - j
  {
    if j < |fns| {
      NotInMeaning(digest, fns, bits, elem, idxs, j + 1);
      assert HashBloom(digest, elem, fns[j], |bits|) == Some(idxs[j]);
      assert SomeBitClear(bits, idxs, j) <==> !bits[idxs[j]] || SomeBitClear(bits, idxs, j + 1);
    }
  }

  /**
   * No false negatives: once an element's bits are set, `not_in` says
   * false for it, whatever else is set later.
   */
  lemma NoFalseNegatives(digest: string -> Digest, fns: seq<nat>, bits: seq<bool>, later: seq<bool>, elem: string)
    requires |bits| > 0 && |later| == |bits|
    requires Indices(digest, fns, elem, |bits|).Some?
    requires forall j :: 0 <= j < |bits| && SetBits(bits, Indices(digest, fns, elem, |bits|).value)[j] ==> later[j]
    ensures NotInFrom(digest, fns, later, elem, 0) == Some(false)
  {
    var idxs := Indices(digest, fns, elem, |bits|).value;
    NotInMeaning(digest, fns, later, elem, idxs, 0);
    forall t | 0 <= t < |fns|
      ensures later[idxs[t]]
    {
      assert HashBloom(digest, elem, fns[t], |bits|) == Some(idxs[t]);
      assert idxs[t] in idxs;
    }
  }

  class BloomFilter {
    var bits: array<bool>
    /** The hash functions `hash_fns`, each given by the digest byte it takes. */
    var hashFns: seq<nat>
    const digest: string -> Digest

    ghost predicate Valid()
      reads this
    {
      bits.Length > 0
    }

    /** `new`: m clear bits and the hash functions 0 to k; k must be positive and below m. */
    constructor (m: nat, k: nat, digest: string -> Digest)
      requires 0 < k < m
      ensures Valid() && fresh(bits)
      ensures bits.Length == m && forall j :: 0 <= j < m ==> !bits[j]
      ensures hashFns == seq(k + 1, i => i)
      ensures this.digest == digest
    {
      var fns: seq<nat> := [];
      var i := 0;
      while i <= k
        invariant 0 <= i <= k + 1
        invariant fns == seq(i, t => t)
      {
        fns := fns + [i];
        i := i + 1;
      }
      bits := new bool[m](_ => false);
      hashFns := fns;
      this.digest := digest;
    }

    /**
     * `insert`: all indices are computed first, so a hash function that
     * panics leaves the bits as they were; otherwise exactly the element's
     * bits are set in addition to those already set.
     */
    method Insert(elem: string) returns (ok: bool)
      requires Valid()
      modifies bits
      ensures ok == Indices(digest, hashFns, elem, bits.Length).Some?
      ensures !ok ==> bits[..] == old(bits[..])
      ensures ok ==> bits[..] == SetBits(old(bits[..]), Indices(digest, hashFns, elem, bits.Length).value)
    {
      var indices := Indices(digest, hashFns, elem, bits.Length);
      if indices.None? {
        return false;
      }
      var idxs := indices.value;
      var t := 0;
      while t < |idxs|
        invariant 0 <= t <= |idxs|
        invariant bits[..] == SetBits(old(bits[..]), idxs[..t])
      {
        assert HashBloom(digest, elem, hashFns[t], bits.Length) == Some(idxs[t]);
        bits[idxs[t]] := true;
        assert idxs[..t + 1] == idxs[..t] + [idxs[t]];
        t := t + 1;
      }
      assert idxs[..t] == idxs;
      return true;
    }

    /** `not_in`: scans the hash functions, answering true at the first clear bit. */
    method NotIn(elem: string) returns (r: Option<bool>)
      requires Valid()
      ensures r == NotInFrom(digest, hashFns, bits[..], elem, 0)
    {
      var t := 0;
      while t < |hashFns|
        invariant 0 <= t <= |hashFns|
        invariant NotInFrom(digest, hashFns, bits[..], elem, 0) == NotInFrom(digest, hashFns, bits[..], elem, t)
      {
        var idx := HashBloom(digest, elem, hashFns[t], bits.Length);
        if idx.None? {
          return None;
        }
        if !bits[idx.value] {
          return Some(true);
        }
        t := t + 1;
      }
      return Some(false);
    }
  }

  /** Inserting an element and then asking for it: `not_in` is false. */
  method InsertThenNotIn(bf: BloomFilter, elem: string) returns (r: Option<bool>)
    requires bf.Valid()
    requires forall j :: 0 <= j < |bf.hashFns| ==> bf.hashFns[j] < 32
    modifies bf.bits
    ensures r == Some(false)
  {
    var ok := bf.Insert(elem);
    NoFalseNegatives(bf.digest, bf.hashFns, old(bf.bits[..]), bf.bits[..], elem);
    r := bf.NotIn(elem);
  }
}
