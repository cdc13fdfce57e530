// The Bloom filter in front of the problem cache: m bits packed into 64-bit
// words and k hash functions, which stay uninterpreted.
module BloomFilter {

  function Mask(j: nat): bv64
    requires j < 64
  {
    (1 as bv64) << (j as bv6)
  }

  lemma OrMask(x: bv64, i: bv6, j: bv6)
    ensures (x | ((1 as bv64) << i)) & ((1 as bv64) << j) != 0 <==> i == j || x & ((1 as bv64) << j) != 0
  {
  }

  lemma SameShift(i: nat, j: nat)
    requires i < 64 && j < 64 && i as bv6 == j as bv6
    ensures i == j
  {
    RoundTrip(i);
    RoundTrip(j);
  }

  lemma RoundTrip(i: nat)
    requires i < 64
    ensures (i as bv6) as nat == i
  {
  }

  function WithBit(x: bv64, i: nat): bv64
    requires i < 64
  {
    x | Mask(i)
  }

  // Setting bit i of a word sets bit i and nothing else.
  lemma SetBit(x: bv64, i: nat, j: nat)
    requires i < 64 && j < 64
    ensures WithBit(x, i) & Mask(j) != 0 <==> i == j || x & Mask(j) != 0
  {
    OrMask(x, i as bv6, j as bv6);
    if i as bv6 == j as bv6 {
      SameShift(i, j);
    }
  }

  predicate BitOf(words: seq<bv64>, p: nat)
    requires p < 64 * |words|
  {
    words[p / 64] & Mask(p % 64) != 0
  }

  function BitsOf(words: seq<bv64>): set<nat> { set p | 0 <= p < 64 * |words| && BitOf(words, p) }

  lemma SetPosition(words: seq<bv64>, p: nat)
    requires p < 64 * |words|
    ensures BitsOf(words[p / 64 := WithBit(words[p / 64], p % 64)]) == BitsOf(words) + {p}
  {
    var after := words[p / 64 := WithBit(words[p / 64], p % 64)];
    forall q: nat | q < 64 * |words| ensures BitOf(after, q) <==> BitOf(words, q) || q == p {
      if q / 64 == p / 64 {
        SetBit(words[p / 64], p % 64, q % 64);
      }
    }
  }

  lemma ZeroWords(words: seq<bv64>)
    requires forall i :: 0 <= i < |words| ==> words[i] == 0
    ensures BitsOf(words) == {}
  {
    forall p: nat | p < 64 * |words| ensures !BitOf(words, p) {
      assert words[p / 64] == 0;
    }
  }

  type Hash<!T> = (T, nat) -> nat

  // The positions of the first k hashes of an element.
  function Positions<T>(hash: Hash<T>, x: T, k: nat, m: nat): set<nat>
    requires m > 0
  {
    set i | 0 <= i < k :: hash(x, i) % m
  }

  class Filter<T> {
    const m: nat
    const k: nat
    const hash: Hash<T>
    var bits: array<bv64>
    var n: nat

    ghost predicate Valid()
      reads this
    {
      m > 0 && m == 64 * bits.Length
    }

    ghost function Bits(): set<nat>
      reads this, bits
    {
      BitsOf(bits[..])
    }

    constructor (words: nat, k: nat, hash: Hash<T>)
      requires words > 0
      ensures Valid() && fresh(bits) && Bits() == {} && n == 0
      ensures m == 64 * words && this.k == k && this.hash == hash
    {
      m, this.k, this.hash := 64 * words, k, hash;
      bits := new bv64[words](_ => 0);
      n := 0;
      new;
      ZeroWords(bits[..]);
    }

    method Add(data: T)
      requires Valid()
      modifies `n, bits
      ensures Valid() && Bits() == old(Bits()) + Positions(hash, data, k, m)
      ensures n == old(n) + 1
    {
      for i := 0 to k
        invariant Valid() && n == old(n)
        invariant Bits() == old(Bits()) + Positions(hash, data, i, m)
      {
        ghost var done := Positions(hash, data, i, m);
        MorePositions(hash, data, i, m);
        SetBitAt(hash(data, i) % m);
        assert Positions(hash, data, i + 1, m) == done + {hash(data, i) % m};
      }
      n := n + 1;
    }

    // b.bits[pos/64] |= 1 << (pos % 64)
    method SetBitAt(pos: nat)
      requires Valid() && pos < m
      modifies bits
      ensures Bits() == old(Bits()) + {pos}
    {
      ghost var before := bits[..];
      var i, word := pos / 64, WithBit(bits[pos / 64], pos % 64);
      bits[i] := word;
      assert bits[..] == before[i := word];
      SetPosition(before, pos);
    }

    // b.bits[pos/64] & (1 << (pos % 64)) != 0
    method BitAt(pos: nat) returns (r: bool)
      requires Valid() && pos < m
      ensures r <==> pos in Bits()
    {
      r := bits[pos / 64] & Mask(pos % 64) != 0;
      assert r == BitOf(bits[..], pos);
    }

    method MightContain(data: T) returns (r: bool)
      requires Valid()
      ensures r <==> Positions(hash, data, k, m) <= Bits()
    {
      for i := 0 to k
        invariant Positions(hash, data, i, m) <= Bits()
      {
        var pos := hash(data, i) % m;
        var isSet := BitAt(pos);
        if !isSet {
          assert pos in Positions(hash, data, k, m);
          return false;
        }
        MorePositions(hash, data, i, m);
      }
      return true;
    }

    method Reset()
      requires Valid()
      modifies this
      ensures Valid() && fresh(bits) && Bits() == {} && n == 0
    {
      bits := new bv64[bits.Length](_ => 0);
      ZeroWords(bits[..]);
      n := 0;
    }
  }

  lemma MorePositions<T>(hash: Hash<T>, x: T, k: nat, m: nat)
    requires m > 0
    ensures Positions(hash, x, k + 1, m) == Positions(hash, x, k, m) + {hash(x, k) % m}
  {
    var all := Positions(hash, x, k + 1, m);
    forall p ensures p in all <==> p in Positions(hash, x, k, m) + {hash(x, k) % m} {
      if p in all {
        var i :| 0 <= i < k + 1 && p == hash(x, i) % m;
        assert i < k ==> p in Positions(hash, x, k, m);
      }
    }
  }

  // ---- Runs of Add and Reset ----

  datatype Op<T> = Add(x: T) | Reset

  function Run<T>(ops: seq<Op<T>>, hash: Hash<T>, k: nat, m: nat): set<nat>
    requires m > 0
  {
    if ops == [] then {}
    else
      match ops[|ops| - 1]
      case Add(x) => Run(ops[..|ops| - 1], hash, k, m) + Positions(hash, x, k, m)
      case Reset => {}
  }

  // The elements added since the last Reset.
  function Added<T(==)>(ops: seq<Op<T>>): set<T> {
    if ops == [] then {}
    else
      match ops[|ops| - 1]
      case Add(x) => Added(ops[..|ops| - 1]) + {x}
      case Reset => {}
  }

  function Contains<T>(bits: set<nat>, x: T, hash: Hash<T>, k: nat, m: nat): bool
    requires m > 0
  {
    Positions(hash, x, k, m) <= bits
  }

  // After every sequence a bit is set exactly when some element added since the
  // last Reset hashes to it.
  lemma {:induction false} BitsExactly<T>(ops: seq<Op<T>>, hash: Hash<T>, k: nat, m: nat, p: nat)
    requires m > 0
    ensures p in Run(ops, hash, k, m) <==> exists x :: x in Added(ops) && p in Positions(hash, x, k, m)
  {
    if ops != [] {
      BitsExactly(ops[..|ops| - 1], hash, k, m, p);
    }
  }

  // The bits depend on the set of added elements only, not on order or repeats.
  lemma BitsDependOnSet<T>(ops: seq<Op<T>>, ops2: seq<Op<T>>, hash: Hash<T>, k: nat, m: nat)
    requires m > 0 && Added(ops) == Added(ops2)
    ensures Run(ops, hash, k, m) == Run(ops2, hash, k, m)
  {
    forall p: nat ensures p in Run(ops, hash, k, m) <==> p in Run(ops2, hash, k, m) {
      BitsExactly(ops, hash, k, m, p);
      BitsExactly(ops2, hash, k, m, p);
    }
  }

  // No element added since the last Reset is denied, and an element passes
  // exactly when each of its hashes collides with one of an added element.
  lemma PassesExactly<T>(ops: seq<Op<T>>, x: T, hash: Hash<T>, k: nat, m: nat)
    requires m > 0
    ensures x in Added(ops) ==> Contains(Run(ops, hash, k, m), x, hash, k, m)
    ensures Contains(Run(ops, hash, k, m), x, hash, k, m) <==>
            forall i: nat :: i < k ==> exists y :: y in Added(ops) && hash(x, i) % m in Positions(hash, y, k, m)
  {
    forall p: nat ensures p in Run(ops, hash, k, m) <==> exists y :: y in Added(ops) && p in Positions(hash, y, k, m) {
      BitsExactly(ops, hash, k, m, p);
    }
    if Contains(Run(ops, hash, k, m), x, hash, k, m) {
      forall i: nat | i < k ensures exists y :: y in Added(ops) && hash(x, i) % m in Positions(hash, y, k, m) {
        assert hash(x, i) % m in Positions(hash, x, k, m);
        assert hash(x, i) % m in Run(ops, hash, k, m);
      }
    }
    if forall i: nat :: i < k ==> exists y :: y in Added(ops) && hash(x, i) % m in Positions(hash, y, k, m) {
      forall p | p in Positions(hash, x, k, m) ensures p in Run(ops, hash, k, m) {
        var i: nat :| i < k && p == hash(x, i) % m;
      }
    }
  }
}
