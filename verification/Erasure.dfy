/** Geometry and codec of internal/erasure: layouts, splitting, padding and joining.
    The parity arithmetic belongs to an external library and enters as a `Code`. */
module Erasure {
  import opened Prelude

  const DATA_SHARDS: Word := 2
  const PARITY_SHARDS: Word := 1
  const MAX_SHARDS := 64

  /** The 64-bit `int` of the source. */
  type Word = x: int | -0x8000_0000_0000_0000 <= x < 0x8000_0000_0000_0000

  /** Two's-complement wrap-around of a sum of two words. */
  function Wrap(x: int): Word
    requires -0x1_0000_0000_0000_0000 <= x < 0x1_0000_0000_0000_0000
  {
    if x < -0x8000_0000_0000_0000 then x + 0x1_0000_0000_0000_0000
    else if x < 0x8000_0000_0000_0000 then x
    else x - 0x1_0000_0000_0000_0000
  }

  datatype Layout = Layout(dataShards: Word, parityShards: Word) {
    function TotalShards(): Word {
      Wrap(dataShards + parityShards)
    }

    /** `Layout.Validate`: the sum it compares can wrap. */
    predicate Validates() {
      && dataShards >= 1 && parityShards >= 1
      && TotalShards() <= MAX_SHARDS
    }

    /** A layout that really has at most MAX_SHARDS shards. */
    predicate Sound() {
      && dataShards >= 1 && parityShards >= 1
      && dataShards + parityShards <= MAX_SHARDS
    }
  }

  function NewLayout(dataShards: Word, parityShards: Word): Option<Layout> {
    var l := if dataShards == 0 && parityShards == 0 then Layout(DATA_SHARDS, PARITY_SHARDS)
             else Layout(dataShards, parityShards);
    if l.Validates() then Some(l) else None
  }

  /** `Validate` admits a wrapped sum, and exactly the wrapped layouts report a negative shard
      count; so comparing a list's length with `TotalShards` rejects every unsound layout. */
  lemma ValidatesExactly(l: Layout)
    ensures l.Validates() <==> l.Sound() || (l.dataShards >= 1 && l.parityShards >= 1 && l.TotalShards() < 0)
    ensures l.Validates() && l.TotalShards() >= 0 ==> l.Sound() && l.TotalShards() == l.dataShards + l.parityShards
    ensures Layout(0x7fff_ffff_ffff_ffff, 1).Validates() && !Layout(0x7fff_ffff_ffff_ffff, 1).Sound()
  {
  }

  // ---------------------------------------------------------------- splitting and joining

  function Zeros(n: nat): Bytes {
    seq(n, _ => 0)
  }

  /** The next `n` bytes, padded with zeros at the end of the data. */
  function Piece(data: Bytes, n: nat): (p: Bytes)
    ensures |p| == n
  {
    if |data| >= n then data[..n] else data + Zeros(n - |data|)
  }

  function Rest(data: Bytes, n: nat): Bytes {
    if |data| >= n then data[n..] else []
  }

  /** `k` shards of `n` bytes each, zero padded. */
  function SplitBy(data: Bytes, k: nat, n: nat): (shards: seq<Bytes>)
    ensures |shards| == k
    ensures forall i | 0 <= i < k :: |shards[i]| == n
    decreases k
  {
    if k == 0 then [] else [Piece(data, n)] + SplitBy(Rest(data, n), k - 1, n)
  }

  function ShardSize(size: nat, k: nat): nat
    requires k > 0
  {
    CeilDiv(size, k)
  }

  /** Joining undoes splitting: the data comes first, then only padding. */
  lemma {:induction false} SplitConcat(data: Bytes, k: nat, n: nat)
    requires |data| <= k * n
    ensures |Concat(SplitBy(data, k, n))| >= |data|
    ensures Concat(SplitBy(data, k, n))[..|data|] == data
    decreases k
  {
    if k > 0 {
      var rest := Rest(data, n);
      assert |rest| <= (k - 1) * n by {
        assert k * n == (k - 1) * n + n;
        if |data| < n { assert (k - 1) * n >= 0; }
      }
      SplitConcat(rest, k - 1, n);
      assert SplitBy(data, k, n)[1..] == SplitBy(rest, k - 1, n);
    }
  }

  /** The library's join: the first `k` shards, cut to the output size; too little data is an error. */
  function Join(shards: seq<Bytes>, k: nat, size: nat): Option<Bytes>
    requires k <= |shards|
  {
    var all := Concat(shards[..k]);
    if |all| < size then None else Some(all[..size])
  }

  // ---------------------------------------------------------------- the codec and its contract

  /** One encoder of the external library. A missing shard is empty, as in its interface. */
  datatype Code = Code(parity: seq<Bytes> -> seq<Bytes>, rebuild: seq<Bytes> -> Option<seq<Bytes>>)

  predicate Uniform(shards: seq<Bytes>, k: nat, n: nat) {
    |shards| == k && forall i | 0 <= i < k :: |shards[i]| == n
  }

  function Present(held: seq<Bytes>): nat {
    if held == [] then 0 else (if held[0] != [] then 1 else 0) + Present(held[1..])
  }

  /** Every shard held is the genuine one; the others are missing. */
  predicate Partial(held: seq<Bytes>, full: seq<Bytes>) {
    |held| == |full| && forall i | 0 <= i < |full| :: held[i] == [] || held[i] == full[i]
  }

  /** The library's contract for `k` data and `m` parity shards: any `k` genuine shards
      determine all of them, and fewer are refused. */
  ghost predicate AnyKSuffice(code: Code, k: nat, m: nat) {
    && (forall data: seq<Bytes>, n: nat {:trigger code.parity(data), Uniform(data, k, n)}
          | n > 0 && Uniform(data, k, n) :: Uniform(code.parity(data), m, n))
    && (forall data: seq<Bytes>, n: nat, held: seq<Bytes> {:trigger code.rebuild(held), Uniform(data, k, n)}
          | n > 0 && Uniform(data, k, n) && Partial(held, data + code.parity(data)) ::
          code.rebuild(held) == if Present(held) >= k then Some(data + code.parity(data)) else None)
  }

  /** All shards of `data`, data shards first. */
  function Shards(code: Code, l: Layout, data: Bytes): seq<Bytes>
    requires l.Sound()
  {
    var parts := SplitBy(data, l.dataShards, ShardSize(|data|, l.dataShards));
    parts + code.parity(parts)
  }

  /** `Layout.Encode`: an invalid layout or empty input is an error. */
  function Encode(code: Code, l: Layout, data: Bytes): Option<seq<Bytes>> {
    if !l.Sound() || data == [] then None else Some(Shards(code, l, data))
  }

  /** `Layout.Decode`: reconstruct, then join to the expected size. */
  function Decode(code: Code, l: Layout, held: seq<Bytes>, size: nat): Option<Bytes> {
    if !l.Sound() || |held| != l.TotalShards() then None
    else
      match code.rebuild(held)
      case None => None
      case Some(all) => if |all| < l.dataShards then None else Join(all, l.dataShards, size)
  }

  lemma ShardsUniform(code: Code, l: Layout, data: Bytes)
    requires l.Sound() && AnyKSuffice(code, l.dataShards, l.parityShards) && data != []
    ensures Uniform(Shards(code, l, data), l.TotalShards(), ShardSize(|data|, l.dataShards))
    ensures 0 < ShardSize(|data|, l.dataShards)
  {
    var n := ShardSize(|data|, l.dataShards);
    assert |data| <= n * l.dataShards;
    assert Uniform(SplitBy(data, l.dataShards, n), l.dataShards, n);
  }

  /** Decoding any mixture of genuine and missing shards gives back the data when at least
      `dataShards` are present, and an error otherwise: never other bytes. */
  lemma DecodeExactly(code: Code, l: Layout, data: Bytes, held: seq<Bytes>)
    requires l.Sound() && AnyKSuffice(code, l.dataShards, l.parityShards) && data != []
    requires Partial(held, Shards(code, l, data))
    ensures Decode(code, l, held, |data|) == if Present(held) >= l.dataShards then Some(data) else None
  {
    var k, n := l.dataShards, ShardSize(|data|, l.dataShards);
    var parts := SplitBy(data, k, n);
    ShardsUniform(code, l, data);
    assert Uniform(parts, k, n);
    assert Partial(held, parts + code.parity(parts));
    SplitConcat(data, k, n);
    assert (parts + code.parity(parts))[..k] == parts;
  }

  /** Encoding fails exactly on an unusable layout or on nothing; decoding what was encoded, any of it lost, gives the
      data back or an error, and any other number of shards is an error. */
  lemma RoundTrip(code: Code, l: Layout, data: Bytes, held: seq<Bytes>, size: nat)
    ensures Encode(code, l, data).Some? <==>
            1 <= l.dataShards && 1 <= l.parityShards && l.dataShards + l.parityShards <= 64 && data != []
    ensures Encode(code, l, data).Some? && AnyKSuffice(code, l.dataShards, l.parityShards)
            && Partial(held, Encode(code, l, data).value) ==>
              Decode(code, l, held, |data|) == if Present(held) >= l.dataShards then Some(data) else None
    ensures l.Sound() && |held| != l.dataShards + l.parityShards ==> Decode(code, l, held, size) == None
  {
    if Encode(code, l, data).Some? && AnyKSuffice(code, l.dataShards, l.parityShards)
       && Partial(held, Encode(code, l, data).value)
    {
      DecodeExactly(code, l, data, held);
    }
  }
}
