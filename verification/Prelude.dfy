/** Vocabulary shared by every module: bytes, results and shard names. */
module Prelude {

  type Bytes = seq<bv8>

  datatype Option<+T> = None | Some(value: T)

  datatype Result<+T, +E> = Ok(value: T) | Err(error: E)

  /** The quotient rounded up, as the source computes it: `(a + b - 1) / b`. */
  function CeilDiv(a: nat, b: nat): (q: nat)
    requires b > 0
    ensures a <= q * b
    ensures q > 0 ==> (q - 1) * b < a
  {
    var q := (a + b - 1) / b;
    DivisionBounds(a + b - 1, b);
    q
  }

  lemma DivisionBounds(a: nat, b: nat)
    requires b > 0
    ensures a / b >= 0
    ensures (a / b) * b <= a < (a / b) * b + b
    ensures (a / b - 1) * b == (a / b) * b - b
  {
  }

  lemma Scaled(x: int, y: int, k: nat)
    requires x <= y
    ensures x * k <= y * k
  {
    assert (y - x) * k == y * k - x * k;
  }

  /** The rounded-up quotient is the only number with its two bounds. */
  lemma CeilUnique(a: nat, b: nat, q: nat)
    requires b > 0 && a <= q * b && (q > 0 ==> (q - 1) * b < a)
    ensures q == CeilDiv(a, b)
  {
    var c := CeilDiv(a, b);
    if q < c { Scaled(q, c - 1, b); }
    if c < q { Scaled(c, q - 1, b); }
  }

  lemma CeilMonotone(a: nat, b: nat, k: nat)
    requires a <= b && k > 0
    ensures CeilDiv(a, k) <= CeilDiv(b, k)
  {
    var x, y := CeilDiv(a, k), CeilDiv(b, k);
    if x > y { Scaled(y, x - 1, k); }
  }

  function Min(a: int, b: int): int {
    if a <= b then a else b
  }

  function Max(a: int, b: int): int {
    if a <= b then b else a
  }

  predicate HexDigit(c: char) {
    '0' <= c <= '9' || 'a' <= c <= 'f' || 'A' <= c <= 'F'
  }

  /** What `validateHash` and `validateShardRef` accept: 64 hexadecimal digits of either case. */
  predicate ValidHash(name: string) {
    |name| == 64 && forall i | 0 <= i < 64 :: HexDigit(name[i])
  }

  lemma ValidHashExactly(name: string)
    ensures ValidHash(name) <==> |name| == 64 && forall i | 0 <= i < 64 :: name[i] in "0123456789abcdefABCDEF"
  {
    forall c: char ensures HexDigit(c) <==> c in "0123456789abcdefABCDEF" { DigitsListed(c); }
  }

  lemma DigitsListed(c: char)
    ensures HexDigit(c) <==> c in "0123456789abcdefABCDEF"
  {
    var all := "0123456789abcdefABCDEF";
    assert forall i | 0 <= i < 22 :: HexDigit(all[i]);
    if '0' <= c <= '9' { assert all[c as int - '0' as int] == c; }
    if 'a' <= c <= 'f' { assert all[10 + (c as int - 'a' as int)] == c; }
    if 'A' <= c <= 'F' { assert all[16 + (c as int - 'A' as int)] == c; }
  }

  lemma SubsetSize<T>(a: set<T>, b: set<T>)
    requires a <= b
    ensures |a| <= |b|
  {
    assert b == a + (b - a);
  }

  function Concat(pieces: seq<Bytes>): Bytes {
    if pieces == [] then [] else pieces[0] + Concat(pieces[1..])
  }

  lemma ConcatOne(piece: Bytes)
    ensures Concat([piece]) == piece
  {
    assert Concat([piece]) == piece + Concat([piece][1..]);
  }

  lemma {:induction false} ConcatAppend(a: seq<Bytes>, b: seq<Bytes>)
    ensures Concat(a + b) == Concat(a) + Concat(b)
  {
    if a == [] {
      assert a + b == b;
    } else {
      assert (a + b)[1..] == a[1..] + b;
      ConcatAppend(a[1..], b);
    }
  }

  lemma AppendPiece(pieces: seq<Bytes>, n: nat)
    requires 0 < n <= |pieces|
    ensures Concat(pieces[..n]) == Concat(pieces[..n - 1]) + pieces[n - 1]
  {
    assert pieces[..n] == pieces[..n - 1] + [pieces[n - 1]];
    ConcatAppend(pieces[..n - 1], [pieces[n - 1]]);
    ConcatOne(pieces[n - 1]);
  }

  function CountTrue(flags: seq<bool>): (n: nat)
    ensures n <= |flags|
  {
    if flags == [] then 0 else (if flags[0] then 1 else 0) + CountTrue(flags[1..])
  }
}
