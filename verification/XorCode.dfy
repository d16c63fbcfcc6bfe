/** A concrete code with one parity shard: it shows that the codec contract can be met, and for the
    default 2+1 layout it makes the round-trip theorems hold without any assumption on the library. */
module XorCode {
  import opened Prelude
  import opened Erasure

  /** The exclusive or of byte `j` of every shard held; a missing shard contributes nothing. */
  function Column(held: seq<Bytes>, j: nat): bv8 {
    if held == [] then 0
    else (if j < |held[0]| then held[0][j] else 0) ^ Column(held[1..], j)
  }

  function Width(held: seq<Bytes>): nat {
    if held == [] then 0 else if held[0] != [] then |held[0]| else Width(held[1..])
  }

  function Parity(data: seq<Bytes>): seq<Bytes> {
    [seq(Width(data), j requires 0 <= j => Column(data, j))]
  }

  function FirstMissing(held: seq<Bytes>): nat {
    if held == [] || held[0] == [] then 0 else 1 + FirstMissing(held[1..])
  }

  /** At most one missing shard can be rebuilt: it is the exclusive or of the others. */
  function Rebuild(held: seq<Bytes>): Option<seq<Bytes>> {
    var gap := FirstMissing(held);
    if Present(held) + 1 < |held| then None
    else if gap >= |held| then Some(held)
    else Some(held[gap := seq(Width(held), j requires 0 <= j => Column(held, j))])
  }

  const XOR: Code := Code(Parity, Rebuild)

  lemma {:induction false} ColumnAppend(a: seq<Bytes>, b: Bytes, j: nat)
    ensures Column(a + [b], j) == Column(a, j) ^ (if j < |b| then b[j] else 0)
  {
    if a == [] {
      assert a + [b] == [b];
      assert Column([b], j) == (if j < |b| then b[j] else 0) ^ Column([b][1..], j);
    } else {
      assert (a + [b])[1..] == a[1..] + [b];
      ColumnAppend(a[1..], b, j);
    }
  }

  /** Dropping one shard from a column removes exactly its byte. */
  lemma {:induction false} ColumnWithout(full: seq<Bytes>, i: nat, j: nat)
    requires i < |full| && j < |full[i]|
    ensures Column(full[i := []], j) == Column(full, j) ^ full[i][j]
  {
    if i == 0 {
      assert full[0 := []][1..] == full[1..];
    } else {
      assert full[i := []][1..] == full[1..][i - 1 := []];
      ColumnWithout(full[1..], i - 1, j);
    }
  }

  /** With its parity shard appended, every column sums to zero. */
  lemma ColumnZero(data: seq<Bytes>, n: nat, j: nat)
    requires n > 0 && |data| > 0 && Uniform(data, |data|, n) && j < n
    ensures Column(data + Parity(data), j) == 0
  {
    ColumnAppend(data, Parity(data)[0], j);
  }

  lemma {:induction false} PresentBounds(held: seq<Bytes>)
    ensures Present(held) <= |held|
    ensures FirstMissing(held) <= |held|
    ensures FirstMissing(held) < |held| ==> held[FirstMissing(held)] == [] && Present(held) < |held|
    ensures FirstMissing(held) == |held| ==> forall i | 0 <= i < |held| :: held[i] != []
  {
    if held != [] {
      PresentBounds(held[1..]);
      if held[0] != [] {
        forall i | 0 <= i < |held| && FirstMissing(held) == |held| ensures held[i] != [] {
          assert i > 0 ==> held[i] == held[1..][i - 1];
        }
      }
    }
  }

  /** With a single gap, every other shard is present. */
  lemma {:induction false} SingleGap(held: seq<Bytes>, i: nat)
    requires Present(held) + 1 >= |held| && FirstMissing(held) < |held|
    requires i < |held| && i != FirstMissing(held)
    ensures held[i] != []
  {
    PresentBounds(held[1..]);
    if held[0] == [] {
      assert Present(held[1..]) == |held[1..]|;
      AllPresent(held[1..], i - 1);
    } else if i > 0 {
      SingleGap(held[1..], i - 1);
    }
  }

  lemma {:induction false} AllPresent(held: seq<Bytes>, i: nat)
    requires Present(held) == |held| && i < |held|
    ensures held[i] != []
  {
    PresentBounds(held[1..]);
    if i > 0 { AllPresent(held[1..], i - 1); }
  }

  lemma {:induction false} WidthOf(held: seq<Bytes>, n: nat)
    requires forall i | 0 <= i < |held| :: |held[i]| == n || held[i] == []
    requires Present(held) > 0
    ensures Width(held) == n
  {
    if held[0] == [] { WidthOf(held[1..], n); }
  }

  lemma RebuildsOne(data: seq<Bytes>, n: nat, held: seq<Bytes>)
    requires n > 0 && |data| > 0 && Uniform(data, |data|, n)
    requires Partial(held, data + Parity(data)) && Present(held) >= |data|
    ensures Rebuild(held) == Some(data + Parity(data))
  {
    var full, gap := data + Parity(data), FirstMissing(held);
    PresentBounds(held);
    WidthOf(data, n) by { UniformPresent(data, n); }
    WidthOf(held, n);
    if gap < |held| {
      forall i | 0 <= i < |held| && i != gap ensures held[i] == full[i] { SingleGap(held, i); }
      assert held == full[gap := []];
      forall j: nat | j < n ensures Column(held, j) == full[gap][j] {
        ColumnZero(data, n, j);
        ColumnWithout(full, gap, j);
      }
      var filled := seq(n, j requires 0 <= j => Column(held, j));
      assert filled == full[gap];
      assert held[gap := filled] == full;
    } else {
      assert held == full;
    }
  }

  lemma {:induction false} UniformPresent(data: seq<Bytes>, n: nat)
    requires n > 0 && Uniform(data, |data|, n)
    ensures Present(data) == |data|
  {
    if data != [] { UniformPresent(data[1..], n); }
  }

  /** The exclusive-or code meets the library's contract for every number of data shards. */
  lemma XorMeetsContract(k: nat)
    requires k >= 1
    ensures AnyKSuffice(XOR, k, 1)
  {
    forall data: seq<Bytes>, n: nat | n > 0 && Uniform(data, k, n) ensures Uniform(Parity(data), 1, n) {
      UniformPresent(data, n);
      WidthOf(data, n);
    }
    forall data: seq<Bytes>, n: nat, held: seq<Bytes>
      | n > 0 && Uniform(data, k, n) && Partial(held, data + XOR.parity(data))
      ensures XOR.rebuild(held) == if Present(held) >= k then Some(data + XOR.parity(data)) else None
    {
      assert Partial(held, data + Parity(data));
      if Present(held) >= k { RebuildsOne(data, n, held); }
    }
  }
}
