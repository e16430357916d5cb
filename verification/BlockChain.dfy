/** Iterating a compression function over the 64-byte blocks of some data. */
module BlockChain {
  import opened Bytes

  type Block = b: seq<byte> | |b| == 64 witness seq(64, _ => 0)

  /** Block i of the data. */
  function BlockAt(data: seq<byte>, i: nat): Block
    requires 64 * i + 64 <= |data|
  {
    data[64 * i..64 * i + 64]
  }

  /** The chaining value after the first n blocks. */
  function Fold<S>(f: (S, Block) -> S, init: S, data: seq<byte>, n: nat): S
    requires 64 * n <= |data|
  {
    if n == 0 then init else f(Fold(f, init, data, n - 1), BlockAt(data, n - 1))
  }

  /** The values a streaming implementation passes through: one more per block. */
  ghost predicate IsChain<S>(f: (S, Block) -> S, init: S, data: seq<byte>, chain: seq<S>) {
    && |data| == 64 * (|chain| - 1) && |chain| > 0 && chain[0] == init
    && forall i: nat {:trigger BlockAt(data, i)} :: i + 1 < |chain| ==> chain[i + 1] == f(chain[i], BlockAt(data, i))
  }

  lemma {:induction false} ChainIsFold<S>(f: (S, Block) -> S, init: S, data: seq<byte>, chain: seq<S>, n: nat)
    requires IsChain(f, init, data, chain) && n < |chain|
    ensures chain[n] == Fold(f, init, data, n)
  {
    if n > 0 {
      ChainIsFold(f, init, data, chain, n - 1);
      assert chain[n - 1 + 1] == f(chain[n - 1], BlockAt(data, n - 1));
    }
  }

  lemma ChainEndsInFold<S>(f: (S, Block) -> S, init: S, data: seq<byte>, chain: seq<S>)
    requires IsChain(f, init, data, chain)
    ensures |data| % 64 == 0 && chain[|chain| - 1] == Fold(f, init, data, |data| / 64)
  {
    var n := |chain| - 1;
    ChainIsFold(f, init, data, chain, n);
    BlockCount(n);
  }

  lemma BlockCount(n: nat)
    ensures 64 * n % 64 == 0 && 64 * n / 64 == n
  {
  }

  lemma ChainGrows<S>(f: (S, Block) -> S, init: S, data: seq<byte>, chain: seq<S>, block: Block, next: S)
    requires IsChain(f, init, data, chain)
    requires next == f(chain[|chain| - 1], block)
    ensures IsChain(f, init, data + block, chain + [next])
  {
    var all, chain' := data + block, chain + [next];
    forall i: nat | i + 1 < |chain'|
      ensures chain'[i + 1] == f(chain'[i], BlockAt(all, i))
    {
      if i + 1 < |chain| {
        assert BlockAt(all, i) == BlockAt(data, i);
      } else {
        assert BlockAt(all, i) == block;
      }
    }
  }
}
