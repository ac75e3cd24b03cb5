/**
 Feeding bytes, one at a time, to a function that consumes blocks of 64: the buffering layer of
 a block hash, for any state type and any compression function.
 */
module BlockStream {
  import opened Octets

  type Block = b: Bytes | |b| == 64 witness seq(64, _ => 0)

  /** The length of the whole blocks among n bytes. */
  function Whole(n: nat): (w: nat)
    ensures w <= n < w + 64 && w % 64 == 0
  {
    n - n % 64
  }

  lemma WholeStep(n: nat)
    ensures n - Whole(n) == 63 ==> Whole(n + 1) == n + 1
    ensures n - Whole(n) != 63 ==> Whole(n + 1) == Whole(n)
  {
  }

  // ----- all at once

  function Fold<S>(f: (S, Block) -> S, s: S, blocks: Bytes): S
    requires |blocks| % 64 == 0
    decreases |blocks|
  {
    if blocks == [] then s else Fold(f, f(s, blocks[..64]), blocks[64..])
  }

  lemma {:induction false} FoldAppend<S>(f: (S, Block) -> S, s: S, a: Bytes, block: Block)
    requires |a| % 64 == 0
    ensures |a + block| % 64 == 0
    ensures Fold(f, s, a + block) == f(Fold(f, s, a), block)
    decreases |a|
  {
    if a == [] {
      assert (a + block)[..64] == block && (a + block)[64..] == [];
    } else {
      assert (a + block)[..64] == a[..64] && (a + block)[64..] == a[64..] + block;
      FoldAppend(f, f(s, a[..64]), a[64..], block);
    }
  }

  // ----- byte by byte

  /** What a hash object holds between two bytes. */
  datatype Progress<S> = Progress(state: S, waiting: Bytes, blocks: nat)

  /** One byte of input: it joins the waiting bytes, and a full block is consumed and counted. */
  function Step<S>(f: (S, Block) -> S, p: Progress<S>, byte: Byte): Progress<S> {
    var waiting := p.waiting + [byte];
    if |waiting| == 64 then Progress(f(p.state, waiting), [], p.blocks + 1)
    else p.(waiting := waiting)
  }

  function Fed<S>(f: (S, Block) -> S, s: S, message: Bytes): Progress<S> {
    if message == [] then Progress(s, [], 0)
    else Step(f, Fed(f, s, message[..|message| - 1]), message[|message| - 1])
  }

  lemma FedByte<S>(f: (S, Block) -> S, s: S, message: Bytes, byte: Byte)
    ensures Fed(f, s, message + [byte]) == Step(f, Fed(f, s, message), byte)
  {
    assert (message + [byte])[..|message|] == message;
  }

  /**
   The streaming invariant: the whole blocks of the message have been folded into the state
   and counted, and the rest of the message waits.
   */
  lemma {:induction false} FedMeaning<S>(f: (S, Block) -> S, s: S, message: Bytes)
    ensures var done := Whole(|message|);
            Fed(f, s, message) == Progress(Fold(f, s, message[..done]), message[done..], done / 64)
  {
    if message == [] {
    } else {
      var n := |message| - 1;
      var init, done := message[..n], Whole(n);
      FedMeaning(f, s, init);
      WholeStep(n);
      assert init[..done] == message[..done];
      assert init[done..] + [message[n]] == message[done..];
      if n - done == 63 {
        assert message[..done] + message[done..] == message == message[..n + 1];
        FoldAppend(f, s, message[..done], message[done..]);
      }
    }
  }
}
