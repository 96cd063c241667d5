/** Networks of XTEA's shape: each round adds to one half of a block a mix of
    the other half. Whatever the mixes are, running the rounds backwards and
    subtracting undoes them. */
module Feistel {
  import opened Words

  datatype Block = Block(v0: u32, v1: u32)

  datatype Round = Round(mix0: u32 -> u32, mix1: u32 -> u32)

  function Forward(r: Round, b: Block): Block {
    var v0 := Add32(b.v0, r.mix0(b.v1));
    Block(v0, Add32(b.v1, r.mix1(v0)))
  }

  function Backward(r: Round, b: Block): Block {
    var v1 := Sub32(b.v1, r.mix1(b.v0));
    Block(Sub32(b.v0, r.mix0(v1)), v1)
  }

  function ForwardAll(rs: seq<Round>, b: Block): Block {
    if rs == [] then b else Forward(rs[|rs| - 1], ForwardAll(rs[..|rs| - 1], b))
  }

  function BackwardAll(rs: seq<Round>, b: Block): Block {
    if rs == [] then b else BackwardAll(rs[..|rs| - 1], Backward(rs[|rs| - 1], b))
  }

  lemma {:induction false} BackwardUndoesForward(rs: seq<Round>, b: Block)
    ensures BackwardAll(rs, ForwardAll(rs, b)) == b
  {
    if rs != [] {
      BackwardUndoesForward(rs[..|rs| - 1], b);
    }
  }

  lemma {:induction false} ForwardUndoesBackward(rs: seq<Round>, b: Block)
    ensures ForwardAll(rs, BackwardAll(rs, b)) == b
  {
    if rs != [] {
      ForwardUndoesBackward(rs[..|rs| - 1], Backward(rs[|rs| - 1], b));
    }
  }
}
