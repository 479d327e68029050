/** A disk block as raw bytes, and the view of it as an array of 32-bit words that the
    log header and the index blocks of the file system use (little-endian, as on the i386).

    Words are what the file system stores in a block and reads back from it: word k is made of
    bytes 4k to 4k + 3, the lowest first. Writing one word leaves the bytes of all others as
    they are, which is what the proofs about headers and index blocks rest on. */
module Blocks {
  const BSIZE := 512
  const WORDS := BSIZE / 4

  type byte = x: int | 0 <= x < 256
  type uint32 = x: int | 0 <= x < 0x1_0000_0000
  datatype Bytes = Bytes(at: seq<byte>)
  type Block = b: Bytes | |b.at| == BSIZE witness Bytes(seq(BSIZE, _ => 0))

  const ZERO: Block := Bytes(seq(BSIZE, _ => 0))

  function Word(b: Block, k: nat): (w: uint32)
    requires k < WORDS
  {
    var b0: int, b1: int, b2: int, b3: int := b.at[4 * k], b.at[4 * k + 1], b.at[4 * k + 2], b.at[4 * k + 3];
    b0 + 0x100 * b1 + 0x1_0000 * b2 + 0x100_0000 * b3
  }

  lemma Split(w: int)
    requires 0 <= w < 0x1_0000_0000
    ensures w == w % 0x100 + 0x100 * (w / 0x100 % 0x100) + 0x1_0000 * (w / 0x1_0000 % 0x100)
                 + 0x100_0000 * (w / 0x100_0000 % 0x100)
  {
    assert w / 0x1_0000 == w / 0x100 / 0x100;
    assert w / 0x100_0000 == w / 0x1_0000 / 0x100;
  }

  /** Replace byte x of a block. */
  function PutByte(b: Block, x: nat, v: byte): Block
    requires x < BSIZE
  {
    Bytes(b.at[x := v])
  }

  function PutWord(b: Block, k: nat, w: uint32): (r: Block)
    requires k < WORDS
    ensures Word(r, k) == w
    ensures forall j: nat :: j < WORDS && j != k ==> Word(r, j) == Word(b, j)
    ensures forall x :: 0 <= x < BSIZE && x / 4 != k ==> r.at[x] == b.at[x]
    ensures r.at[4 * k] == w % 0x100 && r.at[4 * k + 3] == w / 0x100_0000
  {
    Split(w);
    var v: int := w;
    var b1 := PutByte(b, 4 * k, v % 0x100);
    var b2 := PutByte(b1, 4 * k + 1, v / 0x100 % 0x100);
    var b3 := PutByte(b2, 4 * k + 2, v / 0x1_0000 % 0x100);
    PutByte(b3, 4 * k + 3, v / 0x100_0000 % 0x100)
  }

  predicate Blank(b: Block) {
    forall x :: 0 <= x < BSIZE ==> b.at[x] == 0
  }

  lemma BlankWord(b: Block, k: nat)
    requires Blank(b) && k < WORDS
    ensures Word(b, k) == 0
  {
  }
}
