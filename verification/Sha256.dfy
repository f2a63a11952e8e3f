/** The hash function of FIPS 180-4, written from the standard: sections 3.2 and 4.1.2 (the
    word functions), 4.2.2 (constants), 5.1.1 (padding), 5.3.3 (initial value) and 6.2.2
    (the compression). */
module Fips180 {
  import opened Bits
  import opened Bytes
  import opened ByteOrder

  const TWO32: nat := 0x1_0000_0000

  type Word = x: int | 0 <= x < TWO32

  lemma WordWidth()
    ensures Pow2(32) == TWO32
  {
    assert Pow2(8) == 256 && Pow2(16) == 0x1_0000 && Pow2(24) == 0x100_0000;
  }

  /** The low `n` bits of two numbers combined bit by bit. */
  function Bitwise(op: (bool, bool) -> bool, x: nat, y: nat, n: nat): (r: nat)
    ensures r < Pow2(n)
  {
    if n == 0 then 0
    else (if op(x % 2 == 1, y % 2 == 1) then 1 else 0) + 2 * Bitwise(op, x / 2, y / 2, n - 1)
  }

  function And(x: Word, y: Word): Word { WordWidth(); Bitwise((a, b) => a && b, x, y, 32) }
  function Xor(x: Word, y: Word): Word { WordWidth(); Bitwise((a, b) => a != b, x, y, 32) }
  function Not(x: Word): Word { TWO32 - 1 - x }

  /** Right shift and right rotation, one bit at a time. */
  function ShR(x: Word, n: nat): Word {
    if n == 0 then x else ShR(x, n - 1) / 2
  }

  function RotR(x: Word, n: nat): Word {
    if n == 0 then x else var y := RotR(x, n - 1); y / 2 + y % 2 * 0x8000_0000
  }

  /** Addition modulo 2^32. */
  function Add(x: Word, y: Word): Word { (x + y) % TWO32 }

  function Ch(x: Word, y: Word, z: Word): Word { Xor(And(x, y), And(Not(x), z)) }
  function Maj(x: Word, y: Word, z: Word): Word { Xor(Xor(And(x, y), And(x, z)), And(y, z)) }
  function BigSigma0(x: Word): Word { Xor(Xor(RotR(x, 2), RotR(x, 13)), RotR(x, 22)) }
  function BigSigma1(x: Word): Word { Xor(Xor(RotR(x, 6), RotR(x, 11)), RotR(x, 25)) }
  function SmallSigma0(x: Word): Word { Xor(Xor(RotR(x, 7), RotR(x, 18)), ShR(x, 3)) }
  function SmallSigma1(x: Word): Word { Xor(Xor(RotR(x, 17), RotR(x, 19)), ShR(x, 10)) }

  /** The constants of the rounds, in rows of eight. */
  const K: seq<seq<Word>> :=
    [[0x428a2f98, 0x71374491, 0xb5c0fbcf, 0xe9b5dba5, 0x3956c25b, 0x59f111f1, 0x923f82a4, 0xab1c5ed5],
     [0xd807aa98, 0x12835b01, 0x243185be, 0x550c7dc3, 0x72be5d74, 0x80deb1fe, 0x9bdc06a7, 0xc19bf174],
     [0xe49b69c1, 0xefbe4786, 0x0fc19dc6, 0x240ca1cc, 0x2de92c6f, 0x4a7484aa, 0x5cb0a9dc, 0x76f988da],
     [0x983e5152, 0xa831c66d, 0xb00327c8, 0xbf597fc7, 0xc6e00bf3, 0xd5a79147, 0x06ca6351, 0x14292967],
     [0x27b70a85, 0x2e1b2138, 0x4d2c6dfc, 0x53380d13, 0x650a7354, 0x766a0abb, 0x81c2c92e, 0x92722c85],
     [0xa2bfe8a1, 0xa81a664b, 0xc24b8b70, 0xc76c51a3, 0xd192e819, 0xd6990624, 0xf40e3585, 0x106aa070],
     [0x19a4c116, 0x1e376c08, 0x2748774c, 0x34b0bcb5, 0x391c0cb3, 0x4ed8aa4a, 0x5b9cca4f, 0x682e6ff3],
     [0x748f82ee, 0x78a5636f, 0x84c87814, 0x8cc70208, 0x90befffa, 0xa4506ceb, 0xbef9a3f7, 0xc67178f2]]

  const H0: seq<Word> :=
    [0x6a09e667, 0xbb67ae85, 0x3c6ef372, 0xa54ff53a, 0x510e527f, 0x9b05688c, 0x1f83d9ab, 0x5be0cd19]

  /** The number of rounds; a function, so that the verifier does not unroll them. */
  function RoundCount(): (n: nat)
    ensures n == 64
  {
    8 * |K|
  }

  function RoundConstant(t: nat): Word
    requires t < 64
  {
    assert forall row :: 0 <= row < 8 ==> |K[row]| == 8;
    K[t / 8][t % 8]
  }

  /** Four bytes as a big-endian word. */
  function Pack(b0: Byte, b1: Byte, b2: Byte, b3: Byte): Word {
    b3 + b2 * 0x100 + b1 * 0x1_0000 + b0 * 0x100_0000
  }

  /** W_t of one 64-byte block, from the earlier words. */
  function Mix(w2: Word, w7: Word, w15: Word, w16: Word): Word {
    Add(Add(Add(SmallSigma1(w2), w7), SmallSigma0(w15)), w16)
  }

  function Schedule(block: Block, t: nat): Word {
    if t < 16 then Pack(block[4 * t], block[4 * t + 1], block[4 * t + 2], block[4 * t + 3])
    else Mix(Schedule(block, t - 2), Schedule(block, t - 7), Schedule(block, t - 15), Schedule(block, t - 16))
  }

  type Block = b: seq<Byte> | |b| == 64 witness seq(64, _ => 0)
  type State = s: seq<Word> | |s| == 8 witness [0, 0, 0, 0, 0, 0, 0, 0]

  function T1(e: Word, f: Word, g: Word, h: Word, k: Word, w: Word): Word {
    Add(Add(Add(Add(h, BigSigma1(e)), Ch(e, f, g)), k), w)
  }

  function T2(a: Word, b: Word, c: Word): Word {
    Add(BigSigma0(a), Maj(a, b, c))
  }

  /** One round: the working variables a to h at positions 0 to 7. */
  function Round(v: State, k: Word, w: Word): State {
    var t1 := T1(v[4], v[5], v[6], v[7], k, w);
    var t2 := T2(v[0], v[1], v[2]);
    [Add(t1, t2), v[0], v[1], v[2], Add(v[3], t1), v[4], v[5], v[6]]
  }

  function Rounds(v: State, block: Block, t: nat): State
    requires t <= 64
  {
    if t == 0 then v else Round(Rounds(v, block, t - 1), RoundConstant(t - 1), Schedule(block, t - 1))
  }

  function AddState(h: State, v: State): State {
    seq(8, i requires 0 <= i < 8 => Add(h[i], v[i]))
  }

  function Compress(h: State, block: Block): State {
    AddState(h, Rounds(h, block, RoundCount()))
  }

  /** A chaining function folded over the 64-byte blocks of `bytes`. */
  function Chain(f: (State, Block) -> State, h: State, bytes: seq<Byte>): State
    requires |bytes| % 64 == 0
    decreases |bytes|
  {
    if bytes == [] then h else Chain(f, f(h, bytes[..64]), bytes[64..])
  }

  function HashBlocks(h: State, bytes: seq<Byte>): State
    requires |bytes| % 64 == 0
  {
    Chain(Compress, h, bytes)
  }

  function Zeros(n: nat): (z: seq<Byte>)
    ensures |z| == n
  {
    seq(n, _ => 0)
  }

  /** The number of zero bytes of the padding: the smallest that makes the whole a multiple
      of 64 bytes. */
  function PadZeros(n: nat): (k: nat)
    ensures k < 64 && (n + 1 + k + 8) % 64 == 0
  {
    (119 - n % 64) % 64
  }

  function Pad(m: seq<Byte>): (p: seq<Byte>)
    ensures |p| % 64 == 0
  {
    m + [0x80] + Zeros(PadZeros(|m|)) + BigEndian(8 * |m|, 8)
  }

  function Digest(h: State): (d: seq<Byte>)
    ensures |d| == 32
  {
    seq(32, i requires 0 <= i < 32 => BigEndian(h[i / 4], 4)[i % 4])
  }

  function Sha256(m: seq<Byte>): seq<Byte> {
    Digest(HashBlocks(H0, Pad(m)))
  }

  lemma {:induction false} ChainConcat(f: (State, Block) -> State, h: State, a: seq<Byte>, b: seq<Byte>)
    requires |a| % 64 == 0 && |b| % 64 == 0
    ensures Chain(f, h, a + b) == Chain(f, Chain(f, h, a), b)
    decreases |a|
  {
    if a == [] {
      assert a + b == b;
    } else {
      ChainConcat(f, f(h, a[..64]), a[64..], b);
      assert (a + b)[..64] == a[..64];
      assert (a + b)[64..] == a[64..] + b;
    }
  }

  lemma HashConcat(h: State, a: seq<Byte>, b: seq<Byte>)
    requires |a| % 64 == 0 && |b| % 64 == 0
    ensures HashBlocks(h, a + b) == HashBlocks(HashBlocks(h, a), b)
  {
    hide Compress;
    ChainConcat(Compress, h, a, b);
  }

  lemma HashNone(h: State)
    ensures HashBlocks(h, []) == h
  {
    hide Compress;
  }

  lemma CompressIs(h: State, block: Block)
    ensures Compress(h, block) == AddState(h, Rounds(h, block, RoundCount()))
  {
    hide Rounds;
  }

  lemma ChainOne(f: (State, Block) -> State, h: State, block: Block)
    ensures Chain(f, h, block) == f(h, block)
  {
    assert block[..64] == block && block[64..] == [];
  }

  lemma HashOne(h: State, block: Block)
    ensures HashBlocks(h, block) == Compress(h, block)
  {
    ChainOne(Compress, h, block);
  }
}

/** The streaming class of src/common/sha256.cpp. */
module Sha256Stream {
  import opened Bytes
  import opened ByteOrder
  import opened Fips180
  import opened Sha256Words

  const BLOCK: nat := 64

  /** Fewer than 64 bytes wait in the buffer; the chaining value and the block counter
      account for all the others. */
  ghost predicate Accounts(f: (State, Block) -> State, message: seq<Byte>, len: nat, total: nat, buffer: seq<Byte>,
                           h: State)
  {
    && |buffer| == 2 * BLOCK
    && len < BLOCK && len <= |message| && (|message| - len) % BLOCK == 0
    && buffer[..len] == message[|message| - len..]
    && h == Chain(f, H0, message[..|message| - len])
    && total == (|message| - len) % TWO32
  }

  lemma Started(f: (State, Block) -> State, buffer: seq<Byte>)
    requires |buffer| == 2 * BLOCK
    ensures Accounts(f, [], 0, 0, buffer, H0)
  {
    assert buffer[..0] == [];
  }

  lemma AccountsBounds(f: (State, Block) -> State, message: seq<Byte>, len: nat, total: nat, buffer: seq<Byte>,
                       h: State)
    requires Accounts(f, message, len, total, buffer, h)
    ensures len < BLOCK && len <= |message|
  {
  }

  /** The padded last blocks complete the padded message. */
  lemma Finished(f: (State, Block) -> State, message: seq<Byte>, len: nat, total: nat, buffer: seq<Byte>, h: State,
                 padded: seq<Byte>)
    requires Accounts(f, message, len, total, buffer, h)
    requires |padded| == 64 * (if BLOCK - 9 < len % BLOCK then 2 else 1)
    requires padded
      == buffer[..len] + [0x80] + Zeros(|padded| - len - 5) + BigEndian((total + len) % TWO32 * 8 % TWO32, 4)
    ensures Chain(f, h, padded) == Chain(f, H0, StreamPad(message))
  {
    hide Chain, BigEndian;
    var done := message[..|message| - len];
    ChainConcat(f, H0, done, padded);
    assert message == done + buffer[..len];
    LengthWraps(|message|, len, total);
    PadZerosIs(|message|, len);
    assert done + padded == StreamPad(message);
  }

  lemma ModAdd(k: nat, x: nat)
    ensures (k * TWO32 + x) % TWO32 == x % TWO32
  {
  }

  lemma LengthWraps(n: nat, len: nat, total: nat)
    requires len <= n && total == (n - len) % TWO32
    ensures (total + len) % TWO32 * 8 % TWO32 == 8 * n % TWO32
  {
    ModAdd((n - len) / TWO32, total + len);
    var x := total + len;
    ModAdd(8 * (x / TWO32), x % TWO32 * 8);
    ModAdd(8 * ((n - len) / TWO32), 8 * x);
  }

  lemma PadZerosIs(n: nat, len: nat)
    requires len < BLOCK && len <= n && (n - len) % BLOCK == 0
    ensures len + 5 + PadZeros(n) + 4 == 64 * (if BLOCK - 9 < len % BLOCK then 2 else 1)
  {
  }

  /** A chunk that fits the buffer is only stored. */
  lemma ChunkStored(f: (State, Block) -> State, message: seq<Byte>, len: nat, total: nat, buffer: seq<Byte>, h: State,
                    chunk: seq<Byte>, stored: seq<Byte>)
    requires Accounts(f, message, len, total, buffer, h) && len + |chunk| < BLOCK
    requires |stored| == |buffer| && stored[..len + |chunk|] == buffer[..len] + chunk
    ensures Accounts(f, message + chunk, len + |chunk|, total, stored, h)
  {
    hide Chain, Accounts;
    var done := Split(f, message, len, total, buffer, h);
    assert message + chunk == done + (buffer[..len] + chunk);
    Join(f, done, buffer[..len] + chunk, stored);
  }

  /** A chunk that fills the buffer is hashed up to its last whole block: `head` completes
      the buffer, `body` is whole blocks and `rest` waits. */
  lemma ChunkHashed(f: (State, Block) -> State, message: seq<Byte>, len: nat, total: nat, buffer: seq<Byte>, h: State,
                    head: seq<Byte>, body: seq<Byte>, rest: seq<Byte>, blocks: nat, final: seq<Byte>)
    requires Accounts(f, message, len, total, buffer, h)
    requires |head| == BLOCK - len && |body| == BLOCK * blocks && |rest| < BLOCK
    requires |final| == 2 * BLOCK && final[..|rest|] == rest
    ensures Accounts(f, message + (head + body + rest), |rest|, (total + (blocks + 1) * BLOCK) % TWO32, final,
                     Chain(f, Chain(f, h, buffer[..len] + head), body))
  {
    hide Chain, Accounts;
    var done := Split(f, message, len, total, buffer, h);
    var tail := buffer[..len];
    var hashed := done + (tail + head) + body;
    ChainThree(f, H0, done, tail + head, body);
    CountBlocks(|done|, blocks, total);
    Regroup(message, done, tail, head, body, rest);
    Join(f, hashed, rest, final);
  }

  /** What is hashed and what waits make up the message, and conversely. */
  lemma Split(f: (State, Block) -> State, message: seq<Byte>, len: nat, total: nat, buffer: seq<Byte>, h: State)
    returns (done: seq<Byte>)
    requires Accounts(f, message, len, total, buffer, h)
    ensures |buffer| == 2 * BLOCK && len < BLOCK && message == done + buffer[..len] && |done| % BLOCK == 0
    ensures h == Chain(f, H0, done) && total == |done| % TWO32
  {
    hide Chain;
    done := message[..|message| - len];
  }

  lemma Join(f: (State, Block) -> State, done: seq<Byte>, rest: seq<Byte>, buffer: seq<Byte>)
    requires |done| % BLOCK == 0 && |rest| < BLOCK && |buffer| == 2 * BLOCK && buffer[..|rest|] == rest
    ensures Accounts(f, done + rest, |rest|, |done| % TWO32, buffer, Chain(f, H0, done))
  {
    hide Chain;
    SplitTail(done, rest);
  }

  lemma ChainThree(f: (State, Block) -> State, h: State, a: seq<Byte>, b: seq<Byte>, c: seq<Byte>)
    requires |a| % BLOCK == 0 && |b| % BLOCK == 0 && |c| % BLOCK == 0
    ensures Chain(f, h, a + b + c) == Chain(f, Chain(f, Chain(f, h, a), b), c)
  {
    hide Chain;
    ChainConcat(f, h, a, b);
    ChainConcat(f, h, a + b, c);
  }

  lemma Regroup(message: seq<Byte>, done: seq<Byte>, tail: seq<Byte>, head: seq<Byte>, body: seq<Byte>, rest: seq<Byte>)
    requires message == done + tail
    ensures message + (head + body + rest) == done + (tail + head) + body + rest
  {
    assert message + (head + body + rest) == done + (tail + (head + body + rest));
    assert tail + (head + body + rest) == (tail + head) + body + rest;
  }

  lemma SplitTail(hashed: seq<Byte>, rest: seq<Byte>)
    ensures |hashed + rest| - |rest| == |hashed|
    ensures (hashed + rest)[..|hashed|] == hashed && (hashed + rest)[|hashed|..] == rest
  {
  }

  lemma CountBlocks(done: nat, blocks: nat, total: nat)
    requires done % BLOCK == 0 && total == done % TWO32
    ensures (done + BLOCK + BLOCK * blocks) % BLOCK == 0
    ensures (total + (blocks + 1) * BLOCK) % TWO32 == (done + BLOCK + BLOCK * blocks) % TWO32
  {
    var hashed := done / BLOCK;
    assert done + BLOCK + BLOCK * blocks == BLOCK * (hashed + 1 + blocks);
    ModAdd(done / TWO32, total + (blocks + 1) * BLOCK);
  }

  class SHA256 {
    var m_tot_len: nat
    var m_len: nat
    const m_block: array<Byte>
    const m_h: array<Word>
    /** Everything absorbed since `Init`. */
    ghost var message: seq<Byte>

    ghost predicate Shape()
      reads this
    {
      m_block.Length == 2 * BLOCK && m_h.Length == 8
    }

    /** Between calls the fields account for everything absorbed. */
    ghost predicate Valid()
      reads this, m_block, m_h
    {
      Shape() && Accounts(Compress, message, m_len, m_tot_len, m_block[..], m_h[..])
    }

    constructor ()
      ensures Shape() && fresh(m_block) && fresh(m_h)
    {
      m_block := new Byte[2 * BLOCK];
      m_h := new Word[8];
      m_len, m_tot_len := 0, 0;
      message := [];
    }

    method Init()
      requires Shape()
      modifies this, m_h
      ensures Valid() && message == []
    {
      hide Accounts, Compress;
      Started(Compress, m_block[..]);
      m_h[0], m_h[1], m_h[2], m_h[3] := 0x6a09e667, 0xbb67ae85, 0x3c6ef372, 0xa54ff53a;
      m_h[4], m_h[5], m_h[6], m_h[7] := 0x510e527f, 0x9b05688c, 0x1f83d9ab, 0x5be0cd19;
      m_len := 0;
      m_tot_len := 0;
      message := [];
      assert m_h[..] == H0;
    }

    /** The schedule loops of one block. */
    method Expand(block: Block) returns (w: array<Word>)
      ensures fresh(w) && w.Length == 64
      ensures forall t :: 0 <= t < 64 ==> w[t] == Schedule(block, t)
    {
      hide Pack, Mix, Pack32, F3, F4, Add;
      w := new Word[64];
      for j := 0 to 16
        invariant forall t :: 0 <= t < j ==> w[t] == Schedule(block, t)
      {
        w[j] := Pack32(block[4 * j], block[4 * j + 1], block[4 * j + 2], block[4 * j + 3]);
      }
      for j := 16 to 64
        invariant forall t :: 0 <= t < j ==> w[t] == Schedule(block, t)
      {
        w[j] := Add(Add(Add(F4(w[j - 2]), w[j - 7]), F3(w[j - 15])), w[j - 16]);
        NextWordIsMix(w[j - 2], w[j - 7], w[j - 15], w[j - 16]);
        assert w[j] == Schedule(block, j);
      }
    }

    method RunRounds(w: array<Word>, ghost block: Block) returns (wv: array<Word>)
      requires Shape() && w.Length == 64
      requires forall t :: 0 <= t < 64 ==> w[t] == Schedule(block, t)
      ensures fresh(wv) && wv.Length == 8
      ensures wv[..] == Rounds(m_h[..], block, RoundCount())
    {
      hide Schedule, T1, T2, RoundConstant, Add, Ch, Maj, F1, F2;
      wv := new Word[8];
      for j := 0 to 8
        invariant forall i :: 0 <= i < j ==> wv[i] == m_h[i]
      {
        wv[j] := m_h[j];
      }
      assert wv[..] == m_h[..];
      for j := 0 to RoundCount()
        invariant wv[..] == Rounds(m_h[..], block, j)
      {
        ghost var v := wv[..];
        var t1 := Add(Add(Add(Add(wv[7], F2(wv[4])), Ch(wv[4], wv[5], wv[6])), RoundConstant(j)), w[j]);
        var t2 := Add(F1(wv[0]), Maj(wv[0], wv[1], wv[2]));
        SumsAreTs(wv[0], wv[1], wv[2], wv[4], wv[5], wv[6], wv[7], RoundConstant(j), w[j]);
        MoveVariables(wv, t1, t2);
        assert wv[..] == Round(v, RoundConstant(j), w[j]);
      }
    }

    /** The end of a round: every working variable moves up by one, with the two sums added in. */
    method MoveVariables(wv: array<Word>, t1: Word, t2: Word)
      requires wv.Length == 8
      modifies wv
      ensures wv[..] == old([Add(t1, t2), wv[0], wv[1], wv[2], Add(wv[3], t1), wv[4], wv[5], wv[6]])
    {
      wv[7] := wv[6];
      wv[6] := wv[5];
      wv[5] := wv[4];
      wv[4] := Add(wv[3], t1);
      wv[3] := wv[2];
      wv[2] := wv[1];
      wv[1] := wv[0];
      wv[0] := Add(t1, t2);
    }

    /** `transform`: the compression function over `block_nb` blocks in turn. */
    method Transform(bytes: seq<Byte>, block_nb: nat)
      requires Shape() && |bytes| >= BLOCK * block_nb
      modifies m_h
      ensures m_h[..] == HashBlocks(old(m_h[..]), bytes[..BLOCK * block_nb])
    {
      hide Rounds, Schedule, HashBlocks, Compress;
      HashNone(m_h[..]);
      assert bytes[..0] == [];
      for i := 0 to block_nb
        invariant m_h[..] == HashBlocks(old(m_h[..]), bytes[..BLOCK * i])
      {
        var sub_block := bytes[BLOCK * i..BLOCK * i + BLOCK];
        ghost var before := m_h[..];
        var w := Expand(sub_block);
        var wv := RunRounds(w, sub_block);
        for j := 0 to 8
          invariant forall k :: 0 <= k < 8 ==> m_h[k] == if k < j then Add(before[k], wv[k]) else before[k]
          invariant wv[..] == Rounds(before, sub_block, RoundCount())
        {
          m_h[j] := Add(m_h[j], wv[j]);
        }
        CompressIs(before, sub_block);
        assert m_h[..] == Compress(before, sub_block);
        NextBlock(old(m_h[..]), bytes, i);
      }
    }

    static lemma NextBlock(h: State, bytes: seq<Byte>, i: nat)
      requires |bytes| >= BLOCK * (i + 1)
      ensures HashBlocks(h, bytes[..BLOCK * (i + 1)])
           == Compress(HashBlocks(h, bytes[..BLOCK * i]), bytes[BLOCK * i..BLOCK * i + BLOCK])
    {
      hide Compress, HashBlocks;
      var done, next := bytes[..BLOCK * i], bytes[BLOCK * i..BLOCK * i + BLOCK];
      var h' := HashBlocks(h, done);
      assert bytes[..BLOCK * (i + 1)] == done + next;
      HashConcat(h, done, next);
      HashOne(h', next);
    }

    /** `memcpy` into the buffer. */
    method CopyTo(src: seq<Byte>, at: nat)
      requires at + |src| <= m_block.Length
      modifies m_block
      ensures m_block[..at + |src|] == old(m_block[..at]) + src
      ensures m_block[at + |src|..] == old(m_block[at + |src|..])
    {
      for i := 0 to |src|
        invariant m_block[..at + i] == old(m_block[..at]) + src[..i]
        invariant m_block[at + i..] == old(m_block[at + i..])
      {
        m_block[at + i] := src[i];
      }
    }

    /** `update`: absorbs a chunk of any length whose blocks an `int` can count. */
    method Update(chunk: seq<Byte>)
      requires Valid() && |chunk| < 0x8000_0000
      modifies this, m_block, m_h
      ensures Valid() && message == old(message) + chunk
    {
      hide Accounts, Compress, Chain;
      ghost var m, n, t, buffer, h := message, m_len, m_tot_len, m_block[..], m_h[..];
      AccountsBounds(Compress, m, n, t, buffer, h);
      var tmp_len := BLOCK - m_len;
      var rem_len := if |chunk| < tmp_len then |chunk| else tmp_len;
      CopyTo(chunk[..rem_len], m_len);
      message := message + chunk;
      if (m_len + |chunk|) % TWO32 < BLOCK {
        ChunkStored(Compress, m, n, t, buffer, h, chunk[..rem_len], m_block[..]);
        assert chunk[..rem_len] == chunk;
        m_len := (m_len + |chunk|) % TWO32;
        return;
      }
      HashBuffered(chunk, rem_len, m, n, t, buffer, h);
    }

    /** The rest of `update`: the full buffer and the whole blocks behind it are hashed, and
        what is left over waits. */
    method HashBuffered(chunk: seq<Byte>, taken: nat, ghost m: seq<Byte>, ghost n: nat, ghost t: nat,
                        ghost buffer: seq<Byte>, ghost h: State)
      requires Shape() && Accounts(Compress, m, n, t, buffer, h) && |chunk| < 0x8000_0000
      requires taken <= |chunk| && n < BLOCK && n + taken == BLOCK && |buffer| == 2 * BLOCK
      requires m_block[..BLOCK] == buffer[..n] + chunk[..taken]
      requires m_h[..] == h && m_tot_len == t && message == m + chunk
      modifies this, m_block, m_h
      ensures Valid() && message == old(message)
    {
      hide Accounts, Compress, Chain;
      var new_len := |chunk| - taken;
      var block_nb := new_len / BLOCK;
      var shifted := chunk[taken..];
      ghost var first := m_block[..BLOCK];
      Transform(m_block[..BLOCK], 1);
      assert first[..BLOCK * 1] == first;
      Transform(shifted, block_nb);
      var rem_len := new_len % BLOCK;
      CopyTo(shifted[BLOCK * block_nb..BLOCK * block_nb + rem_len], 0);
      m_len := rem_len;
      m_tot_len := (m_tot_len + (block_nb + 1) * BLOCK) % TWO32;
      ghost var body, rest := shifted[..BLOCK * block_nb], shifted[BLOCK * block_nb..];
      assert m_block[..rem_len] == rest;
      assert chunk == chunk[..taken] + body + rest;
      ChunkHashed(Compress, m, n, t, buffer, h, chunk[..taken], body, rest, block_nb, m_block[..]);
    }

    /** `final`: the digest of everything absorbed, padded with a 32-bit length. */
    method Final() returns (digest: seq<Byte>)
      requires Valid()
      modifies m_block, m_h
      ensures digest == Digest(HashBlocks(H0, StreamPad(message)))
      ensures |message| < 0x2000_0000 ==> digest == Sha256(message)
    {
      hide Compress, Sha256, Accounts, StreamPad, Chain, Unpack32;
      ghost var m, n, t, buffer, h := message, m_len, m_tot_len, m_block[..], m_h[..];
      AccountsBounds(Compress, m, n, t, buffer, h);
      var block_nb := 1 + (if BLOCK - 9 < m_len % BLOCK then 1 else 0);
      var len_b := (m_tot_len + m_len) % TWO32 * 8 % TWO32;
      var pm_len := block_nb * BLOCK;
      PadBuffer(pm_len, len_b);
      ghost var padded := m_block[..pm_len];
      Finished(Compress, m, n, t, buffer, h, padded);
      Transform(m_block[..pm_len], block_nb);
      assert padded[..BLOCK * block_nb] == padded;
      digest := EmitDigest();
      if |message| < 0x2000_0000 {
        PadAgrees(message);
        Sha256Is(message);
      }
    }

    /** Behind what waits: the bit 1, zeros, and the length in the last four bytes. */
    method PadBuffer(pm_len: nat, len_b: Word)
      requires Shape() && m_len + 9 <= pm_len <= 2 * BLOCK
      modifies m_block
      ensures m_block[..pm_len] == old(m_block[..m_len]) + [0x80] + Zeros(pm_len - m_len - 5) + BigEndian(len_b, 4)
    {
      hide Unpack32, BigEndian;
      CopyTo(Zeros(pm_len - m_len), m_len);
      m_block[m_len] := 0x80;
      CopyTo(Unpack32(len_b), pm_len - 4);
    }

    method EmitDigest() returns (digest: seq<Byte>)
      requires Shape()
      ensures digest == Digest(m_h[..])
    {
      hide Unpack32, BigEndian;
      digest := [];
      for i := 0 to 8
        invariant |digest| == 4 * i
        invariant forall k :: 0 <= k < 4 * i ==> digest[k] == BigEndian(m_h[k / 4], 4)[k % 4]
      {
        var word := Unpack32(m_h[i]);
        digest := digest + word;
      }
    }
  }

  lemma Sha256Is(m: seq<Byte>)
    ensures Sha256(m) == Digest(HashBlocks(H0, Pad(m)))
  {
    hide HashBlocks;
  }

  /** The padding the class writes: the length field holds the bit length modulo 2^32. */
  function StreamPad(m: seq<Byte>): (p: seq<Byte>)
    ensures |p| % 64 == 0
  {
    m + [0x80] + Zeros(PadZeros(|m|) + 4) + BigEndian(8 * |m| % TWO32, 4)
  }

  /** The class pads as FIPS 180-4 asks exactly for messages below 2^29 bytes. */
  lemma PadAgrees(m: seq<Byte>)
    requires 8 * |m| < TWO32 * TWO32
    ensures StreamPad(m) == Pad(m) <==> |m| < 0x2000_0000
  {
    var n, k := 8 * |m|, PadZeros(|m|);
    LengthField(n);
    assert Zeros(k + 4) == Zeros(k) + Zeros(4);
    var head := m + [0x80] + Zeros(k);
    assert StreamPad(m) == head + (Zeros(4) + BigEndian(n % TWO32, 4));
    assert Pad(m) == head + BigEndian(n, 8);
    assert StreamPad(m)[|head|..] == Zeros(4) + BigEndian(n % TWO32, 4);
    assert Pad(m)[|head|..] == BigEndian(n, 8);
  }

  /** The 8-byte field is the 4-byte field with a zero upper half exactly when the upper half
      is zero. */
  lemma LengthField(n: nat)
    requires n < TWO32 * TWO32
    ensures BigEndian(n, 8) == Zeros(4) + BigEndian(n % TWO32, 4) <==> n < TWO32
  {
    var high, low := n / TWO32, n % TWO32;
    assert Power(4) == TWO32;
    BigEndianSplit(high, low, 4, 4);
    BigEndianZero(high, 4);
    assert BigEndian(n, 8)[..4] == BigEndian(high, 4);
    assert (Zeros(4) + BigEndian(low, 4))[..4] == Zeros(4);
  }

  lemma {:induction false} BigEndianSplit(high: nat, low: nat, w: nat, k: nat)
    requires low < Power(k)
    ensures BigEndian(high * Power(k) + low, w + k) == BigEndian(high, w) + BigEndian(low, k)
  {
    if k == 0 {
      assert high * Power(0) + low == high;
    } else {
      var hp := high * Power(k - 1);
      assert high * Power(k) == 256 * hp;
      BigEndianSplit(high, low / 256, w, k - 1);
      assert (256 * hp + low) / 256 == hp + low / 256 && (256 * hp + low) % 256 == low % 256;
    }
  }

  lemma {:induction false} BigEndianZero(x: nat, w: nat)
    requires x < Power(w)
    ensures BigEndian(x, w) == Zeros(w) <==> x == 0
  {
    if w != 0 {
      BigEndianZero(x / 256, w - 1);
      assert Zeros(w)[..w - 1] == Zeros(w - 1) && Zeros(w)[w - 1] == 0;
      assert BigEndian(x, w)[..w - 1] == BigEndian(x / 256, w - 1) && BigEndian(x, w)[w - 1] == x % 256;
      if x == 0 {
        assert BigEndian(x, w) == Zeros(w);
      }
    }
  }

  /** `sha256`: one chunk through the class. */
  method Sha256OneShot(input: seq<Byte>) returns (digest: seq<Byte>)
    requires |input| < 0x8000_0000
    ensures |input| < 0x2000_0000 ==> digest == Sha256(input)
  {
    hide HashBlocks, Sha256, Accounts, Compress, Chain;
    var ctx := new SHA256();
    ctx.Init();
    ctx.Update(input);
    assert [] + input == input;
    digest := ctx.Final();
  }

  /** Any way of cutting a message into chunks gives the same digest. */
  method Sha256Chunked(chunks: seq<seq<Byte>>) returns (digest: seq<Byte>)
    requires forall c :: c in chunks ==> |c| < 0x8000_0000
    ensures |Concat(chunks)| < 0x2000_0000 ==> digest == Sha256(Concat(chunks))
  {
    hide HashBlocks, Sha256, Accounts, Compress, Chain;
    var ctx := new SHA256();
    ctx.Init();
    for i := 0 to |chunks|
      invariant ctx.Valid() && fresh(ctx) && fresh(ctx.m_block) && fresh(ctx.m_h)
      invariant ctx.message == Concat(chunks[..i])
    {
      ctx.Update(chunks[i]);
      ConcatSnoc(chunks[..i], chunks[i]);
      assert chunks[..i + 1] == chunks[..i] + [chunks[i]];
    }
    assert chunks[..|chunks|] == chunks;
    digest := ctx.Final();
  }

  function Concat(chunks: seq<seq<Byte>>): seq<Byte> {
    if chunks == [] then [] else chunks[0] + Concat(chunks[1..])
  }

  lemma {:induction false} ConcatSnoc(chunks: seq<seq<Byte>>, c: seq<Byte>)
    ensures Concat(chunks + [c]) == Concat(chunks) + c
  {
    if chunks != [] {
      ConcatSnoc(chunks[1..], c);
      assert (chunks + [c])[1..] == chunks[1..] + [c];
    }
  }
}
