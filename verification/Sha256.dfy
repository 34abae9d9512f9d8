// The incremental hasher of services/botpkg/src/sha256.c.
module Sha256 {
  import opened Arithmetic
  import opened Fips180

  class Context {
    const state: array<Word>
    var bitlen: nat
    const buffer: array<Byte>
    var bufferLen: nat

    // The whole blocks already folded into the state.
    ghost var blocks: seq<Byte>

    ghost predicate Shaped()
      reads this
    {
      state.Length == 8 && buffer.Length == 64 && (state as object) != buffer && bufferLen <= 64
    }

    ghost function State(): Hash
      requires Shaped()
      reads this, state
    {
      Hash(state[0], state[1], state[2], state[3], state[4], state[5], state[6], state[7])
    }

    // Between calls the state is the fold over the whole blocks and the buffer has room.
    ghost predicate Valid()
      reads this, state
    {
      && Shaped() && bufferLen < 64
      && |blocks| % 64 == 0
      && State() == HashBlocks(blocks)
      && bitlen == 8 * |blocks| % TWO_64
    }

    // Everything hashed so far.
    ghost function Message(): seq<Byte>
      requires Shaped()
      reads this, buffer
    {
      blocks + buffer[..bufferLen]
    }

    lemma RemainderIsBuffered()
      requires Valid()
      ensures |Message()| % 64 == bufferLen
    {
      hide HashBlocks;
      assert |blocks| == 64 * (|blocks| / 64);
    }

    // sha256_init
    constructor ()
      ensures Valid() && Message() == [] && fresh(state) && fresh(buffer)
    {
      hide Initial, HashBlocks;
      state := new Word[8](_ => 0);
      buffer := new Byte[64](_ => 0);
      bitlen, bufferLen, blocks := 0, 0, [];
      new;
      NothingHashed();
      var h := Initial();
      state[0] := h.a;
      state[1] := h.b;
      state[2] := h.c;
      state[3] := h.d;
      state[4] := h.e;
      state[5] := h.f;
      state[6] := h.g;
      state[7] := h.h;
    }

    // sha256_process_block, on the full buffer.
    method ProcessBlock()
      requires Shaped()
      modifies state
      ensures State() == Compress(old(State()), buffer[..])
    {
      hide Schedule, Rounds, Initial, Plus;
      ghost var start := State();
      var w := BuildSchedule(buffer);
      var r := RunRounds(Hash(state[0], state[1], state[2], state[3], state[4], state[5], state[6], state[7]), w, buffer[..]);
      state[0] := Plus(state[0], r.a);
      state[1] := Plus(state[1], r.b);
      state[2] := Plus(state[2], r.c);
      state[3] := Plus(state[3], r.d);
      state[4] := Plus(state[4], r.e);
      state[5] := Plus(state[5], r.f);
      state[6] := Plus(state[6], r.g);
      state[7] := Plus(state[7], r.h);
    }

    // sha256_update
    method Update(data: seq<Byte>)
      requires Valid()
      modifies this, state, buffer
      ensures Valid() && Message() == old(Message()) + data
    {
      hide HashBlocks;
      var i := 0;
      while i < |data|
        invariant 0 <= i <= |data|
        invariant Valid() && Message() == old(Message()) + data[..i]
      {
        var take := 64 - bufferLen;
        if take > |data| - i {
          take := |data| - i;
        }
        assert data[..i + take] == data[..i] + data[i..i + take];
        Absorb(data[i..i + take]);
        i := i + take;
      }
    }

    // One pass of the update loop: fill the buffer, compress it when full.
    method Absorb(chunk: seq<Byte>)
      requires Valid() && 0 < |chunk| <= 64 - bufferLen
      modifies this, state, buffer
      ensures Valid() && Message() == old(Message()) + chunk
    {
      hide HashBlocks, Compress;
      Copy(buffer, bufferLen, chunk);
      bufferLen := bufferLen + |chunk|;
      assert Message() == old(Message()) + chunk;
      if bufferLen == 64 {
        Flush();
      }
    }

    // Compresses the full buffer and empties it.
    method Flush()
      requires Shaped() && bufferLen == 64 && |blocks| % 64 == 0
      requires State() == HashBlocks(blocks) && bitlen == 8 * |blocks| % TWO_64
      modifies this, state
      ensures Valid() && Message() == old(Message())
    {
      hide HashBlocks, Compress;
      HashOneMore(blocks, buffer[..]);
      BitsOneMore(|blocks|);
      ghost var blocks' := blocks + buffer[..];
      assert Message() == blocks' && |blocks'| == |blocks| + 64;
      ProcessBlock();
      blocks := blocks';
      bitlen := (bitlen + 512) % TWO_64;
      bufferLen := 0;
    }

    // sha256_final
    method Final() returns (digest: seq<Byte>)
      requires Valid()
      modifies this, state, buffer
      ensures digest == Digest(old(Message()))
    {
      hide HashBlocks, BytesOf, Pad;
      ghost var m := Message();
      var totalBits := (bitlen + bufferLen * 8) % TWO_64;
      TotalBits(|blocks|, bufferLen);
      PadTo56();
      var lenBytes := LengthBytes(totalBits);
      Update(lenBytes);
      PadBytes(m, Message());
      RemainderIsBuffered();
      assert Message() == blocks;
      digest := Output();
    }

    // The 0x80 byte, then zero bytes until exactly eight bytes of room are left.
    method PadTo56()
      requires Valid()
      modifies this, state, buffer
      ensures Valid() && bufferLen == 56
      ensures Message() == old(Message()) + [0x80] + Zeros(ZeroBytes(|old(Message())|))
    {
      hide HashBlocks;
      ghost var m := Message();
      Update([0x80]);
      ghost var zeros := 0;
      PadDistance(|m|, 0);
      RemainderIsBuffered();
      while bufferLen != 56
        invariant Valid()
        invariant zeros <= ZeroBytes(|m|)
        invariant Message() == m + [0x80] + Zeros(zeros)
        invariant bufferLen == 56 <==> zeros == ZeroBytes(|m|)
        decreases ZeroBytes(|m|) - zeros
      {
        Update([0]);
        zeros := zeros + 1;
        PadDistance(|m|, zeros);
        RemainderIsBuffered();
      }
    }

    // The state words, most significant byte first.
    method Output() returns (digest: seq<Byte>)
      requires Shaped()
      ensures digest == BytesOf(Words(State()))
    {
      digest := [];
      for i := 0 to 8
        invariant digest == BytesOf(state[..i])
      {
        assert state[..i + 1][..i] == state[..i];
        digest := digest + BigEndian(state[i] as int, 4);
      }
      assert state[..8] == Words(State());
    }
  }

  // The message length in bits, recovered from the counter and the buffer.
  lemma TotalBits(whole: nat, rest: nat)
    ensures (8 * whole % TWO_64 + rest * 8) % TWO_64 == 8 * (whole + rest) % TWO_64
  {
    RemainderOfSum(8 * whole, rest * 8, TWO_64);
  }

  // The buffer holds 56 bytes after exactly the standard's number of zero bytes.
  lemma PadDistance(length: nat, zeros: nat)
    requires zeros <= ZeroBytes(length)
    ensures (length + 1 + zeros) % 64 == 56 <==> zeros == ZeroBytes(length)
  {
  }

  lemma PadBytes(m: seq<Byte>, padded: seq<Byte>)
    requires padded == m + [0x80] + Zeros(ZeroBytes(|m|)) + BigEndian(8 * |m| % TWO_64, 8)
    ensures padded == Pad(m)
  {
  }

  method LengthBytes(totalBits: nat) returns (lenBytes: seq<Byte>)
    ensures lenBytes == BigEndian(totalBits, 8)
  {
    lenBytes := [];
    for i := 0 to 8
      invariant lenBytes == BigEndian(totalBits, 8)[..i]
    {
      ByteAtBigEndian(totalBits, 8, i);
      lenBytes := lenBytes + [ByteAt(totalBits, 7 - i)];
    }
  }

  lemma ScheduleStep(block: seq<Byte>, t: nat)
    requires |block| == 64 && t < 64
    ensures Schedule(block, t) ==
            if t < 16 then WordOf(block[t * 4], block[t * 4 + 1], block[t * 4 + 2], block[t * 4 + 3])
            else Sum4(Schedule(block, t - 16), SmallSigma0(Schedule(block, t - 15)),
                      Schedule(block, t - 7), SmallSigma1(Schedule(block, t - 2)))
  {
  }

  // The message schedule of a block.
  method BuildSchedule(block: array<Byte>) returns (w: array<Word>)
    requires block.Length == 64
    ensures fresh(w) && w.Length == 64
    ensures forall t :: 0 <= t < 64 ==> w[t] == Schedule(block[..], t)
  {
    hide Schedule, WordOf, SmallSigma0, SmallSigma1, Sum4;
    w := new Word[64](_ => 0);
    for i := 0 to 16
      invariant forall t :: 0 <= t < i ==> w[t] == Schedule(block[..], t)
    {
      ScheduleStep(block[..], i);
      w[i] := WordOf(block[i * 4], block[i * 4 + 1], block[i * 4 + 2], block[i * 4 + 3]);
    }
    for i := 16 to 64
      invariant forall t :: 0 <= t < i ==> w[t] == Schedule(block[..], t)
    {
      ScheduleStep(block[..], i);
      var s0 := SmallSigma0(w[i - 15]);
      var s1 := SmallSigma1(w[i - 2]);
      w[i] := Sum4(w[i - 16], s0, w[i - 7], s1);
    }
  }

  // The 64 passes over the working variables.
  method RunRounds(start: Hash, w: array<Word>, ghost block: seq<Byte>) returns (r: Hash)
    requires |block| == 64 && w.Length == 64
    requires forall t :: 0 <= t < 64 ==> w[t] == Schedule(block, t)
    ensures r == Rounds(start, block, 64)
  {
    hide BigSigma0, BigSigma1, Ch, Maj, RoundConstant, Schedule, Plus, Sum4;
    var a, b, c, d := start.a, start.b, start.c, start.d;
    var e, f, g, h := start.e, start.f, start.g, start.h;
    for i := 0 to 64
      invariant Hash(a, b, c, d, e, f, g, h) == Rounds(start, block, i)
    {
      var temp1 := Plus(Sum4(h, BigSigma1(e), Ch(e, f, g), RoundConstant(i)), w[i]);
      var temp2 := Plus(BigSigma0(a), Maj(a, b, c));
      h := g;
      g := f;
      f := e;
      e := Plus(d, temp1);
      d := c;
      c := b;
      b := a;
      a := Plus(temp1, temp2);
    }
    r := Hash(a, b, c, d, e, f, g, h);
  }

  // memcpy into the buffer.
  method Copy(buffer: array<Byte>, at: nat, chunk: seq<Byte>)
    requires at + |chunk| <= buffer.Length
    modifies buffer
    ensures buffer[..at + |chunk|] == old(buffer[..at]) + chunk
  {
    for j := 0 to |chunk|
      invariant buffer[..at + j] == old(buffer[..at]) + chunk[..j]
    {
      buffer[at + j] := chunk[j];
    }
  }

  lemma NothingHashed()
    ensures HashBlocks([]) == Initial()
  {
  }

  lemma BitsOneMore(n: nat)
    ensures n % 64 == 0 ==> (n + 64) % 64 == 0
    ensures (8 * n % TWO_64 + 512) % TWO_64 == 8 * (n + 64) % TWO_64
  {
    RemainderOfSum(8 * n, 512, TWO_64);
  }

  lemma HashOneMore(blocks: seq<Byte>, block: seq<Byte>)
    requires |blocks| % 64 == 0 && |block| == 64
    ensures HashBlocks(blocks + block) == Compress(HashBlocks(blocks), block)
  {
    hide Compress;
    assert (blocks + block)[..|blocks|] == blocks;
    assert (blocks + block)[|blocks|..] == block;
  }

  // The byte of n left after shifting out k bytes.
  function ByteAt(n: nat, k: nat): (b: nat)
    ensures b < 256
  {
    if k == 0 then n % 256 else ByteAt(n / 256, k - 1)
  }

  lemma {:induction false} ByteAtBigEndian(n: nat, length: nat, i: nat)
    requires i < length
    ensures BigEndian(n, length)[i] == ByteAt(n, length - 1 - i)
  {
    if i < length - 1 {
      ByteAtBigEndian(n / 256, length - 1, i);
    }
  }

  // Feeding a message piece by piece, as sha256_file_hex does with what each read returns.
  method HashChunks(chunks: seq<seq<Byte>>) returns (digest: seq<Byte>)
    ensures digest == Digest(Concat(chunks))
  {
    var ctx := new Context();
    for i := 0 to |chunks|
      invariant ctx.Valid() && fresh(ctx) && fresh(ctx.state) && fresh(ctx.buffer)
      invariant ctx.Message() == Concat(chunks[..i])
    {
      assert chunks[..i + 1][..i] == chunks[..i];
      ctx.Update(chunks[i]);
    }
    assert chunks[..|chunks|] == chunks;
    digest := ctx.Final();
  }

  function Concat(chunks: seq<seq<Byte>>): seq<Byte> {
    if chunks == [] then [] else Concat(chunks[..|chunks| - 1]) + chunks[|chunks| - 1]
  }
}
