/** The buffered block hasher, and that it computes SHA-256 however the message is cut up. */
module Sha256 {
  import opened Bytes
  import opened Sha256Words
  import opened Sha256Spec

  /** The RND macro's two temporaries computed with the code's word functions are the standard's. */
  lemma RoundForms(v: Vars)
    ensures Sigma1(v.e) == BigSigma1(v.e) && ChCode(v.e, v.f, v.g) == Ch(v.e, v.f, v.g)
    ensures Sigma0(v.a) == BigSigma0(v.a) && MajCode(v.a, v.b, v.c) == Maj(v.a, v.b, v.c)
  {
    hide *;
    Sigma1IsBigSigma1(v.e);
    Sigma0IsBigSigma0(v.a);
    ChCodeIsCh(v.e, v.f, v.g);
    MajCodeIsMaj(v.a, v.b, v.c);
  }

  ghost function VarsOf(s: seq<word>): Vars
    requires |s| == 8
  {
    Vars(s[0], s[1], s[2], s[3], s[4], s[5], s[6], s[7])
  }

  /** The message schedule as sha_compress fills it. */
  method FillSchedule(block: Block) returns (W: array<word>)
    ensures fresh(W) && W[..] == Schedule(block, 64)
  {
    hide Add, Gamma0, Gamma1, SmallSigma0, SmallSigma1, BigEndianWord, Load32;
    W := new word[64](_ => 0);
    for i := 0 to 64
      invariant W[..i] == Schedule(block, i)
    {
      if i < 16 {
        W[i] := Load32(block[4 * i..4 * i + 4]);
      } else {
        Gamma1IsSmallSigma1(W[i - 2]);
        Gamma0IsSmallSigma0(W[i - 15]);
        W[i] := Add(Add(Add(Gamma1(W[i - 2]), W[i - 7]), Gamma0(W[i - 15])), W[i - 16]);
      }
      assert W[..i + 1] == W[..i] + [W[i]];
    }
    assert W[..64] == W[..];
  }

  /** One RND and the rotation of the working variables that follows it. */
  method RoundInPlace(S: array<word>, k: word, w: word)
    requires S.Length == 8
    modifies S
    ensures VarsOf(S[..]) == Round(old(VarsOf(S[..])), k, w)
  {
    hide Add, Sigma0, Sigma1, BigSigma0, BigSigma1, ChCode, MajCode, Ch, Maj;
    RoundForms(VarsOf(S[..]));
    var t0 := Add(Add(Add(Add(S[7], Sigma1(S[4])), ChCode(S[4], S[5], S[6])), k), w);
    var t1 := Add(Sigma0(S[0]), MajCode(S[0], S[1], S[2]));
    S[3] := Add(S[3], t0);
    S[7] := Add(t0, t1);
    var t := S[7];
    S[7] := S[6];
    S[6] := S[5];
    S[5] := S[4];
    S[4] := S[3];
    S[3] := S[2];
    S[2] := S[1];
    S[1] := S[0];
    S[0] := t;
  }

  /** sha_compress on the eight chaining words. */
  method CompressInPlace(state: array<word>, block: Block)
    requires state.Length == 8
    modifies state
    ensures state[..] == Compress(old(state[..]), block)
  {
    hide Round, Schedule, Add, K;
    ghost var h := state[..];
    var S := new word[8](i requires 0 <= i < 8 reads state => state[i]);
    assert S[..] == h;
    var W := FillSchedule(block);
    for i := 0 to 64
      invariant W[..] == Schedule(block, 64) && state[..] == h
      invariant VarsOf(S[..]) == Rounds(VarsOf(h), Schedule(block, 64), i)
    {
      RoundInPlace(S, K(i), W[i]);
    }
    Feedback(state, S);
  }

  method Feedback(state: array<word>, S: array<word>)
    requires state.Length == 8 && S.Length == 8 && state != S
    modifies state
    ensures forall j :: 0 <= j < 8 ==> state[j] == Add(old(state[j]), S[j])
  {
    hide Add;
    for i := 0 to 8
      invariant forall j :: 0 <= j < 8 ==> state[j] == if j < i then Add(old(state[j]), S[j]) else old(state[j])
    {
      state[i] := Add(state[i], S[i]);
    }
  }

  /** What sha256_update passes on of a chunk: sha_process takes its length as a 32-bit number. */
  function Absorbed(data: seq<octet>): seq<octet> {
    data[..|data| % U32_RANGE]
  }

  /** A chunk is absorbed whole exactly when it is shorter than 4 GiB. */
  lemma AbsorbedWhole(data: seq<octet>)
    ensures Absorbed(data) == data <==> |data| < U32_RANGE
  {
    if Absorbed(data) == data {
      assert |Absorbed(data)| == |data| % U32_RANGE;
    } else {
      assert |data| >= U32_RANGE;
    }
  }

  /** The context md, as a value, holds the hash state of message m. */
  ghost predicate Holds(state: seq<word>, buf: seq<octet>, curlen: nat, length: nat, m: seq<octet>) {
    && |state| == 8 && |buf| == 64 && curlen < 64 && curlen <= |m| && (|m| - curlen) % 64 == 0
    && state == Process(IV, m[..|m| - curlen])
    && buf[..curlen] == m[|m| - curlen..]
    && length == 8 * (|m| - curlen) % U64_RANGE
  }

  /** Appending less than a block to the buffer. */
  lemma HoldsBuffered(state: seq<word>, buf: seq<octet>, curlen: nat, length: nat, m: seq<octet>,
                      piece: seq<octet>, buf2: seq<octet>)
    requires Holds(state, buf, curlen, length, m) && curlen + |piece| < 64
    requires |buf2| == 64 && buf2[..curlen + |piece|] == buf[..curlen] + piece
    ensures Holds(state, buf2, curlen + |piece|, length, m + piece)
  {
    assert (m + piece)[..|m| - curlen] == m[..|m| - curlen];
    assert (m + piece)[|m| - curlen..] == m[|m| - curlen..] + piece;
  }

  /** Compressing a full block made of the buffered octets and piece. */
  lemma HoldsBlock(state: seq<word>, buf: seq<octet>, curlen: nat, length: nat, m: seq<octet>,
                   piece: seq<octet>, block: Block, buf2: seq<octet>)
    requires Holds(state, buf, curlen, length, m) && |buf2| == 64
    requires block == buf[..curlen] + piece
    ensures Holds(Compress(state, block), buf2, 0, (length + 512) % U64_RANGE, m + piece)
  {
    hide Compress, Sha256Spec.Process;
    var n := |m| - curlen;
    var m2 := m + piece;
    assert |m2| == n + 64 && (n + 64) % 64 == 0;
    WithBlock(m, n, buf[..curlen], piece, block);
    assert m2[..|m2| - 0] == m2 && m2[|m2| - 0..] == [] && buf2[..0] == [];
    ProcessBlock(IV, m[..n], block);
    LengthStep(n, 64);
  }

  lemma WithBlock(m: seq<octet>, n: nat, rest: seq<octet>, piece: seq<octet>, block: seq<octet>)
    requires n <= |m| && rest == m[n..] && block == rest + piece
    ensures m + piece == m[..n] + block
  {
  }

  lemma LengthStep(n: nat, k: nat)
    ensures (8 * n % U64_RANGE + 8 * k) % U64_RANGE == 8 * (n + k) % U64_RANGE
  {
  }

  /** The unhashed end of message m: rest follows whole blocks. */
  ghost predicate IsRest(m: seq<octet>, rest: seq<octet>) {
    |rest| < 64 && |rest| <= |m| && (|m| - |rest|) % 64 == 0 && rest == m[|m| - |rest|..]
  }

  ghost function LengthField(m: seq<octet>): (s: seq<octet>)
    ensures |s| == 8
  {
    BigEndian(8 * |m| % U64_RANGE, 8)
  }

  lemma RestIs(m: seq<octet>, rest: seq<octet>)
    requires IsRest(m, rest)
    ensures ZeroCount(|m|) == if |rest| <= 55 then 55 - |rest| else 119 - |rest|
  {
    assert |m| % 64 == |rest|;
  }

  lemma ZerosSplit(a: nat, b: nat)
    ensures Zeros(a + b) == Zeros(a) + Zeros(b)
  {
  }

  /** A message whose unhashed rest leaves room for the length field is padded with one block. */
  lemma PadInOneBlock(m: seq<octet>, rest: seq<octet>, block: Block)
    requires IsRest(m, rest) && |rest| <= 55
    requires block == rest + [0x80] + Zeros(55 - |rest|) + LengthField(m)
    ensures Sha256Spec.Process(IV, Pad(m)) == Compress(Sha256Spec.Process(IV, m[..|m| - |rest|]), block)
  {
    RestIs(m, rest);
    hide Zeros, BigEndian, Compress, Sha256Spec.Process, ZeroCount;
    var front := m[..|m| - |rest|];
    assert m == front + rest;
    Regroup(front, rest, [0x80], Zeros(55 - |rest|), LengthField(m));
    ProcessBlock(IV, front, block);
  }

  /** Otherwise the '1' bit ends a first block and a second one holds zeros and the length. */
  lemma PadInTwoBlocks(m: seq<octet>, rest: seq<octet>, block1: Block, block2: Block)
    requires IsRest(m, rest) && |rest| >= 56
    requires block1 == rest + [0x80] + Zeros(63 - |rest|)
    requires block2 == Zeros(56) + LengthField(m)
    ensures Sha256Spec.Process(IV, Pad(m))
         == Compress(Compress(Sha256Spec.Process(IV, m[..|m| - |rest|]), block1), block2)
  {
    hide BigEndian, Zeros, Compress, Sha256Spec.Process, Pad;
    var front := m[..|m| - |rest|];
    TwoBlocksOfPadding(m, rest, front, block1, block2);
    ProcessBlock(IV, front, block1);
    ProcessBlock(IV, front + block1, block2);
  }

  lemma TwoBlocksOfPadding(m: seq<octet>, rest: seq<octet>, front: seq<octet>, block1: seq<octet>, block2: seq<octet>)
    requires IsRest(m, rest) && |rest| >= 56 && front == m[..|m| - |rest|]
    requires block1 == rest + [0x80] + Zeros(63 - |rest|)
    requires block2 == Zeros(56) + LengthField(m)
    ensures Pad(m) == (front + block1) + block2
  {
    RestIs(m, rest);
    ZerosSplit(63 - |rest|, 56);
    hide BigEndian, Zeros, ZeroCount;
    assert m == front + rest;
    Regroup2(front, rest, [0x80], Zeros(63 - |rest|), Zeros(56), LengthField(m));
  }

  lemma Regroup(a: seq<octet>, b: seq<octet>, c: seq<octet>, d: seq<octet>, e: seq<octet>)
    ensures (a + b) + c + d + e == a + (b + c + d + e)
  {
  }

  lemma Regroup2(a: seq<octet>, b: seq<octet>, c: seq<octet>, d: seq<octet>, e: seq<octet>, f: seq<octet>)
    ensures (a + b) + c + (d + e) + f == (a + (b + c + d)) + (e + f)
  {
  }

  /** Octet j of a word as store32 computes it. */
  function StoredOctet(x: word, j: nat): octet
    requires j < 4
  {
    ((x >> ((3 - j) * 8)) & 255) as octet
  }

  lemma StoredIsWordOctet(x: word, j: nat)
    requires j < 4
    ensures StoredOctet(x, j) == WordOctet(x, j)
  {
    if j == 0 {
    } else if j == 1 {
    } else if j == 2 {
    } else {
      assert x >> 0 == x;
    }
  }

  lemma StoreNext(x: word, j: nat)
    requires j < 4
    ensures WordOctets(x)[..j + 1] == WordOctets(x)[..j] + [StoredOctet(x, j)]
  {
    hide WordOctet, StoredOctet;
    StoredIsWordOctet(x, j);
    assert WordOctets(x)[j] == WordOctet(x, j);
  }

  class Sha256Ctx {
    var length: nat        // bits compressed so far, an unsigned 64-bit number
    var state: array<word>
    var curlen: nat
    var buf: array<octet>
    ghost var message: seq<octet>

    ghost predicate Valid()
      reads this, state, buf
    {
      Holds(state[..], buf[..], curlen, length, message)
    }

    ghost function Repr(): set<object>
      reads this
    {
      {this, state, buf}
    }

    constructor Init()
      ensures Valid() && fresh(Repr()) && message == []
    {
      state := new word[8](i requires 0 <= i < 8 => IV[i]);
      buf := new octet[64](_ => 0);
      curlen, length, message := 0, 0, [];
      new;
      assert state[..] == IV;
    }

    /** sha_process: whole blocks straight from the input while nothing is buffered, else via buf. */
    method Process(data: seq<octet>)
      requires Valid() && |data| < U32_RANGE
      modifies this, state, buf
      ensures Valid() && state == old(state) && buf == old(buf)
      ensures message == old(message) + data
    {
      hide Compress, Sha256Spec.Process;
      var blockSize := 64;
      var input := data;
      while |input| > 0
        invariant Valid() && state == old(state) && buf == old(buf)
        invariant message + input == old(message) + data
        decreases |input|
      {
        if curlen == 0 && |input| >= blockSize {
          AbsorbBlock(input[..64]);
          assert input == input[..64] + input[64..];
          input := input[64..];
        } else {
          var n := Min(|input|, blockSize - curlen);
          AbsorbBuffered(input[..n]);
          assert input == input[..n] + input[n..];
          input := input[n..];
        }
      }
    }

    method AbsorbBlock(block: Block)
      requires Valid() && curlen == 0
      modifies this`length, this`message, state
      ensures Valid() && message == old(message) + block
    {
      hide Compress, Sha256Spec.Process;
      assert block == buf[..0] + block;
      HoldsBlock(state[..], buf[..], 0, length, message, block, block, buf[..]);
      CompressInPlace(state, block);
      length := (length + 512) % U64_RANGE;
      message := message + block;
    }

    method AbsorbBuffered(piece: seq<octet>)
      requires Valid() && 0 < |piece| <= 64 - curlen
      modifies this`length, this`curlen, this`message, state, buf
      ensures Valid() && message == old(message) + piece
    {
      hide Compress, Sha256Spec.Process;
      ghost var was := buf[..];
      forall i | 0 <= i < |piece| {
        buf[curlen + i] := piece[i];
      }
      assert buf[..curlen + |piece|] == was[..curlen] + piece;
      if curlen + |piece| == 64 {
        assert buf[..] == was[..curlen] + piece;
        HoldsBlock(state[..], was, curlen, length, message, piece, buf[..], buf[..]);
        CompressInPlace(state, buf[..]);
        length := (length + 512) % U64_RANGE;
        curlen := 0;
      } else {
        HoldsBuffered(state[..], was, curlen, length, message, piece, buf[..]);
        curlen := curlen + |piece|;
      }
      message := message + piece;
    }

    /** sha256_update. */
    method Update(data: seq<octet>)
      requires Valid()
      modifies this, state, buf
      ensures Valid() && state == old(state) && buf == old(buf)
      ensures message == old(message) + Absorbed(data)
    {
      Process(data[..|data| % U32_RANGE]);
    }

    /** The first part of sha_done: the '1' bit, zeros and the length, through one block or two. */
    method CompressPadding()
      requires Valid()
      modifies this, state, buf
      ensures state == old(state) && buf == old(buf) && state.Length == 8
      ensures state[..] == Sha256Spec.Process(IV, Pad(old(message)))
    {
      hide Compress, Sha256Spec.Process, Pad, BigEndian, Zeros;
      ghost var m, c := message, curlen;
      ghost var rest, h := buf[..curlen], state[..];
      assert IsRest(m, rest) && h == Sha256Spec.Process(IV, m[..|m| - |rest|]);
      LengthStep(|m| - c, c);
      length := (length + curlen * 8) % U64_RANGE;
      buf[curlen] := 0x80;
      curlen := curlen + 1;
      assert buf[..curlen] == rest + [0x80];
      if curlen > 56 {
        FlushFullBlock(rest);
        FillZeros(56);
        FinishBlock();
        PadInTwoBlocks(m, rest, rest + [0x80] + Zeros(63 - c), buf[..]);
      } else {
        FillZeros(56);
        FinishBlock();
        PadInOneBlock(m, rest, buf[..]);
      }
    }

    /** sha_done: pad, append the length, and write the chaining words out. */
    method Done() returns (digest: seq<octet>)
      requires Valid()
      modifies this, state, buf
      ensures digest == Sha256(old(message)) && state == old(state) && buf == old(buf)
    {
      hide Compress, Sha256Spec.Process, Pad;
      CompressPadding();
      digest := Output();
    }

    /** The padding's first block when the length field does not fit behind the '1' bit. */
    method FlushFullBlock(ghost rest: seq<octet>)
      requires state.Length == 8 && buf.Length == 64 && 56 < curlen <= 64
      requires |rest| + 1 == curlen && buf[..curlen] == rest + [0x80]
      modifies this`curlen, state, buf
      ensures curlen == 0
      ensures state[..] == Compress(old(state[..]), rest + [0x80] + Zeros(63 - |rest|))
    {
      hide Compress, Zeros;
      FillZeros(64);
      assert buf[..] == buf[..64];
      CompressInPlace(state, buf[..]);
      curlen := 0;
    }

    /** The zero-filling loops of sha_done. */
    method FillZeros(end: nat)
      requires curlen <= end <= 64 && buf.Length == 64
      modifies this`curlen, buf
      ensures curlen == end
      ensures buf[..end] == old(buf[..curlen]) + Zeros(end - old(curlen))
    {
      while curlen < end
        invariant old(curlen) <= curlen <= end
        invariant buf[..curlen] == old(buf[..curlen]) + Zeros(curlen - old(curlen))
      {
        buf[curlen] := 0;
        curlen := curlen + 1;
        assert buf[..curlen] == buf[..curlen - 1] + [0];
      }
    }

    /** store64 of the length into the last eight octets, and the final sha_compress. */
    method FinishBlock()
      requires state.Length == 8 && buf.Length == 64
      modifies state, buf
      ensures buf[..] == old(buf[..56]) + BigEndian(length, 8)
      ensures state[..] == Compress(old(state[..]), buf[..])
    {
      hide Compress;
      for i := 0 to 8
        invariant buf[..56 + i] == old(buf[..56]) + BigEndian(length, 8)[..i]
        invariant state[..] == old(state[..])
      {
        BigEndianAt(length, 8, i);
        buf[56 + i] := Octet(length / Pow256(7 - i) % 256);
        assert buf[..56 + i + 1] == buf[..56 + i] + [BigEndian(length, 8)[i]];
      }
      assert buf[..] == buf[..64] == old(buf[..56]) + BigEndian(length, 8);
      CompressInPlace(state, buf[..]);
    }

    /** store32 of each chaining word. */
    method Output() returns (digest: seq<octet>)
      requires state.Length == 8
      ensures digest == HashOctets(state[..])
    {
      hide WordOctet, StoredOctet;
      digest := [];
      for i := 0 to 8
        invariant digest == HashOctets(state[..i])
      {
        hide WordOctets;
        for j := 0 to 4
          invariant digest == HashOctets(state[..i]) + WordOctets(state[i])[..j]
        {
          StoreNext(state[i], j);
          digest := digest + [StoredOctet(state[i], j)];
        }
        assert state[..i + 1][..i] == state[..i];
      }
      assert state[..8] == state[..];
    }
  }

  /** All the chunks handed to sha256_update, as far as it absorbs them. */
  function AbsorbedAll(chunks: seq<seq<octet>>): seq<octet> {
    if chunks == [] then [] else AbsorbedAll(chunks[..|chunks| - 1]) + Absorbed(chunks[|chunks| - 1])
  }

  /** Chunks below 4 GiB are all absorbed whole. */
  lemma {:induction false} AllAbsorbedWhole(chunks: seq<seq<octet>>)
    requires forall i :: 0 <= i < |chunks| ==> |chunks[i]| < U32_RANGE
    ensures AbsorbedAll(chunks) == Concat(chunks)
  {
    if chunks != [] {
      var front, last := chunks[..|chunks| - 1], chunks[|chunks| - 1];
      AllAbsorbedWhole(front);
      AbsorbedWhole(last);
      ConcatAppend(front, last);
      assert chunks == front + [last];
    }
  }

  /** init, any number of updates, finish: the digest of the message, however it is cut. */
  method HashChunks(chunks: seq<seq<octet>>) returns (digest: seq<octet>)
    ensures digest == Sha256(AbsorbedAll(chunks))
    ensures (forall i :: 0 <= i < |chunks| ==> |chunks[i]| < U32_RANGE) ==> digest == Sha256(Concat(chunks))
  {
    hide Sha256Spec.Sha256, Absorbed, Sha256Ctx.Valid;
    var ctx := new Sha256Ctx.Init();
    for i := 0 to |chunks|
      invariant ctx.Valid() && fresh(ctx.Repr())
      invariant ctx.message == AbsorbedAll(chunks[..i])
    {
      ctx.Update(chunks[i]);
      assert chunks[..i + 1][..i] == chunks[..i];
    }
    assert chunks[..|chunks|] == chunks;
    digest := ctx.Done();
    if forall i :: 0 <= i < |chunks| ==> |chunks[i]| < U32_RANGE {
      AllAbsorbedWhole(chunks);
    }
  }
}
