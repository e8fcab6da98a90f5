/** The incremental hasher of frontend/src/lib/sha256.ts. */
module Sha256 {
  import opened Words
  import opened JsNumbers
  import opened Sha256Arithmetic
  import Fips180

  /** `Number.toString(16)`: no leading zeros. */
  function ToString16(x: nat): string {
    if x < 16 then [Fips180.HEX_DIGITS[x]] else ToString16(x / 16) + [Fips180.HEX_DIGITS[x % 16]]
  }

  function PadStart(s: string, n: nat, c: char): string {
    if |s| >= n then s else seq(n - |s|, _ => c) + s
  }

  lemma {:induction false} PaddedDigits(x: nat, n: nat)
    requires 0 < n && x < Pow2(4 * n)
    ensures |ToString16(x)| <= n && PadStart(ToString16(x), n, '0') == Fips180.Hex(x, n)
  {
    if x >= 16 {
      Pow2Add(4, 4 * n - 4);
      assert Pow2(4) == 16;
      PaddedDigits(x / 16, n - 1);
      assert PadStart(ToString16(x), n, '0')
          == PadStart(ToString16(x / 16), n - 1, '0') + [Fips180.HEX_DIGITS[x % 16]];
    } else {
      assert x / 16 == 0;
      HexOfZero(n - 1);
      assert Fips180.Hex(x, n) == seq(n - 1, _ => '0') + [Fips180.HEX_DIGITS[x]];
    }
  }

  lemma {:induction false} HexOfZero(n: nat)
    ensures Fips180.Hex(0, n) == seq(n, _ => '0')
  {
    if n > 0 {
      HexOfZero(n - 1);
    }
  }

  /** Whole blocks of `m` are in the hash value, the other `n` bytes in the block. */
  ghost predicate Holds(m: seq<byte>, hash: seq<word>, block: seq<byte>, n: nat) {
    && n == |m| % 64 <= |block|
    && block[..n] == m[|m| - n..]
    && hash == Fips180.HashBlocks(m[..|m| - n])
  }

  lemma HoldsBounds(m: seq<byte>, hash: seq<word>, block: seq<byte>, n: nat)
    requires Holds(m, hash, block, n)
    ensures n < 64
  {
  }

  lemma PartlyFilled(m: seq<byte>, data: seq<byte>, hash: seq<word>, block: seq<byte>, n: nat, block': seq<byte>)
    requires Holds(m, hash, block, n) && |block| == 64 && n + |data| < 64
    requires block' == block[..n] + data + block[n + |data|..]
    ensures Holds(m + data, hash, block', n + |data|)
  {
    hide Fips180.HashBlocks;
    var all, start := m + data, |m| - n;
    assert start % 64 == 0;
    assert all[..start] == m[..start];
    assert block'[..n + |data|] == m[start..] + data == all[start..];
  }

  lemma Filled(m: seq<byte>, data: seq<byte>, hash: seq<word>, block: seq<byte>, n: nat, block': seq<byte>)
    requires Holds(m, hash, block, n) && |block| == 64 && 64 - n <= |data|
    requires block' == block[..n] + data[..64 - n] + block[64..]
    ensures (|m| + 64 - n) % 64 == 0 && |hash| == 8
    ensures Fips180.HashBlocks((m + data)[..|m| + 64 - n]) == Fips180.Compress(hash, block')
  {
    hide Fips180.HashBlocks, Fips180.Compress;
    var all, start := m + data, |m| - n;
    assert start % 64 == 0;
    assert all[..start] == m[..start];
    assert block' == m[start..] + data[..64 - n] == all[start..start + 64];
    Fips180.HashNextBlock(all, start);
  }

  lemma NothingStarted(m: seq<byte>, data: seq<byte>, hash: seq<word>, block: seq<byte>)
    requires Holds(m, hash, block, 0)
    ensures |m| % 64 == 0 && hash == Fips180.HashBlocks((m + data)[..|m|])
  {
    assert (m + data)[..|m|] == m[..|m|];
  }

  lemma TailKept(m: seq<byte>, data: seq<byte>, offset: nat, hash: seq<word>, block: seq<byte>, block': seq<byte>)
    requires offset <= |data| < offset + 64 && (|m| + offset) % 64 == 0 && |block| == 64
    requires hash == Fips180.HashBlocks((m + data)[..|m| + offset])
    requires block' == data[offset..] + block[|data| - offset..]
    ensures Holds(m + data, hash, block', |data| - offset)
  {
    hide Fips180.HashBlocks;
    var rest := |data| - offset;
    assert |m + data| == |m| + offset + rest;
    assert block'[..rest] == data[offset..] == (m + data)[|m| + offset..];
  }

  class Sha256 {
    var state: array<word>
    var block: array<byte>
    var blockLength: nat
    var bytes: nat
    var w: array<word>
    var done: bool
    /** Every byte given to `Update`, in order. */
    ghost var fed: seq<byte>

    ghost predicate Valid()
      reads this, state, block
    {
      && Shape()
      && if done then state[..] == Fips180.Sha256(fed) else Buffered(fed)
    }

    ghost predicate Shape()
      reads this
    {
      && state.Length == 8 && block.Length == 64 && w.Length == 64 && state != w
      && block as object != state && block as object != w
    }

    /** Whole blocks of `m` are in `state`, the rest of it in `block`. */
    ghost predicate Buffered(m: seq<byte>)
      requires Shape()
      reads this, state, block
    {
      bytes == |m| && Holds(m, state[..], block[..], blockLength)
    }

    constructor ()
      ensures Valid() && !done && fed == []
      ensures fresh(state) && fresh(block) && fresh(w)
    {
      state := new word[8](i requires 0 <= i < 8 => Fips180.INITIAL[i]);
      block := new byte[64];
      w := new word[64];
      blockLength, bytes, done, fed := 0, 0, false, [];
      new;
      assert state[..] == Fips180.INITIAL;
    }

    /** Fills `w` with the schedule of one block. */
    method FillSchedule(data: seq<byte>, offset: nat)
      requires Shape() && offset + 64 <= |data|
      modifies w
      ensures forall t :: 0 <= t < 64 ==> w[t] == Fips180.Schedule(data[offset..offset + 64], t)
    {
      hide ToUint32, ToInt32, JsWord, BigEndian, JsSmallSigma0, JsSmallSigma1, Fips180.SmallSigma0,
           Fips180.SmallSigma1, Add;
      ghost var m: Fips180.Block := data[offset..offset + 64];
      for i := 0 to 16
        invariant forall t :: 0 <= t < i ==> w[t] == Fips180.Schedule(m, t)
      {
        var j := offset + i * 4;
        WordsMatch(data[j], data[j + 1], data[j + 2], data[j + 3]);
        w[i] := ToUint32(JsWord(data[j], data[j + 1], data[j + 2], data[j + 3]));
      }
      for i := 16 to 64
        invariant forall t :: 0 <= t < i ==> w[t] == Fips180.Schedule(m, t)
      {
        ScheduleMatches(m, i);
        w[i] := ToUint32(ToInt32(w[i - 16] + JsSmallSigma0(w[i - 15]) + w[i - 7] + JsSmallSigma1(w[i - 2])));
      }
    }

    /** The 64 rounds, from the current state and the filled schedule. */
    method RunRounds(ghost m: Fips180.Block)
      returns (a: int, b: int, c: int, d: int, e: int, f: int, g: int, h: int)
      requires Shape() && forall t :: 0 <= t < 64 ==> w[t] == Fips180.Schedule(m, t)
      ensures WorkingBits(a, b, c, d, e, f, g, h) == Fips180.Rounds(state[..], m, |Fips180.K|)
    {
      hide ToUint32, ToInt32, JsBigSigma0, JsBigSigma1, JsCh, JsMaj, Add, Fips180.Schedule, Fips180.Round;
      ghost var hash: Fips180.HashValue := state[..];
      a, b, c, d := state[0], state[1], state[2], state[3];
      e, f, g, h := state[4], state[5], state[6], state[7];
      InitialBits(hash);
      for i := 0 to |Fips180.K|
        invariant WorkingBits(a, b, c, d, e, f, g, h) == Fips180.Rounds(hash, m, i)
      {
        RoundMatches(a, b, c, d, e, f, g, h, Fips180.K[i], w[i]);
        var t1 := ToInt32(h + JsBigSigma1(e) + JsCh(e, f, g) + Fips180.K[i] + w[i]);
        var t2 := ToInt32(JsBigSigma0(a) + JsMaj(a, b, c));
        h := g;
        g := f;
        f := e;
        e := ToInt32(d + t1);
        d := c;
        c := b;
        b := a;
        a := ToInt32(t1 + t2);
      }
    }

    method Compress(data: seq<byte>, offset: nat)
      requires Shape() && offset + 64 <= |data|
      modifies state, w
      ensures state[..] == Fips180.Compress(old(state[..]), data[offset..offset + 64])
    {
      hide ToUint32, Fips180.Rounds, Fips180.AddTo, WorkingBits;
      FillSchedule(data, offset);
      ghost var m: Fips180.Block := data[offset..offset + 64];
      ghost var hash: Fips180.HashValue := state[..];
      var a, b, c, d, e, f, g, h := RunRounds(m);
      AddToMatches(hash, a, b, c, d, e, f, g, h);
      state[0] := ToUint32(state[0] + a);
      state[1] := ToUint32(state[1] + b);
      state[2] := ToUint32(state[2] + c);
      state[3] := ToUint32(state[3] + d);
      state[4] := ToUint32(state[4] + e);
      state[5] := ToUint32(state[5] + f);
      state[6] := ToUint32(state[6] + g);
      state[7] := ToUint32(state[7] + h);
      assert state[..] == Fips180.AddTo(WorkingBits(a, b, c, d, e, f, g, h), hash);
    }

    /** Compresses the whole blocks of `data` from `start` on. */
    method AbsorbBlocks(data: seq<byte>, start: nat, ghost before: seq<byte>) returns (offset: nat)
      requires Shape() && start <= |data| && (|before| + start) % 64 == 0
      requires state[..] == Fips180.HashBlocks((before + data)[..|before| + start])
      modifies state, w
      ensures start <= offset <= |data| < offset + 64 && (|before| + offset) % 64 == 0
      ensures state[..] == Fips180.HashBlocks((before + data)[..|before| + offset])
    {
      hide Fips180.HashBlocks, Fips180.Compress;
      ghost var all := before + data;
      offset := start;
      while offset + 64 <= |data|
        invariant start <= offset <= |data| && (|before| + offset) % 64 == 0
        invariant state[..] == Fips180.HashBlocks(all[..|before| + offset])
      {
        Fips180.HashNextBlock(all, |before| + offset);
        assert data[offset..offset + 64] == all[|before| + offset..|before| + offset + 64];
        Compress(data, offset);
        offset := offset + 64;
      }
    }

    /** Goes on with a started block, and compresses it when that fills it. */
    method FillBlock(data: seq<byte>, ghost before: seq<byte>) returns (offset: nat)
      requires Shape() && 0 < blockLength && Holds(before, state[..], block[..], blockLength)
      modifies this`blockLength, state, block, w
      ensures offset <= |data|
      ensures blockLength > 0 ==> Holds(before + data, state[..], block[..], blockLength)
      ensures blockLength == 0 ==>
                && (|before| + offset) % 64 == 0
                && state[..] == Fips180.HashBlocks((before + data)[..|before| + offset])
    {
      hide Fips180.HashBlocks, Fips180.Compress, Holds;
      var take := if 64 - blockLength < |data| then 64 - blockLength else |data|;
      ghost var hash, started, used := state[..], block[..], blockLength;
      HoldsBounds(before, hash, started, used);
      SetBytes(block, blockLength, data[..take]);
      blockLength := blockLength + take;
      offset := take;
      if blockLength < 64 {
        assert data[..take] == data;
        PartlyFilled(before, data, hash, started, used, block[..]);
      } else {
        Filled(before, data, hash, started, used, block[..]);
        assert block[..] == block[..][0..64];
        Compress(block[..], 0);
        blockLength := 0;
      }
    }

    /** Hashes more of the message. Refused (`false`) once the digest was taken. */
    method Update(data: seq<byte>) returns (ok: bool)
      requires Valid()
      modifies this, state, block, w
      ensures Valid() && state == old(state) && block == old(block) && w == old(w)
      ensures ok == !old(done) && done == old(done)
      ensures fed == if ok then old(fed) + data else old(fed)
      ensures ok ==> Buffered(fed)
    {
      hide Fips180.HashBlocks, Fips180.Compress, Fips180.Sha256, Holds;
      if done {
        return false;
      }
      ghost var before := fed;
      bytes := bytes + |data|;
      fed := before + data;
      var offset := 0;
      if blockLength > 0 {
        offset := FillBlock(data, before);
        if blockLength > 0 {
          return true;
        }
      } else {
        NothingStarted(before, data, state[..], block[..]);
      }
      AbsorbRest(data, offset, before);
      return true;
    }

    /** Compresses the whole blocks of `data` from `start` on, and keeps the bytes after. */
    method AbsorbRest(data: seq<byte>, start: nat, ghost before: seq<byte>)
      requires Shape() && start <= |data| && (|before| + start) % 64 == 0 && blockLength == 0
      requires state[..] == Fips180.HashBlocks((before + data)[..|before| + start])
      modifies this`blockLength, state, block, w
      ensures Holds(before + data, state[..], block[..], blockLength)
    {
      hide Fips180.HashBlocks, Holds;
      var offset := AbsorbBlocks(data, start, before);
      ghost var stale := block[..];
      if offset < |data| {
        SetBytes(block, 0, data[offset..]);
        blockLength := |data| - offset;
      }
      TailKept(before, data, offset, state[..], stale, block[..]);
    }

    /** The padding of the message so far: one block's worth or two, with the message
        length in its last two words. */
    method MakePadding() returns (padding: array<byte>)
      requires Shape() && bytes < MAX_BYTES && blockLength == bytes % 64
      ensures fresh(padding) && padding[..] == Fips180.Padding(bytes)
    {
      hide Fips180.BigEndianBytes, Fips180.Padding;
      var bitsHigh := bytes / 0x2000_0000;
      var bitsLow := ToUint32(bytes * 8);
      padding := new byte[if blockLength < 56 then 64 - blockLength else 128 - blockLength](_ => 0);
      padding[0] := 0x80;
      SetUint32(padding, padding.Length - 8, bitsHigh);
      SetUint32(padding, padding.Length - 4, bitsLow);
      PaddingMatches(bytes, padding[..]);
    }

    /** The digest of everything fed so far, as lowercase hex. Taking it again
        gives the same answer; nothing can be fed afterwards. */
    method Hex() returns (digest: string)
      requires Valid() && |fed| < MAX_BYTES
      modifies this, state, block, w
      ensures Valid() && done && fed == old(fed)
      ensures state == old(state) && block == old(block) && w == old(w)
      ensures digest == Fips180.Sha256Hex(fed)
    {
      hide Fips180.HashBlocks, Fips180.HexWords, Fips180.BigEndianBytes, Fips180.Padding;
      if !done {
        var padding := MakePadding();
        var counted := bytes;
        ghost var message := fed;
        var ok := Update(padding[..]);
        assert fed[..|fed|] == fed;
        bytes := counted;
        done := true;
        fed := message;
      }
      digest := Join(state[..]);
    }
  }

  /** The words in hexadecimal, each padded to eight digits. */
  method Join(words: seq<word>) returns (digest: string)
    ensures digest == Fips180.HexWords(words)
  {
    digest := "";
    for i := 0 to |words|
      invariant digest == Fips180.HexWords(words[..i])
    {
      Pow2Values();
      PaddedDigits(words[i], 8);
      assert words[..i + 1][..i] == words[..i];
      digest := digest + PadStart(ToString16(words[i]), 8, '0');
    }
    assert words[..|words|] == words;
  }

  /** Numbers count bytes exactly below this. */
  const MAX_BYTES := 0x20_0000_0000_0000

  /** `TypedArray.set`: copies `source` over the bytes from `at` on. */
  method SetBytes(target: array<byte>, at: nat, source: seq<byte>)
    requires at + |source| <= target.Length
    modifies target
    ensures target[..] == old(target[..at]) + source + old(target[at + |source|..])
  {
    forall j | at <= j < at + |source| {
      target[j] := source[j - at];
    }
  }

  /** `DataView.setUint32`: big-endian. */
  method SetUint32(view: array<byte>, at: nat, value: int)
    requires at + 4 <= view.Length
    modifies view
    ensures view[..] == old(view[..at]) + Fips180.BigEndianBytes(ToUint32(value), 4) + old(view[at + 4..])
  {
    var four := Fips180.BigEndianBytes(ToUint32(value), 4);
    view[at], view[at + 1], view[at + 2], view[at + 3] := four[0], four[1], four[2], four[3];
  }

  /** The lowest byte comes last. */
  lemma LowByte(high: nat, low: nat, scale: nat, n: nat)
    requires scale % 256 == 0 && high * (scale / 256) >= 0
    ensures high * (scale / 256) + low / 256 >= 0 && high * scale + low >= 0
    ensures Fips180.BigEndianBytes(high * scale + low, n + 1)
         == Fips180.BigEndianBytes(high * (scale / 256) + low / 256, n) + [low % 256]
  {
    var s := scale / 256;
    assert high * scale == 256 * (high * s) by {
      assert scale == 256 * s;
      assert high * (256 * s) == 256 * (high * s);
    }
    var x := high * scale + low;
    assert x / 256 == high * s + low / 256 && x % 256 == low % 256;
  }

  /** A 64-bit length is written as two 32-bit halves. */
  lemma {:induction false} BigEndianSplit(high: nat, low: word)
    ensures Fips180.BigEndianBytes(high * TWO32 + low, 8)
         == Fips180.BigEndianBytes(high, 4) + Fips180.BigEndianBytes(low, 4)
  {
    hide Fips180.BigEndianBytes;
    LowByte(high, low, TWO32, 7);
    LowByte(high, low / 256, TWO32 / 256, 6);
    LowByte(high, low / 0x1_0000, 0x1_0000, 5);
    LowByte(high, low / 0x100_0000, 256, 4);
    LowByte(0, low, 256, 3);
    LowByte(0, low / 256, 256, 2);
    LowByte(0, low / 0x1_0000, 256, 1);
    LowByte(0, low / 0x100_0000, 256, 0);
    NoBytes(low / 0x100_0000 / 256);
  }

  lemma NoBytes(x: nat)
    ensures Fips180.BigEndianBytes(x, 0) == []
  {
  }

  /** The padding `Hex` builds is the padding of FIPS 180-4. */
  lemma {:induction false} PaddingMatches(length: nat, padding: seq<byte>)
    requires length < MAX_BYTES
    requires var n := if length % 64 < 56 then 64 - length % 64 else 128 - length % 64;
             padding == [0x80] + seq(n - 9, _ => 0)
                      + Fips180.BigEndianBytes(ToUint32(length / 0x2000_0000), 4)
                      + Fips180.BigEndianBytes(ToUint32(ToUint32(length * 8)), 4)
    ensures padding == Fips180.Padding(length)
  {
    hide Fips180.BigEndianBytes;
    var high, low := length / 0x2000_0000, length * 8 % TWO32;
    assert high < TWO32;
    WordBits(high);
    WordBits(low);
    Pow2Values();
    assert 8 * length == high * TWO32 + low;
    BigEndianSplit(high, low);
  }

  lemma InitialBits(hash: Fips180.HashValue)
    ensures WorkingBits(hash[0], hash[1], hash[2], hash[3], hash[4], hash[5], hash[6], hash[7])
         == Fips180.Working(hash[0], hash[1], hash[2], hash[3], hash[4], hash[5], hash[6], hash[7])
  {
  }

  lemma AddToMatches(hash: Fips180.HashValue, a: int, b: int, c: int, d: int, e: int, f: int, g: int, h: int)
    ensures [ToUint32(hash[0] + a), ToUint32(hash[1] + b), ToUint32(hash[2] + c), ToUint32(hash[3] + d),
             ToUint32(hash[4] + e), ToUint32(hash[5] + f), ToUint32(hash[6] + g), ToUint32(hash[7] + h)]
         == Fips180.AddTo(WorkingBits(a, b, c, d, e, f, g, h), hash)
  {
    hide ToUint32, Add;
    AddedBits(a, hash[0]);
    AddedBits(b, hash[1]);
    AddedBits(c, hash[2]);
    AddedBits(d, hash[3]);
    AddedBits(e, hash[4]);
    AddedBits(f, hash[5]);
    AddedBits(g, hash[6]);
    AddedBits(h, hash[7]);
  }

  lemma AddedBits(x: int, s: word)
    ensures ToUint32(s + x) == Add(ToUint32(x), s)
  {
  }

  /** The chunks, end to end. */
  function Concat(chunks: seq<seq<byte>>): seq<byte> {
    if |chunks| == 0 then [] else Concat(chunks[..|chunks| - 1]) + chunks[|chunks| - 1]
  }

  /** However a message is cut into chunks, the digest is that of the message. */
  method HashChunks(chunks: seq<seq<byte>>) returns (digest: string)
    requires |Concat(chunks)| < MAX_BYTES
    ensures digest == Fips180.Sha256Hex(Concat(chunks))
  {
    hide Holds, Fips180.Sha256, Fips180.Sha256Hex;
    var hasher := new Sha256();
    for i := 0 to |chunks|
      invariant hasher.Valid() && !hasher.done && fresh(hasher)
      invariant fresh(hasher.state) && fresh(hasher.block) && fresh(hasher.w)
      invariant hasher.fed == Concat(chunks[..i])
    {
      assert chunks[..i + 1][..i] == chunks[..i];
      var ok := hasher.Update(chunks[i]);
    }
    assert chunks[..|chunks|] == chunks;
    digest := hasher.Hex();
  }

  /** SHA-256 of one buffer. */
  method Sha256Hex(data: seq<byte>) returns (digest: string)
    requires |data| < MAX_BYTES
    ensures digest == Fips180.Sha256Hex(data)
  {
    var hasher := new Sha256();
    var ok := hasher.Update(data);
    assert [] + data == data;
    digest := hasher.Hex();
  }
}
