/** A file cut into chunks, as readChunk in frontend/src/lib/resumableUpload.ts
    and _expected_chunk_size in backend/app/api/v1/endpoints/uploads.py cut it. */
module Chunks {
  import opened MinMax
  import opened Words

  /** Where chunk `index` starts, or the end of the file. */
  function Start(size: nat, chunkSize: nat, index: nat): (s: nat)
    ensures s <= size
  {
    Min(index * chunkSize, size)
  }

  /** `file.slice(index * chunkSize, (index + 1) * chunkSize)`. */
  function Chunk(file: seq<byte>, chunkSize: nat, index: nat): seq<byte> {
    StartsGrow(|file|, chunkSize, index);
    file[Start(|file|, chunkSize, index)..Start(|file|, chunkSize, index + 1)]
  }

  lemma StartsGrow(size: nat, chunkSize: nat, index: nat)
    ensures Start(size, chunkSize, index) <= Start(size, chunkSize, index + 1)
  {
    assert (index + 1) * chunkSize == index * chunkSize + chunkSize;
  }

  lemma StartOfFile(size: nat, chunkSize: nat)
    ensures Start(size, chunkSize, 0) == 0
  {
  }

  /** Chunk sizes the server expects: all equal, except a shorter last one. */
  function ExpectedSize(size: nat, chunkSize: nat, count: nat, index: nat): int {
    if index < count - 1 then chunkSize else size - chunkSize * (count - 1)
  }

  /** `ceil(size / chunkSize)` chunks. */
  ghost predicate Covers(size: nat, chunkSize: nat, count: nat) {
    0 < chunkSize && 0 < count && chunkSize * (count - 1) < size <= chunkSize * count
  }

  /** The client's slices have the sizes the server expects. */
  lemma {:induction false} SizesAgree(file: seq<byte>, chunkSize: nat, count: nat, index: nat)
    requires Covers(|file|, chunkSize, count) && index < count
    ensures |Chunk(file, chunkSize, index)| == ExpectedSize(|file|, chunkSize, count, index) > 0
  {
    assert (index + 1) * chunkSize == index * chunkSize + chunkSize;
    if index < count - 1 {
      MulMonotone(index + 1, count - 1, chunkSize);
    }
  }

  lemma MulMonotone(a: nat, b: nat, c: nat)
    requires a <= b
    ensures a * c <= b * c
  {
    assert b * c == a * c + (b - a) * c;
  }

  /** Going one chunk further. */
  lemma {:induction false} NextChunk(file: seq<byte>, chunkSize: nat, index: nat)
    ensures file[..Start(|file|, chunkSize, index)] + Chunk(file, chunkSize, index)
         == file[..Start(|file|, chunkSize, index + 1)]
  {
    StartsGrow(|file|, chunkSize, index);
  }

  /** The bytes of the chunks below `n` that are in `held`. */
  function HeldBytes(file: seq<byte>, chunkSize: nat, held: set<nat>, n: nat): nat {
    if n == 0 then 0
    else HeldBytes(file, chunkSize, held, n - 1) + if n - 1 in held then |Chunk(file, chunkSize, n - 1)| else 0
  }

  lemma {:induction false} HeldOneMore(file: seq<byte>, chunkSize: nat, held: set<nat>, n: nat, index: nat)
    requires index < n && index !in held
    ensures HeldBytes(file, chunkSize, held + {index}, n)
         == HeldBytes(file, chunkSize, held, n) + |Chunk(file, chunkSize, index)|
  {
    if n - 1 == index {
      HeldUnchanged(file, chunkSize, held, n - 1, index);
    } else {
      HeldOneMore(file, chunkSize, held, n - 1, index);
    }
  }

  lemma {:induction false} HeldUnchanged(file: seq<byte>, chunkSize: nat, held: set<nat>, n: nat, index: nat)
    requires n <= index
    ensures HeldBytes(file, chunkSize, held + {index}, n) == HeldBytes(file, chunkSize, held, n)
  {
    if n > 0 {
      HeldUnchanged(file, chunkSize, held, n - 1, index);
    }
  }

  lemma ChunkLength(file: seq<byte>, chunkSize: nat, index: nat)
    ensures Start(|file|, chunkSize, index + 1) == Start(|file|, chunkSize, index) + |Chunk(file, chunkSize, index)|
  {
    StartsGrow(|file|, chunkSize, index);
  }

  lemma {:induction false} AllHeld(file: seq<byte>, chunkSize: nat, held: set<nat>, n: nat)
    requires forall i: nat :: i < n ==> i in held
    ensures HeldBytes(file, chunkSize, held, n) == Start(|file|, chunkSize, n)
  {
    hide Chunk, Start;
    if n == 0 {
      StartOfFile(|file|, chunkSize);
    } else {
      AllHeld(file, chunkSize, held, n - 1);
      ChunkLength(file, chunkSize, n - 1);
    }
  }

  /** The chunks below `n`, end to end. */
  function Assemble(chunks: map<nat, seq<byte>>, n: nat): seq<byte>
    requires forall i: nat :: i < n ==> i in chunks
  {
    if n == 0 then [] else Assemble(chunks, n - 1) + chunks[n - 1]
  }

  lemma {:induction false} AssembledFile(file: seq<byte>, chunkSize: nat, chunks: map<nat, seq<byte>>, n: nat)
    requires forall i: nat :: i < n ==> i in chunks && chunks[i] == Chunk(file, chunkSize, i)
    ensures Assemble(chunks, n) == file[..Start(|file|, chunkSize, n)]
  {
    hide Chunk, Start;
    if n > 0 {
      AssembledFile(file, chunkSize, chunks, n - 1);
      NextChunk(file, chunkSize, n - 1);
    } else {
      StartOfFile(|file|, chunkSize);
    }
  }
}
