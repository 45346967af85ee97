/** Sequences and the bags of their elements. */
module Sequences {

  /** The concatenation of several sequences. */
  function Flatten<T>(parts: seq<seq<T>>): seq<T> {
    if parts == [] then [] else Flatten(parts[..|parts| - 1]) + parts[|parts| - 1]
  }

  lemma FlattenAppend<T>(parts: seq<seq<T>>, part: seq<T>)
    ensures Flatten(parts + [part]) == Flatten(parts) + part
  {
    assert (parts + [part])[..|parts|] == parts;
  }

  /** The sequence without its element at i. */
  function Without<T>(s: seq<T>, i: nat): seq<T>
    requires i < |s|
  {
    s[..i] + s[i + 1..]
  }

  lemma WithoutBag<T>(s: seq<T>, i: nat)
    requires i < |s|
    ensures multiset(s) == multiset(Without(s, i)) + multiset{s[i]} && |Without(s, i)| == |s| - 1
  {
    assert s == s[..i] + [s[i]] + s[i + 1..];
  }

  lemma BagLast<T>(s: seq<T>)
    requires s != []
    ensures multiset(s) == multiset(s[..|s| - 1]) + multiset{s[|s| - 1]}
  {
    assert s == s[..|s| - 1] + [s[|s| - 1]];
  }

  lemma BagPrefix<T>(s: seq<T>, i: nat)
    requires i < |s|
    ensures multiset(s[..i + 1]) == multiset(s[..i]) + multiset{s[i]}
  {
    assert s[..i + 1] == s[..i] + [s[i]];
  }

  lemma BagPush<T>(s: seq<T>, x: T)
    ensures multiset(s + [x]) == multiset(s) + multiset{x}
  {
  }

  lemma WholePrefix<T>(s: seq<T>)
    ensures s[..|s|] == s
  {
  }

  // ----- elements picked from a sequence -----

  /** Places in a sequence of length n, from left to right. */
  ghost predicate Places(at: seq<nat>, n: nat) {
    && (forall j :: 0 <= j < |at| ==> at[j] < n)
    && (forall i, j :: 0 <= i < j < |at| ==> at[i] < at[j])
  }

  lemma OneMorePlace(at: seq<nat>, n: nat)
    requires Places(at, n)
    ensures Places(at, n + 1) && Places(at + [n], n + 1)
    ensures n !in at
  {
  }

  lemma PlacesWithin(at: seq<nat>, n: nat)
    requires Places(at, n)
    ensures forall j :: 0 <= j < |at| ==> at[j] < n
  {
  }

  // ----- cutting a sequence into chunks that fit a limit -----

  function TotalSize<T>(s: seq<T>, size: T -> nat): nat {
    if s == [] then 0 else TotalSize(s[..|s| - 1], size) + size(s[|s| - 1])
  }

  lemma TotalSizeAppend<T>(s: seq<T>, x: T, size: T -> nat)
    ensures TotalSize(s + [x], size) == TotalSize(s, size) + size(x)
  {
    assert (s + [x])[..|s|] == s;
  }

  /** A chunk within the limit, or a single element that exceeds it alone. */
  predicate ChunkOk<T>(chunk: seq<T>, size: T -> nat, limit: nat) {
    chunk != [] && (|chunk| == 1 || TotalSize(chunk, size) <= limit)
  }

  ghost predicate ChunksOk<T>(chunks: seq<seq<T>>, size: T -> nat, limit: nat) {
    forall i :: 0 <= i < |chunks| ==> ChunkOk(chunks[i], size, limit)
  }

  /** The chunks so far, the chunk being filled and its size: together the first n elements. */
  ghost predicate Chunking<T>(chunks: seq<seq<T>>, chunk: seq<T>, used: nat, s: seq<T>, n: nat, size: T -> nat, limit: nat) {
    && n <= |s| && Flatten(chunks) + chunk == s[..n] && used == TotalSize(chunk, size)
    && ChunksOk(chunks, size, limit) && (chunk != [] ==> ChunkOk(chunk, size, limit))
  }

  lemma NoChunks<T>(s: seq<T>, size: T -> nat, limit: nat)
    ensures Chunking([], [], 0, s, 0, size, limit)
  {
  }

  lemma ChunkDone<T>(chunks: seq<seq<T>>, chunk: seq<T>, used: nat, s: seq<T>, n: nat, size: T -> nat, limit: nat)
    requires Chunking(chunks, chunk, used, s, n, size, limit) && chunk != []
    ensures Chunking(chunks + [chunk], [], 0, s, n, size, limit)
  {
    FlattenAppend(chunks, chunk);
    hide Flatten, ChunkOk;
  }

  lemma ChunkGrows<T>(chunks: seq<seq<T>>, chunk: seq<T>, used: nat, s: seq<T>, n: nat, size: T -> nat, limit: nat)
    requires n < |s| && Chunking(chunks, chunk, used, s, n, size, limit)
    requires chunk == [] || used + size(s[n]) <= limit
    ensures Chunking(chunks, chunk + [s[n]], used + size(s[n]), s, n + 1, size, limit)
  {
    TotalSizeAppend(chunk, s[n], size);
    hide Flatten, TotalSize;
    assert s[..n + 1] == s[..n] + [s[n]];
  }

  lemma ChunkedAll<T>(chunks: seq<seq<T>>, used: nat, s: seq<T>, size: T -> nat, limit: nat)
    requires Chunking(chunks, [], used, s, |s|, size, limit)
    ensures Flatten(chunks) == s && ChunksOk(chunks, size, limit)
  {
    assert Flatten(chunks) + [] == Flatten(chunks);
    assert s[..|s|] == s;
  }
}
