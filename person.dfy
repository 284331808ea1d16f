/**
 * The enrolment store of Person.java: ten embedding slots written in a
 * ring, a write index that wraps after slot 9, and a read count that
 * stops at 9.
 *
 * A ghost history records every embedding ever added; the slots and both
 * indices are functions of that history, and the lemmas below say what
 * those functions promise.
 */
module Enrollment {

  /** MAX_IDX: the number of slots. */
  const MaxIdx: nat := 10

  /** MobileFaceNet.EMBEDDING_SIZE. */
  const EmbeddingSize: nat := 256

  type Embedding = seq<real>

  /** A slot that was never written holds the zeros of `new float[EMBEDDING_SIZE]`. */
  function Zero(): (z: Embedding)
    ensures |z| == EmbeddingSize && forall k :: 0 <= k < |z| ==> z[k] == 0.0
  {
    seq(EmbeddingSize, _ => 0.0)
  }

  /** The slot the next embedding goes to after n additions. */
  function WriteIndex(n: nat): (w: nat)
    ensures w < MaxIdx
  {
    if n == 0 then 0
    else if WriteIndex(n - 1) + 1 > MaxIdx - 1 then 0 else WriteIndex(n - 1) + 1
  }

  /** The read count after n additions. */
  function ReadCount(n: nat): (r: nat)
    ensures r < MaxIdx
  {
    if n == 0 then 0
    else if ReadCount(n - 1) + 1 <= MaxIdx - 1 then ReadCount(n - 1) + 1 else MaxIdx - 1
  }

  /** The contents of slot s after the additions of `h`, in order. */
  function Slot(h: seq<Embedding>, s: nat): Embedding
  {
    if h == [] then Zero()
    else if WriteIndex(|h| - 1) == s then h[|h| - 1]
    else Slot(h[..|h| - 1], s)
  }

  /** The write index after n additions is n modulo 10. */
  lemma {:induction false} WriteIndexIsModulo(n: nat)
    ensures WriteIndex(n) == n % MaxIdx
  {
    if n > 0 {
      WriteIndexIsModulo(n - 1);
    }
  }

  /** The read count after n additions is n, capped at 9 rather than 10. */
  lemma {:induction false} ReadCountIsCapped(n: nat)
    ensures ReadCount(n) == if n < MaxIdx - 1 then n else MaxIdx - 1
  {
    if n > 0 {
      ReadCountIsCapped(n - 1);
    }
  }

  /**
   * Readers loop over slots 0..idx_read-1, and idx_read never exceeds 9:
   * slot 9 is never read, even after it has been written.
   */
  lemma SlotNineNeverRead(n: nat)
    ensures ReadCount(n) <= MaxIdx - 1
    ensures n >= MaxIdx ==> ReadCount(n) == MaxIdx - 1 && ReadCount(n) < n
  {
    ReadCountIsCapped(n);
  }

  /** Every slot a reader visits has been written at least once. */
  lemma ReadSlotsWritten(n: nat, s: nat)
    requires s < ReadCount(n)
    ensures s < n && s < MaxIdx - 1
  {
    ReadCountIsCapped(n);
  }

  /** Slot s holds the latest addition whose position is s modulo 10, or zeros if there is none. */
  lemma {:induction false} SlotIsLatest(h: seq<Embedding>, s: nat)
    requires s < MaxIdx
    ensures s < |h| ==> Slot(h, s) == h[s + MaxIdx * ((|h| - 1 - s) / MaxIdx)]
    ensures s >= |h| ==> Slot(h, s) == Zero()
  {
    if h != [] {
      var n := |h| - 1;
      WriteIndexIsModulo(n);
      SlotIsLatest(h[..n], s);
      var q, r := n / MaxIdx, n % MaxIdx;
      assert n == MaxIdx * q + r;
      assert q >= 0 && MaxIdx * q >= 0;
      if r == s {
        DivisionUnique(n - s, q, 0);
        assert s + MaxIdx * ((|h| - 1 - s) / MaxIdx) == n;
        assert Slot(h, s) == h[n];
      } else if s < n {
        var q' := if r > s then q else q - 1;
        DivisionUnique(n - s, q', n - s - MaxIdx * q');
        DivisionUnique(n - 1 - s, q', n - 1 - s - MaxIdx * q');
        assert Slot(h, s) == Slot(h[..n], s) == h[..n][s + MaxIdx * q'] == h[s + MaxIdx * q'];
      } else {
        assert s > n;
        assert Slot(h, s) == Slot(h[..n], s);
      }
    }
  }

  /** The quotient by 10 is the unique d with x == 10 * d + r for some r in [0, 10). */
  lemma DivisionUnique(x: int, d: int, r: int)
    requires x == MaxIdx * d + r && 0 <= r < MaxIdx
    ensures x / MaxIdx == d
  {
    var q := x / MaxIdx;
    assert x == MaxIdx * q + x % MaxIdx;
    assert MaxIdx * (d - q) == x % MaxIdx - r;
  }

  /** While at most ten embeddings were added, slot s holds the s-th one. */
  lemma SlotsOfShortHistory(h: seq<Embedding>, s: nat)
    requires |h| <= MaxIdx && s < |h|
    ensures Slot(h, s) == h[s]
  {
    SlotIsLatest(h, s);
    assert (|h| - 1 - s) / MaxIdx == 0;
  }

  /** The eleventh addition overwrites slot 0, the oldest one; slots 1 to 9 keep theirs. */
  lemma EleventhOverwritesOldest(h: seq<Embedding>)
    requires |h| == MaxIdx + 1
    ensures Slot(h, 0) == h[MaxIdx]
    ensures forall s :: 1 <= s < MaxIdx ==> Slot(h, s) == h[s]
  {
    SlotIsLatest(h, 0);
    forall s | 1 <= s < MaxIdx ensures Slot(h, s) == h[s] {
      SlotIsLatest(h, s);
      assert (|h| - 1 - s) / MaxIdx == 0;
    }
  }

  class Person {
    var embeddings: array<Embedding>
    var idxWrite: int
    var idxRead: int
    /** Every embedding added so far, oldest first. */
    ghost var history: seq<Embedding>

    ghost predicate Valid()
      reads this, embeddings
    {
      embeddings.Length == MaxIdx &&
      idxWrite == WriteIndex(|history|) &&
      idxRead == ReadCount(|history|) &&
      forall s :: 0 <= s < MaxIdx ==> embeddings[s] == Slot(history, s)
    }

    /** `new Person()`: ten zero slots, both indices 0. */
    constructor ()
      ensures Valid() && history == [] && fresh(embeddings)
      ensures idxWrite == 0 && idxRead == 0
    {
      embeddings := new Embedding[MaxIdx](_ => Zero());
      idxWrite := 0;
      idxRead := 0;
      history := [];
    }

    /**
     * addEmbedding: the embedding goes to slot idx_write and no other slot
     * changes; idx_write advances and wraps to 0 after slot 9; idx_read
     * grows by one up to 9.
     */
    method AddEmbedding(embedding: Embedding)
      requires Valid()
      modifies this, embeddings
      ensures Valid() && history == old(history) + [embedding] && embeddings == old(embeddings)
      ensures embeddings[old(idxWrite)] == embedding
      ensures forall s :: 0 <= s < MaxIdx && s != old(idxWrite) ==> embeddings[s] == old(embeddings[s])
      ensures idxWrite == (old(idxWrite) + 1) % MaxIdx
      ensures idxRead == if old(idxRead) + 1 < MaxIdx - 1 then old(idxRead) + 1 else MaxIdx - 1
    {
      embeddings[idxWrite] := embedding;
      idxWrite := idxWrite + 1;
      if idxWrite > MaxIdx - 1 {
        idxWrite := 0;
      }
      idxRead := if idxRead + 1 <= MaxIdx - 1 then idxRead + 1 else MaxIdx - 1;
      history := history + [embedding];
    }

    /** getEmbedding: the contents of slot idx; an index outside the ten slots is not allowed. */
    method GetEmbedding(idx: int) returns (e: Embedding)
      requires Valid() && 0 <= idx < MaxIdx
      ensures e == Slot(history, idx)
    {
      e := embeddings[idx];
    }

    /** getIdx_read: the number of slots readers visit. */
    method GetIdxRead() returns (n: int)
      requires Valid()
      ensures n == ReadCount(|history|) && 0 <= n < MaxIdx
    {
      n := idxRead;
    }
  }
}
