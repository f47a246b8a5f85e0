/** The backend's chunk collection: each stored chunk carries an id, its text
    and its metadata. Embeddings and the similarity index the collection keeps
    beside them are not modelled, so an entry is the triple the collection
    returns for a chunk. */
module Store {
  import opened Common
  import opened Text

  datatype Entry = Entry(id: string, document: string, metadata: Metadata)

  /** The id the collection gives to the `n`-th chunk ever added since it was
      last emptied: "doc_" followed by `n` in decimal. */
  function DocId(n: nat): string {
    "doc_" + NatToString(n)
  }

  /** Different positions get different ids. */
  lemma DocIdInjective(a: nat, b: nat)
    requires DocId(a) == DocId(b)
    ensures a == b
  {
    PrefixCancel("doc_", NatToString(a), NatToString(b));
    NatToStringInjective(a, b);
  }

  /** Entry `k` of the collection has id "doc_k". */
  ghost predicate SequentialIds(es: seq<Entry>) {
    forall k :: 0 <= k < |es| ==> es[k].id == DocId(k)
  }

  /** The ids of a collection whose ids are sequential are pairwise distinct. */
  lemma SequentialIdsDistinct(es: seq<Entry>)
    requires SequentialIds(es)
    ensures forall j, k :: 0 <= j < |es| && 0 <= k < |es| && es[j].id == es[k].id ==> j == k
  {
    forall j, k | 0 <= j < |es| && 0 <= k < |es| && es[j].id == es[k].id
      ensures j == k
    {
      DocIdInjective(j, k);
    }
  }

  /** The metadata used when the caller passes none: chunk `i` gets
      `{"chunk_id": i}`. */
  function DefaultMetadata(n: nat): (ms: seq<Metadata>)
    ensures |ms| == n
    ensures forall i :: 0 <= i < n ==> ms[i] == map["chunk_id" := Int(i)]
  {
    seq(n, i => map["chunk_id" := Int(i)])
  }

  /** The entries an add of `chunks` with `metas` appends to a collection of
      `base` entries: chunk `i` is stored with metadata `i` under id
      "doc_{base + i}". */
  function NewEntries(base: nat, chunks: seq<string>, metas: seq<Metadata>): (es: seq<Entry>)
    requires |metas| == |chunks|
    ensures |es| == |chunks|
    ensures forall i :: 0 <= i < |es| ==> es[i].document == chunks[i] && es[i].metadata == metas[i]
    ensures forall i, j :: 0 <= i < j < |es| ==> es[i].id != es[j].id
  {
    var es := seq(|chunks|, i requires 0 <= i < |chunks| => Entry(DocId(base + i), chunks[i], metas[i]));
    forall i, j | 0 <= i < j < |es| ensures es[i].id != es[j].id {
      if es[i].id == es[j].id {
        DocIdInjective(base + i, base + j);
      }
    }
    es
  }

  /** Appending the entries of an add to a collection with sequential ids keeps
      the ids sequential, so they stay pairwise distinct. */
  lemma AppendKeepsSequentialIds(es: seq<Entry>, chunks: seq<string>, metas: seq<Metadata>)
    requires |metas| == |chunks|
    requires SequentialIds(es)
    ensures SequentialIds(es + NewEntries(|es|, chunks, metas))
  {
    var all := es + NewEntries(|es|, chunks, metas);
    forall k | 0 <= k < |all| ensures all[k].id == DocId(k) {
      if k >= |es| {
        assert all[k] == NewEntries(|es|, chunks, metas)[k - |es|];
      }
    }
  }

  /** Two adds in a row give the same entries as one add of both chunk lists
      together, with the metadata concatenated likewise. */
  lemma SuccessiveAdds(es: seq<Entry>, c1: seq<string>, m1: seq<Metadata>, c2: seq<string>, m2: seq<Metadata>)
    requires |m1| == |c1| && |m2| == |c2|
    ensures (es + NewEntries(|es|, c1, m1)) + NewEntries(|es| + |c1|, c2, m2) == es + NewEntries(|es|, c1 + c2, m1 + m2)
  {
    var both := NewEntries(|es|, c1 + c2, m1 + m2);
    assert NewEntries(|es|, c1, m1) + NewEntries(|es| + |c1|, c2, m2) == both;
  }

  /** The collection object: its entries, in the order they were added. */
  class VectorStore {
    var entries: seq<Entry>

    /** Every reachable collection has the ids doc_0 ... doc_{count-1}. */
    ghost predicate Valid()
      reads this
    {
      SequentialIds(entries)
    }

    /** A new collection is empty. */
    constructor()
      ensures entries == [] && Valid()
    {
      entries := [];
    }

    /** Adds chunks with their metadata, or with the default metadata when
        none is given. An empty chunk list changes nothing; a metadata list
        whose length differs from the chunk list's is refused by the
        collection, which then stays as it was. */
    method AddDocuments(chunks: seq<string>, metadata: Option<seq<Metadata>>) returns (r: Outcome<string>)
      requires Valid()
      modifies this
      ensures Valid()
      ensures r.Pass? <==> chunks == [] || metadata.None? || |metadata.value| == |chunks|
      ensures r.Fail? ==> entries == old(entries)
      ensures chunks == [] ==> entries == old(entries)
      ensures r.Pass? && chunks != [] ==>
        entries == old(entries) + NewEntries(|old(entries)|, chunks, metadata.GetOr(DefaultMetadata(|chunks|)))
      ensures r.Pass? ==> |entries| == |old(entries)| + |chunks|
    {
      if chunks == [] {
        return Pass;
      }
      var existingCount := |entries|;
      var metas := DefaultMetadata(|chunks|);
      if metadata.Some? {
        metas := metadata.value;
      }
      if |metas| != |chunks| {
        return Fail("Number of metadatas must match number of documents");
      }
      AppendKeepsSequentialIds(entries, chunks, metas);
      entries := entries + NewEntries(existingCount, chunks, metas);
      r := Pass;
    }

    /** Empties the collection. */
    method ClearCollection()
      modifies this
      ensures entries == [] && Valid()
    {
      entries := [];
    }

    /** The number of stored chunks. */
    method GetCollectionCount() returns (n: nat)
      ensures n == |entries|
    {
      n := |entries|;
    }
  }

  /** Adding two chunks without metadata to a collection of three stores them
      as doc_3 and doc_4 with chunk ids 0 and 1, and the count becomes 5. */
  method AddTwoToThree(s: VectorStore)
    requires s.Valid() && |s.entries| == 3
    modifies s
  {
    var r := s.AddDocuments(["a", "b"], None);
    assert r.Pass?;
    assert s.entries[3] == Entry(DocId(3), "a", map["chunk_id" := Int(0)]);
    assert s.entries[4] == Entry(DocId(4), "b", map["chunk_id" := Int(1)]);
    var n := s.GetCollectionCount();
    assert n == 5;
    s.ClearCollection();
    n := s.GetCollectionCount();
    assert n == 0;
  }
}
