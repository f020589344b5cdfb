/**
 * Retrieval post-processing and answer assembly: formatting retrieved chunks
 * into the grounding context, filtering candidates by distance with a top-2
 * fallback, the "I don't know" sentinel policy and citation deduplication.
 * The vector store query and the language model are parameters.
 */
module RagPipeline {
  import opened Wrappers
  import opened Strings
  import opened Documents

  const UnknownSource := "unknown"
  /** Candidates requested from the vector store per question. */
  const CandidateCount: nat := 6
  /** Largest distance a candidate may have to be kept (smaller is closer). */
  const DistanceThreshold: real := 0.8
  /** Candidates kept, unfiltered, when none is within the threshold. */
  const FallbackCount: nat := 2
  const SnippetLength: nat := 300
  const BlockSeparator := "\n\n"
  /** The refusal the prompt asks for, lower-cased and without its final period. */
  const Sentinel := "i don't have that information in the provided documents"
  const EmptyIndexMessage := "ChromaDB is empty. Please run ingestion first (/ingest)."
  /** The fixed instructions of the prompt template, up to the context. */
  const PromptPreamble := "You are a helpful customer support assistant.\nAnswer the user's question strictly using the provided context.\nIf the answer is not present in the context, say exactly:\n\"I don't have that information in the provided documents.\"\n\n"

  function Min(a: nat, b: nat): nat { if a <= b then a else b }

  // ---------------------------------------------------------------------------
  // format_docs

  /** `metadata.get("source", "unknown")` */
  function SourceOf(d: Doc): string { d.meta.source.GetOr(UnknownSource) }

  /** `metadata.get("path", "")` */
  function PathOf(d: Doc): string { d.meta.path.GetOr("") }

  /** The source as shown in a block header, with the page 1-based when present. */
  function SourceDisplay(d: Doc): string {
    match d.meta.page
    case Some(p) => SourceOf(d) + " (page " + NatToString(p + 1) + ")"
    case None => SourceOf(d)
  }

  /** The block of the `i`-th retrieved document (numbered from 1). */
  function Block(i: nat, d: Doc): string {
    "[" + NatToString(i) + "] Source: " + SourceDisplay(d) + "\n" + d.content
  }

  /** The blocks of `docs`, numbered from `first`, as `enumerate(docs, start=first)` walks them. */
  function Blocks(docs: seq<Doc>, first: nat): seq<string> {
    if docs == [] then [] else [Block(first, docs[0])] + Blocks(docs[1..], first + 1)
  }

  /** The grounding context handed to the language model. */
  function FormatContext(docs: seq<Doc>): string {
    Join(Blocks(docs, 1), BlockSeparator)
  }

  method FormatDocs(docs: seq<Doc>) returns (context: string)
    ensures context == FormatContext(docs)
  {
    var parts: seq<string> := [];
    for i := 0 to |docs|
      invariant |parts| == i
      invariant forall k :: 0 <= k < i ==> parts[k] == Block(k + 1, docs[k])
    {
      parts := parts + [Block(i + 1, docs[i])];
    }
    BlocksNumbered(docs, 1);
    assert parts == Blocks(docs, 1);
    context := Join(parts, BlockSeparator);
  }

  /** One block per document, in input order, numbered consecutively from `first`. */
  lemma {:induction false} BlocksNumbered(docs: seq<Doc>, first: nat)
    ensures |Blocks(docs, first)| == |docs|
    ensures forall k :: 0 <= k < |docs| ==> Blocks(docs, first)[k] == Block(first + k, docs[k])
  {
    if docs != [] {
      BlocksNumbered(docs[1..], first + 1);
    }
  }

  /** `display` is `src` followed by ` (page N)` for a decimal numeral N, without leading zero, denoting `n`. */
  ghost predicate ShowsPage(display: string, src: string, n: nat) {
    exists digits :: IsDecimal(digits) && digits[0] != '0'
      && display == src + " (page " + digits + ")" && DecimalValue(digits) == n
  }

  /** A header shows the source, "unknown" when missing, and the page 1-based when present. */
  lemma SourceDisplayShape(d: Doc)
    ensures d.meta.source.Some? ==> SourceOf(d) == d.meta.source.value
    ensures d.meta.source.None? ==> SourceOf(d) == UnknownSource
    ensures d.meta.page.None? ==> SourceDisplay(d) == SourceOf(d)
    ensures d.meta.page.Some? ==> ShowsPage(SourceDisplay(d), SourceOf(d), d.meta.page.value + 1)
  {
    if d.meta.page.Some? {
      NatToStringRoundTrip(d.meta.page.value + 1);
    }
  }

  /** The `i`-th block starts with `[i]` written in decimal, followed by the header line and the text. */
  lemma BlockShape(i: nat, d: Doc)
    ensures exists digits :: IsDecimal(digits) && DecimalValue(digits) == i
              && (if i == 0 then digits == "0" else digits[0] != '0')
              && Block(i, d) == "[" + digits + "] Source: " + SourceDisplay(d) + "\n" + d.content
  {
    NatToStringRoundTrip(i);
  }

  /** The context is empty exactly when no document was retrieved. */
  lemma FormatContextEmptyIff(docs: seq<Doc>)
    ensures FormatContext(docs) == "" <==> docs == []
  {
  }

  /** Appending a document appends its block, numbered next, after a blank line. */
  lemma FormatContextSnoc(docs: seq<Doc>, d: Doc)
    ensures FormatContext(docs + [d]) ==
              if docs == [] then Block(1, d)
              else FormatContext(docs) + BlockSeparator + Block(|docs| + 1, d)
  {
    BlocksNumbered(docs, 1);
    BlocksNumbered(docs + [d], 1);
    assert Blocks(docs + [d], 1) == Blocks(docs, 1) + [Block(|docs| + 1, d)];
    JoinSnoc(Blocks(docs, 1), Block(|docs| + 1, d), BlockSeparator);
  }

  // ---------------------------------------------------------------------------
  // deduplicate_sources

  /** The deduplication key `(source, page)`. */
  type Key = (string, Option<nat>)

  /** A display-ready source citation. */
  datatype Citation = Citation(source: string, path: string, page: Option<nat>, snippet: string)

  function KeyOf(d: Doc): Key { (SourceOf(d), d.meta.page) }

  function CitationKey(c: Citation): Key { (c.source, c.page) }

  /** The citation built for a document: its key, its path and a short prefix of its text. */
  function Cite(d: Doc): (c: Citation)
    ensures CitationKey(c) == KeyOf(d)
    ensures c.path == PathOf(d)
    ensures c.snippet <= d.content
    ensures |c.snippet| == Min(|d.content|, SnippetLength)
  {
    Citation(SourceOf(d), PathOf(d), d.meta.page, Truncate(d.content, SnippetLength))
  }

  /** Some citation in `cs` has key `k`. */
  predicate Cites(cs: seq<Citation>, k: Key) {
    exists j :: 0 <= j < |cs| && CitationKey(cs[j]) == k
  }

  /**
   * The citations of `docs`: one per key, built from the first document
   * carrying it, in order of first appearance. Defined document by document,
   * as the dictionary is filled.
   */
  function Dedup(docs: seq<Doc>): seq<Citation> {
    if docs == [] then []
    else
      var prev := Dedup(docs[..|docs| - 1]);
      var d := docs[|docs| - 1];
      if Cites(prev, KeyOf(d)) then prev else prev + [Cite(d)]
  }

  /** The values of an insertion-ordered dictionary whose keys, in insertion order, are `order`. */
  function ValuesInOrder(order: seq<Key>, m: map<Key, Citation>): (vs: seq<Citation>)
    requires forall k :: k in order ==> k in m
    ensures |vs| == |order|
  {
    seq(|order|, j requires 0 <= j < |order| => m[order[j]])
  }

  method DeduplicateSources(docs: seq<Doc>) returns (sources: seq<Citation>)
    ensures sources == Dedup(docs)
  {
    // A Python dict keeps its keys in insertion order: `order` records it.
    var sourcesMap: map<Key, Citation> := map[];
    var order: seq<Key> := [];
    for i := 0 to |docs|
      invariant forall k :: k in sourcesMap <==> k in order
      invariant forall k :: k in sourcesMap ==> CitationKey(sourcesMap[k]) == k
      invariant ValuesInOrder(order, sourcesMap) == Dedup(docs[..i])
    {
      var d := docs[i];
      var key := KeyOf(d);
      assert docs[..i + 1][..i] == docs[..i];
      ghost var prev := ValuesInOrder(order, sourcesMap);
      assert Cites(prev, key) <==> key in order by {
        if key in order {
          var j :| 0 <= j < |order| && order[j] == key;
          assert CitationKey(prev[j]) == key;
        }
        if Cites(prev, key) {
          var j :| 0 <= j < |prev| && CitationKey(prev[j]) == key;
          assert order[j] == key;
        }
      }
      if key !in sourcesMap {
        sourcesMap := sourcesMap[key := Cite(d)];
        order := order + [key];
        assert ValuesInOrder(order, sourcesMap) == prev + [Cite(d)];
      }
    }
    assert docs[..|docs|] == docs;
    sources := ValuesInOrder(order, sourcesMap);
  }

  /** No two citations share a `(source, page)` key. */
  lemma {:induction false} DedupUnique(docs: seq<Doc>)
    ensures forall a, b :: 0 <= a < b < |Dedup(docs)| ==> CitationKey(Dedup(docs)[a]) != CitationKey(Dedup(docs)[b])
  {
    if docs != [] {
      DedupUnique(docs[..|docs| - 1]);
    }
  }

  /** Appending a document adds its key to the cited keys and nothing else. */
  lemma DedupSnocKeys(docs: seq<Doc>, d: Doc, k: Key)
    ensures Cites(Dedup(docs + [d]), k) <==> Cites(Dedup(docs), k) || k == KeyOf(d)
  {
    assert (docs + [d])[..|docs|] == docs;
    var prev := Dedup(docs);
    if !Cites(prev, KeyOf(d)) {
      var next := prev + [Cite(d)];
      assert Dedup(docs + [d]) == next;
      if Cites(prev, k) {
        var j :| 0 <= j < |prev| && CitationKey(prev[j]) == k;
        assert CitationKey(next[j]) == k;
      }
      if k == KeyOf(d) {
        assert CitationKey(next[|prev|]) == k;
      }
      if Cites(next, k) {
        var j :| 0 <= j < |next| && CitationKey(next[j]) == k;
        if j < |prev| {
          assert CitationKey(prev[j]) == k;
        }
      }
    }
  }

  /** Every key carried by some document is cited, and only those. */
  lemma {:induction false} DedupComplete(docs: seq<Doc>)
    ensures forall k :: Cites(Dedup(docs), k) <==> exists i :: 0 <= i < |docs| && KeyOf(docs[i]) == k
  {
    if docs != [] {
      var n := |docs| - 1;
      var prefix := docs[..n];
      assert docs == prefix + [docs[n]];
      DedupComplete(prefix);
      forall k ensures Cites(Dedup(docs), k) <==> exists i :: 0 <= i < |docs| && KeyOf(docs[i]) == k {
        DedupSnocKeys(prefix, docs[n], k);
        if exists i :: 0 <= i < n && KeyOf(prefix[i]) == k {
          var i :| 0 <= i < n && KeyOf(prefix[i]) == k;
          assert KeyOf(docs[i]) == k;
        }
        if exists i :: 0 <= i < |docs| && KeyOf(docs[i]) == k {
          var i :| 0 <= i < |docs| && KeyOf(docs[i]) == k;
          if i < n {
            assert KeyOf(prefix[i]) == k;
          }
        }
      }
    }
  }

  /** Some citation is produced exactly when some document was given. */
  lemma DedupEmptyIff(docs: seq<Doc>)
    ensures Dedup(docs) == [] <==> docs == []
  {
  }

  /** A later document whose key is already present changes nothing. */
  lemma {:induction false} LaterDuplicateIgnored(docs: seq<Doc>, d: Doc)
    requires exists i :: 0 <= i < |docs| && KeyOf(docs[i]) == KeyOf(d)
    ensures Dedup(docs + [d]) == Dedup(docs)
  {
    DedupComplete(docs);
    assert Cites(Dedup(docs), KeyOf(d));
    assert (docs + [d])[..|docs|] == docs;
  }

  /** The integers of `idx` increase strictly. */
  ghost predicate Increasing(idx: seq<int>) {
    forall a, b :: 0 <= a < b < |idx| ==> idx[a] < idx[b]
  }

  lemma IncreasingSnoc(idx: seq<int>, n: int, extend: bool)
    requires Increasing(idx)
    requires forall k :: 0 <= k < |idx| ==> idx[k] < n
    ensures Increasing(idx + if extend then [n] else [])
  {
  }

  /** No document before index `i` has the key of `docs[i]`. */
  ghost predicate IsFirstOccurrence(docs: seq<Doc>, i: int) {
    0 <= i < |docs| && forall j :: 0 <= j < i ==> KeyOf(docs[j]) != KeyOf(docs[i])
  }

  /** `idx` lists, in increasing order, exactly the first occurrences of the keys of `docs`. */
  ghost predicate ListsFirstOccurrences(docs: seq<Doc>, idx: seq<int>) {
    && Increasing(idx)
    && (forall k :: 0 <= k < |idx| ==> IsFirstOccurrence(docs, idx[k]))
    && (forall i :: IsFirstOccurrence(docs, i) ==> i in idx)
  }

  /** The indices of the first occurrences of the keys of `docs`, in increasing order. */
  ghost function FirstOccurrences(docs: seq<Doc>): seq<int> {
    if docs == [] then []
    else
      var n := |docs| - 1;
      FirstOccurrences(docs[..n]) + (if IsFirstOccurrence(docs, n) then [n] else [])
  }

  /** Appending a document does not change which earlier indices are first occurrences. */
  lemma FirstOccurrenceStable(docs: seq<Doc>, d: Doc, i: int)
    requires 0 <= i < |docs|
    ensures IsFirstOccurrence(docs + [d], i) == IsFirstOccurrence(docs, i)
  {
    assert forall j :: 0 <= j <= i ==> (docs + [d])[j] == docs[j];
  }

  /** An appended document is a first occurrence exactly when its key is not cited yet. */
  lemma LastIsFirstOccurrence(docs: seq<Doc>, d: Doc)
    ensures IsFirstOccurrence(docs + [d], |docs|) <==> !Cites(Dedup(docs), KeyOf(d))
  {
    var docs' := docs + [d];
    DedupComplete(docs);
    if Cites(Dedup(docs), KeyOf(d)) {
      var i :| 0 <= i < |docs| && KeyOf(docs[i]) == KeyOf(d);
      assert KeyOf(docs'[i]) == KeyOf(docs'[|docs|]);
    } else {
      forall j | 0 <= j < |docs| ensures KeyOf(docs'[j]) != KeyOf(docs'[|docs|]) {
        assert docs'[j] == docs[j];
      }
    }
  }

  /** FirstOccurrences lists exactly the first occurrences, in increasing order. */
  lemma {:induction false} FirstOccurrencesListed(docs: seq<Doc>)
    ensures ListsFirstOccurrences(docs, FirstOccurrences(docs))
  {
    if docs != [] {
      var n := |docs| - 1;
      var prefix := docs[..n];
      var d := docs[n];
      assert docs == prefix + [d];
      FirstOccurrencesListed(prefix);
      var idx := FirstOccurrences(prefix);
      var idx' := FirstOccurrences(docs);
      assert forall k :: 0 <= k < |idx| ==> idx'[k] == idx[k] && idx[k] < n;
      assert Increasing(idx') by {
        IncreasingSnoc(idx, n, IsFirstOccurrence(docs, n));
      }
      assert forall k :: 0 <= k < |idx'| ==> IsFirstOccurrence(docs, idx'[k]) by {
        forall k | 0 <= k < |idx| ensures IsFirstOccurrence(docs, idx[k]) {
          FirstOccurrenceStable(prefix, d, idx[k]);
        }
      }
      assert forall i :: IsFirstOccurrence(docs, i) ==> i in idx' by {
        forall i | IsFirstOccurrence(docs, i) ensures i in idx' {
          if i < n {
            FirstOccurrenceStable(prefix, d, i);
            assert i in idx;
          } else {
            assert idx'[|idx|] == n;
          }
        }
      }
    }
  }

  /** The citations are built, in order, from the documents at the first-occurrence indices. */
  lemma {:induction false} FirstOccurrencesSpec(docs: seq<Doc>)
    ensures |FirstOccurrences(docs)| == |Dedup(docs)|
    ensures forall k :: 0 <= k < |FirstOccurrences(docs)| ==>
              0 <= FirstOccurrences(docs)[k] < |docs|
              && Dedup(docs)[k] == Cite(docs[FirstOccurrences(docs)[k]])
  {
    if docs != [] {
      var n := |docs| - 1;
      var prefix := docs[..n];
      var d := docs[n];
      assert docs == prefix + [d];
      FirstOccurrencesSpec(prefix);
      LastIsFirstOccurrence(prefix, d);
      var idx := FirstOccurrences(prefix);
      var idx' := FirstOccurrences(docs);
      forall k | 0 <= k < |idx'| ensures 0 <= idx'[k] < |docs| && Dedup(docs)[k] == Cite(docs[idx'[k]]) {
        if k < |idx| {
          assert docs[idx[k]] == prefix[idx[k]];
        }
      }
    }
  }

  /** The citations are those of the first occurrences of each key, in order of first appearance. */
  lemma DedupKeepsFirstOccurrences(docs: seq<Doc>)
    ensures exists idx :: ListsFirstOccurrences(docs, idx) && |idx| == |Dedup(docs)|
              && forall k :: 0 <= k < |idx| ==> Dedup(docs)[k] == Cite(docs[idx[k]])
  {
    FirstOccurrencesListed(docs);
    FirstOccurrencesSpec(docs);
  }

  /** Every citation is built from one of the documents it was computed from. */
  lemma {:induction false} DedupProvenance(docs: seq<Doc>)
    ensures forall c :: c in Dedup(docs) ==> exists i :: 0 <= i < |docs| && c == Cite(docs[i])
  {
    if docs != [] {
      var prefix := docs[..|docs| - 1];
      DedupProvenance(prefix);
      forall c | c in Dedup(docs) ensures exists i :: 0 <= i < |docs| && c == Cite(docs[i]) {
        if c in Dedup(prefix) {
          var i :| 0 <= i < |prefix| && c == Cite(prefix[i]);
          assert docs[i] == prefix[i];
        } else {
          assert c == Cite(docs[|docs| - 1]);
        }
      }
    }
  }

  // ---------------------------------------------------------------------------
  // rag_answer: relevance filter and fallback

  /** The documents of a list of scored candidates. */
  function DocsOf(results: seq<(Doc, real)>): seq<Doc> {
    seq(|results|, j requires 0 <= j < |results| => results[j].0)
  }

  /** The documents whose distance is within the threshold, in ranking order. */
  function Passing(results: seq<(Doc, real)>): (docs: seq<Doc>)
    ensures |docs| <= |results|
  {
    if results == [] then []
    else
      var last := results[|results| - 1];
      Passing(results[..|results| - 1]) + (if last.1 <= DistanceThreshold then [last.0] else [])
  }

  /** The documents the answer is grounded on: the passing ones, or else the top two candidates. */
  function SelectContext(results: seq<(Doc, real)>): seq<Doc> {
    var passing := Passing(results);
    if passing == [] then DocsOf(results[..Min(FallbackCount, |results|)]) else passing
  }

  /** `idx` is the increasing list of exactly the indices of candidates within the threshold. */
  ghost predicate ListsPassing(results: seq<(Doc, real)>, idx: seq<int>) {
    && Increasing(idx)
    && (forall k :: 0 <= k < |idx| ==> 0 <= idx[k] < |results| && results[idx[k]].1 <= DistanceThreshold)
    && (forall i :: 0 <= i < |results| && results[i].1 <= DistanceThreshold ==> i in idx)
  }

  /** The indices of the candidates within the threshold, in increasing order. */
  ghost function PassingIndices(results: seq<(Doc, real)>): seq<int> {
    if results == [] then []
    else
      var n := |results| - 1;
      PassingIndices(results[..n]) + (if results[n].1 <= DistanceThreshold then [n] else [])
  }

  /** Extending the candidates by one extends their passing indices by that one when it is within the threshold. */
  lemma ListsPassingSnoc(results: seq<(Doc, real)>, idx: seq<int>)
    requires results != []
    requires ListsPassing(results[..|results| - 1], idx)
    ensures ListsPassing(results, idx + if results[|results| - 1].1 <= DistanceThreshold then [|results| - 1] else [])
  {
    var n := |results| - 1;
    var prefix := results[..n];
    assert forall i :: 0 <= i < n ==> prefix[i] == results[i];
    if results[n].1 <= DistanceThreshold {
      var idx' := idx + [n];
      IncreasingSnoc(idx, n, true);
      forall i | 0 <= i < |results| && results[i].1 <= DistanceThreshold
        ensures i in idx'
      {
        if i < n {
          assert i in idx;
        } else {
          assert idx'[|idx|] == n;
        }
      }
    } else {
      assert idx + [] == idx;
      forall i | 0 <= i < |results| && results[i].1 <= DistanceThreshold
        ensures i in idx
      {
        assert prefix[i] == results[i];
      }
    }
  }

  /** PassingIndices lists exactly the indices within the threshold, in increasing order. */
  lemma {:induction false} PassingIndicesListed(results: seq<(Doc, real)>)
    ensures ListsPassing(results, PassingIndices(results))
  {
    if results != [] {
      PassingIndicesListed(results[..|results| - 1]);
      ListsPassingSnoc(results, PassingIndices(results[..|results| - 1]));
    }
  }

  /** The filtered documents are, in order, those at the passing indices. */
  lemma {:induction false} PassingIndicesSpec(results: seq<(Doc, real)>)
    ensures |PassingIndices(results)| == |Passing(results)|
    ensures forall k :: 0 <= k < |PassingIndices(results)| ==>
              0 <= PassingIndices(results)[k] < |results|
              && Passing(results)[k] == results[PassingIndices(results)[k]].0
  {
    if results != [] {
      var n := |results| - 1;
      var prefix := results[..n];
      PassingIndicesSpec(prefix);
      var idx := PassingIndices(prefix);
      forall k | 0 <= k < |idx| ensures prefix[idx[k]] == results[idx[k]] {
      }
    }
  }

  /** The filter keeps exactly the candidates with distance at most 0.8, in their original order. */
  lemma PassingExactly(results: seq<(Doc, real)>)
    ensures exists idx :: ListsPassing(results, idx) && |idx| == |Passing(results)|
              && forall k :: 0 <= k < |idx| ==> Passing(results)[k] == results[idx[k]].0
  {
    PassingIndicesListed(results);
    PassingIndicesSpec(results);
  }

  /** Nothing passes exactly when every candidate is farther than the threshold. */
  lemma {:induction false} PassingEmptyIff(results: seq<(Doc, real)>)
    ensures Passing(results) == [] <==> forall i :: 0 <= i < |results| ==> results[i].1 > DistanceThreshold
  {
    if results != [] {
      var n := |results| - 1;
      PassingEmptyIff(results[..n]);
      assert forall i :: 0 <= i < n ==> results[..n][i] == results[i];
    }
  }

  /** The filtered list with its fallback: never empty unless the store returned nothing. */
  lemma SelectContextSpec(results: seq<(Doc, real)>)
    ensures (exists i :: 0 <= i < |results| && results[i].1 <= DistanceThreshold) ==>
              SelectContext(results) == Passing(results)
    ensures (forall i :: 0 <= i < |results| ==> results[i].1 > DistanceThreshold) ==>
              SelectContext(results) == DocsOf(results[..Min(FallbackCount, |results|)])
    ensures SelectContext(results) == [] <==> results == []
    ensures |SelectContext(results)| <= |results|
  {
    PassingEmptyIff(results);
  }

  // ---------------------------------------------------------------------------
  // rag_answer: prompt, sentinel policy and reply

  /** The prompt template up to the context: the fixed instructions and the opening tag. */
  const ContextOpen := PromptPreamble + "<context>\n"
  /** The prompt template between the context and the question. */
  const ContextClose := "\n</context>\n\nQuestion: "

  /** The prompt template with the context and the question filled in. */
  function RenderPrompt(context: string, question: string): (prompt: string)
    ensures |prompt| == |ContextOpen| + |context| + |ContextClose| + |question|
    ensures OccursAt(prompt, ContextOpen, 0)
    ensures OccursAt(prompt, context, |ContextOpen|)
    ensures OccursAt(prompt, ContextClose, |ContextOpen| + |context|)
    ensures OccursAt(prompt, question, |prompt| - |question|)
  {
    var prompt := ContextOpen + context + ContextClose + question;
    assert prompt[..|ContextOpen|] == ContextOpen;
    assert prompt[|ContextOpen|..|ContextOpen| + |context|] == context;
    assert prompt[|ContextOpen| + |context|..|ContextOpen| + |context| + |ContextClose|] == ContextClose;
    prompt
  }

  /** The case-insensitive sentinel check on a generated answer. */
  predicate MentionsSentinel(answer: string) {
    Contains(Lower(answer), Sentinel)
  }

  /** The sentinel phrase is detected in whatever letter case it is written and wherever it stands. */
  lemma SentinelAnyCase(before: string, phrase: string, after: string)
    requires Lower(phrase) == Sentinel
    ensures MentionsSentinel(before + phrase + after)
  {
    var s := before + phrase + after;
    assert Lower(s)[|before|..|before| + |phrase|] == Lower(phrase);
    assert OccursAt(Lower(s), Sentinel, |before|);
  }

  /** What the pipeline returns for one question. */
  datatype Reply = Reply(answer: string, sources: seq<Citation>)

  /** The reply for a generated answer grounded on `used`. */
  function Respond(answer: string, used: seq<Doc>): (r: Reply)
    ensures r.answer == answer
    ensures r.sources == [] <==> MentionsSentinel(answer) || used == []
    ensures !MentionsSentinel(answer) ==> r.sources == Dedup(used)
    ensures forall c :: c in r.sources ==> exists i :: 0 <= i < |used| && c == Cite(used[i])
  {
    DedupProvenance(used);
    DedupEmptyIff(used);
    if MentionsSentinel(answer) then Reply(answer, []) else Reply(answer, Dedup(used))
  }

  /** The vector store as the pipeline sees it: its record count and its scored similarity search. */
  datatype VectorIndex = VectorIndex(count: nat, search: (string, nat) -> seq<(Doc, real)>)

  /** The answering closure `build_chain` returns: the open store and the language model. */
  datatype Chain = Chain(index: VectorIndex, llm: string -> string)

  /** `build_chain`: refuses an empty store before any question can be asked. */
  function BuildChain(index: VectorIndex, llm: string -> string): (r: Result<Chain, string>)
    ensures r.Failure? <==> index.count == 0
    ensures r.Failure? ==> r.error == EmptyIndexMessage
    ensures r.Success? ==> r.value.index.count == index.count && r.value.index.search == index.search
    ensures r.Success? ==> r.value.llm == llm
  {
    if index.count == 0 then Failure(EmptyIndexMessage) else Success(Chain(index, llm))
  }

  /** `rag_answer`: retrieve, filter, format, generate, then apply the sentinel policy. */
  method RagAnswer(chain: Chain, question: string) returns (reply: Reply)
    ensures var used := SelectContext(chain.index.search(question, CandidateCount));
            reply == Respond(chain.llm(RenderPrompt(FormatContext(used), question)), used)
  {
    var results := chain.index.search(question, CandidateCount);
    var filtered: seq<Doc> := [];
    for i := 0 to |results|
      invariant filtered == Passing(results[..i])
    {
      var (doc, score) := results[i];
      assert results[..i + 1][..i] == results[..i];
      if score <= DistanceThreshold {
        filtered := filtered + [doc];
      }
    }
    assert results[..|results|] == results;
    if filtered == [] {
      filtered := DocsOf(results[..Min(FallbackCount, |results|)]);
    }
    var context := FormatDocs(filtered);
    var answer := chain.llm(RenderPrompt(context, question));
    if MentionsSentinel(answer) {
      return Reply(answer, []);
    }
    var sources := DeduplicateSources(filtered);
    reply := Reply(answer, sources);
  }
}
