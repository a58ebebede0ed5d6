/**
 * The integer parts of the ranked retrieval: term frequencies of a
 * document, document frequencies and the vocabulary of a corpus, the
 * champion lists of the inverted index, and the candidate documents of a
 * query. The segmenter is replaced by the token list it returns.
 */
module RankedRetrieval {
  import opened Base

  /** A document: its id and its term frequencies. The TF-IDF weights and the norm are not part of this model. */
  datatype Document = Document(id: int, termFreq: map<string, nat>)

  /** getOrDefault(t, 0). */
  function Get(m: map<string, nat>, t: string): nat
  {
    if t in m then m[t] else 0
  }

  /* String.trim: the characters up to U+0020 are cut from both ends. */

  predicate Blank(c: char)
  {
    c <= ' '
  }

  function TrimStart(s: string): (r: string)
    ensures |r| <= |s| && r == s[|s| - |r|..]
    ensures |r| == 0 || !Blank(r[0])
    ensures forall k :: 0 <= k < |s| - |r| ==> Blank(s[k])
    decreases |s|
  {
    if |s| > 0 && Blank(s[0]) then
      var r := TrimStart(s[1..]);
      assert r == s[|s| - |r|..];
      assert forall k :: 1 <= k < |s| - |r| ==> s[k] == s[1..][k - 1];
      r
    else s
  }

  function TrimEnd(s: string): (r: string)
    ensures |r| <= |s| && r == s[..|r|]
    ensures |r| == 0 || !Blank(r[|r| - 1])
    ensures forall k :: |r| <= k < |s| ==> Blank(s[k])
    decreases |s|
  {
    if |s| > 0 && Blank(s[|s| - 1]) then
      var r := TrimEnd(s[..|s| - 1]);
      assert r == s[..|r|];
      r
    else s
  }

  function Trim(s: string): string
  {
    TrimEnd(TrimStart(s))
  }

  /** A string trims to nothing exactly when all its characters are blank. */
  lemma TrimEmpty(s: string)
    ensures |Trim(s)| == 0 <==> forall k :: 0 <= k < |s| ==> Blank(s[k])
  {
    var u := TrimStart(s);
    assert |u| > 0 ==> s[|s| - |u|] == u[0];
    assert forall k :: |s| - |u| <= k < |s| ==> s[k] == u[k - (|s| - |u|)];
  }

  /** Trimming twice is trimming once. */
  lemma TrimTwice(s: string)
    ensures Trim(Trim(s)) == Trim(s)
  {
    var u := TrimStart(s);
    var v := TrimEnd(u);
    assert |v| > 0 ==> v[0] == u[0];
    assert TrimStart(v) == v;
  }

  /* The Document constructor. */

  /** The tokens counted, in order: each token trimmed, unless it is then empty or a stop word. */
  function Kept(tokens: seq<string>, stopWords: set<string>): seq<string>
  {
    if |tokens| == 0 then []
    else
      var t := Trim(tokens[|tokens| - 1]);
      var prefix := Kept(tokens[..|tokens| - 1], stopWords);
      if t !in stopWords && |t| > 0 then prefix + [t] else prefix
  }

  /** The strings counted by termFreq.put(t, termFreq.getOrDefault(t, 0) + 1), in order. */
  function Tally(ts: seq<string>): map<string, nat>
  {
    if |ts| == 0 then map[]
    else
      var m := Tally(ts[..|ts| - 1]);
      var t := ts[|ts| - 1];
      m[t := Get(m, t) + 1]
  }

  /** The termFreq map the constructor builds. */
  function TermFreq(tokens: seq<string>, stopWords: set<string>): map<string, nat>
  {
    Tally(Kept(tokens, stopWords))
  }

  /** The number of tokens that trim to t. */
  function Occurrences(tokens: seq<string>, t: string): nat
  {
    if |tokens| == 0 then 0
    else Occurrences(tokens[..|tokens| - 1], t) + (if Trim(tokens[|tokens| - 1]) == t then 1 else 0)
  }

  lemma KeptNext(tokens: seq<string>, stopWords: set<string>, i: nat)
    requires i < |tokens|
    ensures var t := Trim(tokens[i]);
      Kept(tokens[..i + 1], stopWords) == if t !in stopWords && |t| > 0 then Kept(tokens[..i], stopWords) + [t] else Kept(tokens[..i], stopWords)
  {
    assert tokens[..i + 1][..i] == tokens[..i];
  }

  lemma TallyNext(ts: seq<string>, t: string)
    ensures Tally(ts + [t]) == Tally(ts)[t := Get(Tally(ts), t) + 1]
  {
    assert (ts + [t])[..|ts|] == ts;
  }

  /** termFreq.put(t, termFreq.getOrDefault(t, 0) + 1) when t is counted. */
  function Count(m: map<string, nat>, t: string, counted: bool): map<string, nat>
  {
    if counted then m[t := Get(m, t) + 1] else m
  }

  /** Whether the constructor counts a token that trims to t. */
  predicate Counted(t: string, stopWords: set<string>)
  {
    t !in stopWords && |t| > 0
  }

  lemma TermFreqNext(tokens: seq<string>, stopWords: set<string>, i: nat)
    requires i < |tokens|
    ensures TermFreq(tokens[..i + 1], stopWords)
      == Count(TermFreq(tokens[..i], stopWords), Trim(tokens[i]), Counted(Trim(tokens[i]), stopWords))
  {
    var t := Trim(tokens[i]);
    KeptNext(tokens, stopWords, i);
    TallyStep(Kept(tokens[..i + 1], stopWords), Kept(tokens[..i], stopWords), t, Counted(t, stopWords));
  }

  lemma TallyStep(next: seq<string>, kept: seq<string>, t: string, counted: bool)
    requires next == if counted then kept + [t] else kept
    ensures Tally(next) == Count(Tally(kept), t, counted)
  {
    if counted {
      TallyNext(kept, t);
    }
  }

  /** The Document constructor: count the trimmed tokens, skipping empty ones and stop words. */
  method NewDocument(id: int, tokens: seq<string>, stopWords: set<string>) returns (doc: Document)
    ensures doc.id == id && doc.termFreq == TermFreq(tokens, stopWords)
  {
    var termFreq: map<string, nat> := map[];
    for i := 0 to |tokens|
      invariant termFreq == TermFreq(tokens[..i], stopWords)
    {
      var token := Trim(tokens[i]);
      TermFreqNext(tokens, stopWords, i);
      termFreq := CountToken(termFreq, token, stopWords);
    }
    assert tokens[..|tokens|] == tokens;
    doc := Document(id, termFreq);
  }

  /** The body of the constructor's loop for one trimmed token. */
  method CountToken(termFreq: map<string, nat>, token: string, stopWords: set<string>) returns (termFreq': map<string, nat>)
    ensures termFreq' == Count(termFreq, token, Counted(token, stopWords))
  {
    termFreq' := termFreq;
    if !(token in stopWords) && !(|token| == 0) {
      termFreq' := termFreq'[token := Get(termFreq', token) + 1];
    }
  }

  /** A tally holds each string with the number of times it occurs, and nothing else. */
  lemma {:induction false} TallyCounts(ts: seq<string>, t: string)
    ensures Get(Tally(ts), t) == multiset(ts)[t]
    ensures t in Tally(ts) <==> t in ts
    decreases |ts|
  {
    if |ts| > 0 {
      var pre := ts[..|ts| - 1];
      TallyCounts(pre, t);
      assert ts == pre + [ts[|ts| - 1]];
    }
  }

  lemma {:induction false} KeptCounts(tokens: seq<string>, stopWords: set<string>, t: string)
    ensures multiset(Kept(tokens, stopWords))[t] == if t in stopWords || |t| == 0 then 0 else Occurrences(tokens, t)
    decreases |tokens|
  {
    if |tokens| > 0 {
      KeptCounts(tokens[..|tokens| - 1], stopWords, t);
    }
  }

  /**
   * termFreq[t] is the number of tokens that trim to t, for every t that
   * is neither empty nor a stop word; no other string is a key.
   */
  lemma TermFreqCounts(tokens: seq<string>, stopWords: set<string>, t: string)
    ensures Get(TermFreq(tokens, stopWords), t) == if t in stopWords || |t| == 0 then 0 else Occurrences(tokens, t)
    ensures t in TermFreq(tokens, stopWords) <==> Get(TermFreq(tokens, stopWords), t) > 0
  {
    TallyCounts(Kept(tokens, stopWords), t);
    KeptCounts(tokens, stopWords, t);
  }

  /** Some key of a map that has one. */
  ghost function Pick(m: map<string, nat>): (k: string)
    requires |m| > 0
    ensures k in m
  {
    var k :| k in m; k
  }

  /** The sum of the counts of a map. */
  ghost function Total(m: map<string, nat>): nat
    decreases |m|
  {
    if |m| == 0 then 0
    else
      var k := Pick(m);
      assert |(m - {k}).Keys| < |m.Keys| by {
        assert (m - {k}).Keys == m.Keys - {k};
      }
      m[k] + Total(m - {k})
  }

  lemma MapRemove(m: map<string, nat>, k: string)
    requires k in m
    ensures (m - {k}).Keys == m.Keys - {k} && |m - {k}| == |m| - 1
  {
    assert (m - {k}).Keys == m.Keys - {k};
  }

  /** The sum does not depend on which key is taken first. */
  lemma {:induction false} TotalRemove(m: map<string, nat>, k: string)
    requires k in m
    ensures Total(m) == m[k] + Total(m - {k})
    decreases |m|
  {
    var j := Pick(m);
    if j != k {
      MapRemove(m, j);
      MapRemove(m, k);
      TotalRemove(m - {j}, k);
      TotalRemove(m - {k}, j);
      assert m - {j} - {k} == m - {k} - {j};
    }
  }

  lemma TotalNext(m: map<string, nat>, t: string)
    ensures Total(m[t := Get(m, t) + 1]) == Total(m) + 1
  {
    var m' := m[t := Get(m, t) + 1];
    TotalRemove(m', t);
    assert m' - {t} == m - {t};
    if t in m {
      TotalRemove(m, t);
    } else {
      assert m - {t} == m;
    }
  }

  lemma {:induction false} TallyTotal(ts: seq<string>)
    ensures Total(Tally(ts)) == |ts|
    decreases |ts|
  {
    if |ts| > 0 {
      TallyTotal(ts[..|ts| - 1]);
      TotalNext(Tally(ts[..|ts| - 1]), ts[|ts| - 1]);
    }
  }

  /** The counts add up to the number of tokens kept. */
  lemma TermFreqTotal(tokens: seq<string>, stopWords: set<string>)
    ensures Total(TermFreq(tokens, stopWords)) == |Kept(tokens, stopWords)|
  {
    TallyTotal(Kept(tokens, stopWords));
  }

  /* The corpus: documents, document frequencies and vocabulary. */

  /** The documents that contain t, in corpus order. */
  function Posting(docs: seq<Document>, t: string): seq<Document>
  {
    if |docs| == 0 then []
    else
      var p := Posting(docs[..|docs| - 1], t);
      var d := docs[|docs| - 1];
      if t in d.termFreq then p + [d] else p
  }

  /** The terms of all documents: the union of their termFreq keys. */
  function Vocabulary(docs: seq<Document>): set<string>
  {
    if |docs| == 0 then {} else Vocabulary(docs[..|docs| - 1]) + docs[|docs| - 1].termFreq.Keys
  }

  lemma PostingNext(docs: seq<Document>, d: Document, t: string)
    ensures Posting(docs + [d], t) == if t in d.termFreq then Posting(docs, t) + [d] else Posting(docs, t)
    ensures Vocabulary(docs + [d]) == Vocabulary(docs) + d.termFreq.Keys
  {
    assert (docs + [d])[..|docs|] == docs;
  }

  /** A posting list holds exactly the documents with the term, and there is one exactly for the vocabulary. */
  lemma {:induction false} PostingMembers(docs: seq<Document>, t: string)
    ensures forall d :: d in Posting(docs, t) <==> d in docs && t in d.termFreq
    ensures t in Vocabulary(docs) <==> |Posting(docs, t)| > 0
    ensures |Posting(docs, t)| <= |docs|
    decreases |docs|
  {
    if |docs| > 0 {
      var pre := docs[..|docs| - 1];
      PostingMembers(pre, t);
      assert docs == pre + [docs[|docs| - 1]];
    }
  }

  /** The vocabulary is the set of terms of some document. */
  lemma {:induction false} VocabularyMembers(docs: seq<Document>, t: string)
    ensures t in Vocabulary(docs) <==> exists i :: 0 <= i < |docs| && t in docs[i].termFreq
    decreases |docs|
  {
    if |docs| > 0 {
      var pre := docs[..|docs| - 1];
      VocabularyMembers(pre, t);
      assert forall i :: 0 <= i < |pre| ==> pre[i] == docs[i];
    }
  }

  /** The documents a list of files loads to: each file's id and term frequencies. */
  function Loaded(files: seq<(int, seq<string>)>, stopWords: set<string>): seq<Document>
  {
    if |files| == 0 then []
    else Loaded(files[..|files| - 1], stopWords) + [Document(files[|files| - 1].0, TermFreq(files[|files| - 1].1, stopWords))]
  }

  /** One more count for each term of doc keeps dfMap the document frequencies. */
  lemma CountedDocument(docs: seq<Document>, doc: Document, df0: map<string, nat>, df: map<string, nat>)
    requires df0.Keys == Vocabulary(docs) && forall t :: t in df0 ==> df0[t] == |Posting(docs, t)|
    requires df.Keys == df0.Keys + doc.termFreq.Keys
    requires forall t :: t in df ==> df[t] == Get(df0, t) + if t in doc.termFreq.Keys then 1 else 0
    ensures df.Keys == Vocabulary(docs + [doc])
    ensures forall t :: t in df ==> df[t] == |Posting(docs + [doc], t)|
  {
    forall t | t in df
      ensures df[t] == |Posting(docs + [doc], t)|
    {
      PostingNext(docs, doc, t);
      PostingMembers(docs, t);
    }
    PostingNext(docs, doc, "");
  }

  /** Corpus with its documents list, dfMap and vocabulary. */
  class Corpus {
    var documents: seq<Document>
    var dfMap: map<string, nat>
    var vocabulary: set<string>

    /** dfMap counts for each term the documents that contain it; vocabulary holds the same terms. */
    ghost predicate Valid()
      reads this
    {
      && dfMap.Keys == vocabulary == Vocabulary(documents)
      && forall t :: t in dfMap ==> dfMap[t] == |Posting(documents, t)|
    }

    constructor ()
      ensures Valid() && documents == []
    {
      documents, dfMap, vocabulary := [], map[], {};
    }

    /** documents.add(doc), then one count for each of its terms. */
    method AddDocument(doc: Document)
      requires Valid()
      modifies this
      ensures Valid() && documents == old(documents) + [doc]
    {
      ghost var df0, docs0 := dfMap, documents;
      documents := documents + [doc];
      var terms := doc.termFreq.Keys;
      while terms != {}
        invariant terms <= doc.termFreq.Keys
        invariant dfMap.Keys == vocabulary == df0.Keys + (doc.termFreq.Keys - terms)
        invariant forall t :: t in dfMap ==> dfMap[t] == Get(df0, t) + if t in doc.termFreq.Keys - terms then 1 else 0
        invariant documents == docs0 + [doc] && df0.Keys == Vocabulary(docs0)
        invariant forall t :: t in df0 ==> df0[t] == |Posting(docs0, t)|
        decreases terms
      {
        var term :| term in terms;
        dfMap := dfMap[term := Get(dfMap, term) + 1];
        vocabulary := vocabulary + {term};
        terms := terms - {term};
      }
      CountedDocument(docs0, doc, df0, dfMap);
    }

    /** loadDocuments over the files that end in .txt, each given by its id and its tokens. */
    method LoadDocuments(files: seq<(int, seq<string>)>, stopWords: set<string>)
      requires Valid()
      modifies this
      ensures Valid() && documents == old(documents) + Loaded(files, stopWords)
    {
      ghost var docs0 := documents;
      for i := 0 to |files|
        invariant Valid() && documents == docs0 + Loaded(files[..i], stopWords)
      {
        var doc := NewDocument(files[i].0, files[i].1, stopWords);
        assert files[..i + 1][..i] == files[..i];
        AddDocument(doc);
      }
      assert files[..|files|] == files;
    }
  }

  /** After loading, dfMap[t] is the number of documents containing t, and 0 is never stored. */
  lemma DocumentFrequency(c: Corpus, t: string)
    requires c.Valid()
    ensures t in c.dfMap <==> t in c.vocabulary
    ensures t in c.dfMap ==> 0 < c.dfMap[t] <= |c.documents|
    ensures t in c.dfMap <==> exists i :: 0 <= i < |c.documents| && t in c.documents[i].termFreq
  {
    PostingMembers(c.documents, t);
    VocabularyMembers(c.documents, t);
  }

  /* The inverted index: postings and champion lists. */

  /** The term frequency the heap compares, termFreq.get(term). */
  function Tf(d: Document, t: string): nat
  {
    Get(d.termFreq, t)
  }

  /** min(r, n), and nothing when r is not positive. */
  function Bound(r: int, n: nat): nat
  {
    if r <= 0 then 0 else if r < n then r else n
  }

  predicate Dominates(low: seq<Document>, high: seq<Document>, t: string)
  {
    forall x, y :: x in low && y in high ==> Tf(x, t) <= Tf(y, t)
  }

  predicate NonIncreasing(top: seq<Document>, t: string)
  {
    forall i, j :: 0 <= i < j < |top| ==> Tf(top[j], t) <= Tf(top[i], t)
  }

  predicate Ascending(s: seq<Document>, t: string)
  {
    forall i, j :: 0 <= i < j < |s| ==> Tf(s[i], t) <= Tf(s[j], t)
  }

  /**
   * top is a champion list of the posting list for t: the right number of
   * its documents, by non-increasing TF, none of the others with a
   * higher TF. Which of several documents of equal TF are kept is left open.
   */
  predicate Champion(top: seq<Document>, posting: seq<Document>, t: string, r: int)
  {
    && |top| == Bound(r, |posting|)
    && multiset(top) <= multiset(posting)
    && NonIncreasing(top, t)
    && forall d, y :: d in multiset(posting) - multiset(top) && y in top ==> Tf(d, t) <= Tf(y, t)
  }

  /** heap.poll() may return the document at k: none in the heap has a lower TF. */
  predicate IsMinAt(heap: seq<Document>, k: nat, t: string)
  {
    k < |heap| && forall j :: 0 <= j < |heap| ==> Tf(heap[k], t) <= Tf(heap[j], t)
  }

  function FirstMin(heap: seq<Document>, t: string): (k: nat)
    requires |heap| > 0
    ensures IsMinAt(heap, k, t)
  {
    if |heap| == 1 then 0
    else
      var k := FirstMin(heap[..|heap| - 1], t);
      assert forall j :: 0 <= j < |heap| - 1 ==> heap[..|heap| - 1][j] == heap[j];
      if Tf(heap[|heap| - 1], t) < Tf(heap[k], t) then |heap| - 1 else k
  }

  function Remove(s: seq<Document>, k: nat): seq<Document>
    requires k < |s|
  {
    s[..k] + s[k + 1..]
  }

  /** One more document offered: the heap grows by one until it holds r. */
  lemma BoundNext(r: int, i: nat)
    ensures Bound(r, i + 1) == if Bound(r, i) + 1 > r then Bound(r, i) else Bound(r, i) + 1
    ensures Bound(r, i) + 1 <= r ==> Bound(r, i) == i
  {
  }

  lemma RemoveFacts(s: seq<Document>, k: nat)
    requires k < |s|
    ensures |Remove(s, k)| == |s| - 1
    ensures multiset(Remove(s, k)) + multiset{s[k]} == multiset(s)
    ensures forall x :: x in Remove(s, k) ==> x in s
  {
    assert s == s[..k] + [s[k]] + s[k + 1..];
  }

  /** Offer x, then poll a minimum: the document polled joins the ones dropped, below all that stay. */
  lemma OfferPoll(heap: seq<Document>, dropped: seq<Document>, x: Document, k: nat, t: string)
    requires Dominates(dropped, heap, t) && IsMinAt(heap + [x], k, t)
    ensures Dominates(dropped + [(heap + [x])[k]], Remove(heap + [x], k), t)
  {
    var h := heap + [x];
    var m := h[k];
    RemoveFacts(h, k);
    if k == |heap| {
      assert Remove(h, k) == heap;
    } else {
      assert m in heap;
    }
  }

  /** Offer x, then poll the document at k: nothing is lost and nothing is added. */
  lemma Polled(heap: seq<Document>, dropped: seq<Document>, x: Document, k: nat)
    requires k <= |heap|
    ensures |Remove(heap + [x], k)| == |heap|
    ensures multiset(Remove(heap + [x], k)) + multiset(dropped + [(heap + [x])[k]])
      == multiset(heap) + multiset(dropped) + multiset{x}
  {
    var h := heap + [x];
    RemoveFacts(h, k);
    var kept, m := multiset(Remove(h, k)), multiset{h[k]};
    assert multiset(h) == multiset(heap) + multiset{x};
    assert multiset(dropped + [h[k]]) == multiset(dropped) + m;
    assert kept + (multiset(dropped) + m) == (kept + m) + multiset(dropped);
  }

  /** Poll a minimum of the heap onto the drained list. */
  lemma Drain(out: seq<Document>, heap: seq<Document>, k: nat, t: string)
    requires Ascending(out, t) && Dominates(out, heap, t) && IsMinAt(heap, k, t)
    ensures Ascending(out + [heap[k]], t) && Dominates(out + [heap[k]], Remove(heap, k), t)
  {
    RemoveFacts(heap, k);
    assert heap[k] in heap;
  }

  /** Collections.reverse of the drained list: non-increasing TF. */
  lemma Reversed(out: seq<Document>, t: string)
    requires Ascending(out, t)
    ensures NonIncreasing(Reverse(out), t) && multiset(Reverse(out)) == multiset(out)
  {
    ReverseMultiset(out);
  }

  lemma SameElements(a: seq<Document>, b: seq<Document>)
    requires multiset(a) == multiset(b)
    ensures forall y :: y in a ==> y in b
  {
    forall y | y in a
      ensures y in b
    {
      assert y in multiset(a);
    }
  }

  lemma ChampionFrom(top: seq<Document>, dropped: seq<Document>, posting: seq<Document>, t: string, r: int)
    requires multiset(top) + multiset(dropped) == multiset(posting)
    requires |top| == Bound(r, |posting|) && NonIncreasing(top, t) && Dominates(dropped, top, t)
    ensures Champion(top, posting, t, r)
  {
    assert multiset(posting) - multiset(top) == multiset(dropped);
  }

  /**
   * The heap loop of build for one term: offer each document of the
   * posting list and poll the one of least TF when more than r are held;
   * then poll them all and reverse.
   */
  method TopR(posting: seq<Document>, term: string, r: int) returns (top: seq<Document>)
    ensures Champion(top, posting, term, r)
  {
    var heap, dropped := Offer(posting, term, r);
    var topR := PollAll(heap, term);
    top := Reverse(topR);
    Reversed(topR, term);
    assert |multiset(top)| == |multiset(heap)|;
    SameElements(top, heap);
    assert Dominates(dropped, top, term);
    ChampionFrom(top, dropped, posting, term, r);
  }

  /** The offer loop: every document is offered, and the heap never keeps more than r. */
  method Offer(posting: seq<Document>, term: string, r: int) returns (heap: seq<Document>, ghost dropped: seq<Document>)
    ensures multiset(heap) + multiset(dropped) == multiset(posting)
    ensures |heap| == Bound(r, |posting|) && Dominates(dropped, heap, term)
  {
    heap, dropped := [], [];
    for i := 0 to |posting|
      invariant multiset(heap) + multiset(dropped) == multiset(posting[..i])
      invariant |heap| + |dropped| == i && |heap| == Bound(r, i)
      invariant Dominates(dropped, heap, term)
    {
      TakeNext(posting, i);
      BoundNext(r, i);
      heap, dropped := OfferOne(heap, dropped, posting[i], term, r);
    }
    assert posting[..|posting|] == posting;
  }

  /** heap.offer(doc), then heap.poll() when the heap holds more than r. */
  method OfferOne(heap: seq<Document>, ghost dropped: seq<Document>, x: Document, term: string, r: int)
    returns (heap': seq<Document>, ghost dropped': seq<Document>)
    requires Dominates(dropped, heap, term) && (|heap| + 1 <= r ==> |dropped| == 0)
    ensures multiset(heap') + multiset(dropped') == multiset(heap) + multiset(dropped) + multiset{x}
    ensures |heap'| == (if |heap| + 1 > r then |heap| else |heap| + 1)
    ensures |dropped'| == (if |heap| + 1 > r then |dropped| + 1 else |dropped|)
    ensures Dominates(dropped', heap', term)
  {
    heap', dropped' := heap + [x], dropped;
    if |heap'| > r {
      ghost var w := FirstMin(heap', term);
      var k: nat :| IsMinAt(heap', k, term);
      OfferPoll(heap, dropped, x, k, term);
      Polled(heap, dropped, x, k);
      dropped' := dropped + [heap'[k]];
      heap' := Remove(heap', k);
    }
  }

  /** The loop that polls the heap empty: the documents come out by non-decreasing TF. */
  method PollAll(heap: seq<Document>, term: string) returns (topR: seq<Document>)
    ensures multiset(topR) == multiset(heap) && Ascending(topR, term)
  {
    var rest := heap;
    topR := [];
    while |rest| > 0
      invariant multiset(topR) + multiset(rest) == multiset(heap)
      invariant Ascending(topR, term) && Dominates(topR, rest, term)
      decreases |rest|
    {
      ghost var w := FirstMin(rest, term);
      var k: nat :| IsMinAt(rest, k, term);
      Drain(topR, rest, k, term);
      RemoveFacts(rest, k);
      topR := topR + [rest[k]];
      rest := Remove(rest, k);
    }
  }

  /** When r is at least the length of the posting list, the champion list holds all of it. */
  lemma ChampionComplete(top: seq<Document>, posting: seq<Document>, t: string, r: int)
    requires Champion(top, posting, t, r) && r >= |posting|
    ensures multiset(top) == multiset(posting)
  {
    var a, b := multiset(top), multiset(posting);
    assert b == a + (b - a);
    assert |b - a| == 0;
  }

  /** The first document of a champion list has the highest TF of the whole posting list. */
  lemma ChampionFirst(top: seq<Document>, posting: seq<Document>, t: string, r: int)
    requires Champion(top, posting, t, r) && |top| > 0
    ensures forall d :: d in posting ==> Tf(d, t) <= Tf(top[0], t)
  {
    forall d | d in posting
      ensures Tf(d, t) <= Tf(top[0], t)
    {
      if d in multiset(top) {
        var j :| 0 <= j < |top| && top[j] == d;
        assert j == 0 || Tf(top[j], t) <= Tf(top[0], t);
      } else {
        assert d in multiset(posting) - multiset(top);
        assert top[0] in top;
      }
    }
  }

  /** The documents of a champion list all come from its posting list. */
  lemma ChampionMembers(top: seq<Document>, posting: seq<Document>, t: string, r: int)
    requires Champion(top, posting, t, r)
    ensures forall d :: d in top ==> d in posting
  {
    forall d | d in top
      ensures d in posting
    {
      assert d in multiset(top);
    }
  }

  /** The first loop of build: every document is appended to the list of each of its terms (computeIfAbsent). */
  method Postings(documents: seq<Document>) returns (posting: map<string, seq<Document>>)
    ensures posting.Keys == Vocabulary(documents)
    ensures forall t :: t in posting ==> posting[t] == Posting(documents, t)
  {
    posting := map[];
    for i := 0 to |documents|
      invariant posting.Keys == Vocabulary(documents[..i])
      invariant forall t :: t in posting ==> posting[t] == Posting(documents[..i], t)
    {
      var doc := documents[i];
      ghost var p0 := posting;
      var terms := doc.termFreq.Keys;
      while terms != {}
        invariant terms <= doc.termFreq.Keys
        invariant posting.Keys == p0.Keys + (doc.termFreq.Keys - terms)
        invariant forall t :: t in posting ==> posting[t] == Added(p0, t, doc, doc.termFreq.Keys - terms)
        decreases terms
      {
        var term :| term in terms;
        var list := if term in posting then posting[term] else [];
        posting := posting[term := list + [doc]];
        terms := terms - {term};
      }
      TakeNext(documents, i);
      Appended(documents[..i], doc, p0, posting);
    }
    assert documents[..|documents|] == documents;
  }

  /** The list of t once doc has been appended to the lists of the terms in done. */
  function Added(p0: map<string, seq<Document>>, t: string, doc: Document, done: set<string>): seq<Document>
  {
    (if t in p0 then p0[t] else []) + (if t in done then [doc] else [])
  }

  /** Appending doc to the list of each of its terms extends the postings by doc. */
  lemma Appended(docs: seq<Document>, doc: Document, p0: map<string, seq<Document>>, p: map<string, seq<Document>>)
    requires p0.Keys == Vocabulary(docs) && forall t :: t in p0 ==> p0[t] == Posting(docs, t)
    requires p.Keys == p0.Keys + doc.termFreq.Keys
    requires forall t :: t in p ==> p[t] == Added(p0, t, doc, doc.termFreq.Keys)
    ensures p.Keys == Vocabulary(docs + [doc])
    ensures forall t :: t in p ==> p[t] == Posting(docs + [doc], t)
  {
    forall t | t in p
      ensures p[t] == Posting(docs + [doc], t)
    {
      PostingNext(docs, doc, t);
      PostingMembers(docs, t);
    }
    PostingNext(docs, doc, "");
  }

  /** The ids of a list of documents, as build stores them. */
  function Ids(docs: seq<Document>): (ids: seq<int>)
    ensures |ids| == |docs|
    ensures forall i :: 0 <= i < |docs| ==> ids[i] == docs[i].id
  {
    seq(|docs|, i requires 0 <= i < |docs| => docs[i].id)
  }

  /** ids are the ids of some champion list of the posting list for t. */
  ghost predicate ChampionIds(ids: seq<int>, posting: seq<Document>, t: string, r: int)
  {
    exists top :: Champion(top, posting, t, r) && Ids(top) == ids
  }

  /** InvertedIndex with its championList from terms to document ids. */
  class InvertedIndex {
    var championList: map<string, seq<int>>

    constructor ()
      ensures championList == map[]
    {
      championList := map[];
    }

    /**
     * build: the postings of the corpus, then for each term the ids of
     * its champion list. Terms already in championList and absent from
     * the corpus keep their lists.
     */
    method Build(corpus: Corpus, r: int)
      modifies this
      ensures championList.Keys == old(championList).Keys + Vocabulary(corpus.documents)
      ensures forall t :: t in old(championList) && t !in Vocabulary(corpus.documents) ==> championList[t] == old(championList)[t]
      ensures forall t :: t in Vocabulary(corpus.documents) ==> ChampionIds(championList[t], Posting(corpus.documents, t), t, r)
    {
      var posting := Postings(corpus.documents);
      ghost var list0 := championList;
      var terms := posting.Keys;
      while terms != {}
        invariant terms <= posting.Keys
        invariant championList.Keys == list0.Keys + (posting.Keys - terms)
        invariant forall t :: t in list0 && t !in posting.Keys - terms ==> championList[t] == list0[t]
        invariant forall t :: t in posting.Keys - terms ==> ChampionIds(championList[t], posting[t], t, r)
        decreases terms
      {
        var term :| term in terms;
        var top := TopR(posting[term], term, r);
        championList := championList[term := Ids(top)];
        terms := terms - {term};
      }
    }
  }

  /** The keys of the query vector: the tokens that are neither stop words nor blank, as they are (not trimmed). */
  function QueryTerms(tokens: seq<string>, stopWords: set<string>): set<string>
  {
    set tok | tok in tokens && tok !in stopWords && |Trim(tok)| > 0
  }

  /** The candidate set of query: the union of the champion lists of the query terms that have one. */
  method Candidates(terms: set<string>, championList: map<string, seq<int>>) returns (candidates: set<int>)
    ensures forall id :: id in candidates <==> exists t :: t in terms && t in championList && id in championList[t]
  {
    candidates := {};
    var rest := terms;
    while rest != {}
      invariant rest <= terms
      invariant forall id :: id in candidates <==> exists t :: t in terms - rest && t in championList && id in championList[t]
      decreases rest
    {
      var term :| term in rest;
      if term in championList {
        candidates := candidates + set id | id in championList[term];
      }
      rest := rest - {term};
    }
  }

  /** query up to its candidate set: the query vector's terms, then the union of their champion lists. */
  method QueryCandidates(index: InvertedIndex, queryTokens: seq<string>, stopWords: set<string>) returns (candidates: set<int>)
    ensures forall id :: id in candidates <==>
      exists t :: t in queryTokens && t !in stopWords && |Trim(t)| > 0 && t in index.championList && id in index.championList[t]
  {
    var terms: set<string> := {};
    for i := 0 to |queryTokens|
      invariant terms == QueryTerms(queryTokens[..i], stopWords)
    {
      var tok := queryTokens[i];
      QueryTermsNext(queryTokens, stopWords, i);
      if tok !in stopWords && |Trim(tok)| > 0 {
        terms := terms + {tok};
      }
    }
    assert queryTokens[..|queryTokens|] == queryTokens;
    candidates := Candidates(terms, index.championList);
  }

  lemma QueryTermsNext(tokens: seq<string>, stopWords: set<string>, i: nat)
    requires i < |tokens|
    ensures QueryTerms(tokens[..i + 1], stopWords) ==
      QueryTerms(tokens[..i], stopWords) + if tokens[i] !in stopWords && |Trim(tokens[i])| > 0 then {tokens[i]} else {}
  {
    TakeNext(tokens, i);
  }

  /** Every candidate is the id of a document that holds one of the query terms. */
  lemma CandidateSound(docs: seq<Document>, championList: map<string, seq<int>>, r: int, terms: set<string>, id: int)
    requires forall t :: t in championList ==> ChampionIds(championList[t], Posting(docs, t), t, r)
    requires exists t :: t in terms && t in championList && id in championList[t]
    ensures exists d :: d in docs && d.id == id && exists t :: t in terms && t in d.termFreq
  {
    var t :| t in terms && t in championList && id in championList[t];
    var top: seq<Document> :| Champion(top, Posting(docs, t), t, r) && Ids(top) == championList[t];
    var i: int :| 0 <= i < |top| && top[i].id == id;
    ChampionMembers(top, Posting(docs, t), t, r);
    PostingMembers(docs, t);
    assert top[i] in Posting(docs, t);
  }

  /** With r at least the number of documents, every document holding a query term is a candidate. */
  lemma CandidateComplete(docs: seq<Document>, championList: map<string, seq<int>>, r: int, terms: set<string>, d: Document, t: string)
    requires forall t :: t in Vocabulary(docs) ==> t in championList && ChampionIds(championList[t], Posting(docs, t), t, r)
    requires r >= |docs| && d in docs && t in terms && t in d.termFreq
    ensures exists t :: t in terms && t in championList && d.id in championList[t]
  {
    PostingMembers(docs, t);
    var top: seq<Document> :| Champion(top, Posting(docs, t), t, r) && Ids(top) == championList[t];
    ChampionComplete(top, Posting(docs, t), t, r);
    assert d in multiset(top);
    var i: int :| 0 <= i < |top| && top[i] == d;
    assert championList[t][i] == d.id;
  }
}
