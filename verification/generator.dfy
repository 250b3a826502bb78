/**
 The post-processing of `generate_answer` in src/app/generation/generator.py:
 `_extract_citations` turns the markers `re.findall` finds in the model's
 reply into citations, deduplicated by (stripped name, chunk number) in
 first-seen order, each with a snippet of the first context document it
 names; `sources_used` is the set of cited sources; the displayed answer is
 the reply with every marker and the whitespace before it removed, then
 stripped.  The model call itself is not modelled: its reply is an input.
 */
module Generator {
  import opened Common
  import opened Text
  import opened Scan
  import opened Documents
  import opened Marker

  /** `page_content[:200]`. */
  const SnippetLength: nat := 200

  /** `(source.strip(), int(chunk_id_str))`. */
  datatype Key = Key(source: string, chunkId: nat)

  datatype Citation = Citation(source: string, chunkId: nat, snippet: string)

  /** What `generate_answer` returns; `sources_used` is `list(set(...))`,
      whose order Python leaves unspecified, so it is a set here. */
  datatype Answer = Answer(answer: string, citations: seq<Citation>, sourcesUsed: set<string>)

  function KeyOf(m: Marker): Key
    requires AllDigits(m.digits)
  {
    Key(Strip(m.name), DigitsValue(m.digits))
  }

  /** The digit group of every marker `re.findall` reports is all digits. */
  lemma MarkerDigits(text: string)
    ensures forall i :: 0 <= i < |FindMarkers(text)| ==> AllDigits(FindMarkers(text)[i].info.digits)
  {
    var hs := FindMarkers(text);
    FindMarkersSpec(text);
    forall i | 0 <= i < |hs| ensures AllDigits(hs[i].info.digits) {
      assert Matcher(text)(hs[i].start) == Some(hs[i]);
    }
  }

  /** The keys of a sequence of matches, one per match, in order. */
  function KeysOf(hs: seq<Hit<Marker>>): (r: seq<Key>)
    requires forall i :: 0 <= i < |hs| ==> AllDigits(hs[i].info.digits)
    ensures |r| == |hs|
  {
    seq(|hs|, i requires 0 <= i < |hs| => KeyOf(hs[i].info))
  }

  /** The keys of the markers in the reply, in text order. */
  function MarkerKeys(text: string): seq<Key> {
    MarkerDigits(text);
    KeysOf(FindMarkers(text))
  }

  // ---------------------------------------------------------------------------
  // First-seen deduplication
  // ---------------------------------------------------------------------------

  /** The elements of `xs` in order of first occurrence, later repeats
      dropped.  Defined from the back, as the extraction loop builds it. */
  function Dedup<T(==)>(xs: seq<T>): (r: seq<T>)
    ensures |r| <= |xs|
    decreases |xs|
  {
    if xs == [] then []
    else
      var r := Dedup(xs[..|xs| - 1]);
      if xs[|xs| - 1] in r then r else r + [xs[|xs| - 1]]
  }

  predicate Distinct<T(==)>(xs: seq<T>) {
    forall i, j :: 0 <= i < j < |xs| ==> xs[i] != xs[j]
  }

  /** The position of the first occurrence of `x` in `xs`. */
  function FirstIndex<T(==)>(xs: seq<T>, x: T): (i: nat)
    requires x in xs
    ensures i < |xs| && xs[i] == x && x !in xs[..i]
  {
    if xs[0] == x then 0
    else
      var i := FirstIndex(xs[1..], x);
      assert xs[..i + 1] == [xs[0]] + xs[1..][..i];
      i + 1
  }

  /** Deduplication keeps exactly the elements of its input. */
  lemma {:induction false} DedupElems<T>(xs: seq<T>)
    ensures forall x :: x in Dedup(xs) <==> x in xs
    decreases |xs|
  {
    if xs != [] {
      var init := xs[..|xs| - 1];
      DedupElems(init);
      assert xs == init + [xs[|xs| - 1]];
    }
  }

  /** Deduplication leaves no repeats. */
  lemma {:induction false} DedupDistinct<T>(xs: seq<T>)
    ensures Distinct(Dedup(xs))
    decreases |xs|
  {
    if xs != [] {
      DedupDistinct(xs[..|xs| - 1]);
    }
  }

  /** The elements of `r` occur in `xs`, and in `r` they are listed in the
      order of their first occurrences in `xs`. */
  ghost predicate FirstSeenOrder<T>(xs: seq<T>, r: seq<T>) {
    forall i, j :: 0 <= i < j < |r| ==> SeenBefore(xs, r[i], r[j])
  }

  /** `a` first occurs in `xs` before `b` does. */
  ghost predicate SeenBefore<T>(xs: seq<T>, a: T, b: T) {
    a in xs && b in xs && FirstIndex(xs, a) < FirstIndex(xs, b)
  }

  /** Deduplication lists the elements in order of first occurrence. */
  lemma {:induction false} DedupFirstSeenOrder<T>(xs: seq<T>)
    ensures FirstSeenOrder(xs, Dedup(xs))
    decreases |xs|
  {
    if xs != [] {
      var init, x := xs[..|xs| - 1], xs[|xs| - 1];
      assert xs == init + [x];
      DedupFirstSeenOrder(init);
      var r := Dedup(xs);
      forall i, j | 0 <= i < j < |r|
        ensures SeenBefore(xs, r[i], r[j])
      {
        DedupSnocOrder(xs, init, x, i, j);
      }
      assert FirstSeenOrder(xs, r);
    }
  }

  /** The step of `DedupFirstSeenOrder`: appending an element keeps the
      order of the elements already listed and puts a new one last. */
  lemma DedupSnocOrder<T>(xs: seq<T>, init: seq<T>, x: T, i: nat, j: nat)
    requires xs == init + [x] && i < j < |Dedup(xs)|
    requires FirstSeenOrder(init, Dedup(init))
    ensures SeenBefore(xs, Dedup(xs)[i], Dedup(xs)[j])
  {
    assert xs[..|xs| - 1] == init;
    var r := Dedup(init);
    assert i < |r| && Dedup(xs)[i] == r[i];
    DedupMember(init, i);
    FirstIndexPrefix(xs, init, x, r[i]);
    if j < |r| {
      assert Dedup(xs)[j] == r[j];
      DedupMember(init, j);
      FirstIndexPrefix(xs, init, x, r[j]);
    } else {
      assert Dedup(xs)[j] == x && x !in r;
      DedupElems(init);
      FirstIndexLast(xs, init, x);
    }
  }

  lemma DedupMember<T>(xs: seq<T>, i: nat)
    requires i < |Dedup(xs)|
    ensures Dedup(xs)[i] in xs
  {
    DedupElems(xs);
    assert Dedup(xs)[i] in Dedup(xs);
  }

  /** Appending does not move a first occurrence. */
  lemma FirstIndexPrefix<T>(xs: seq<T>, init: seq<T>, x: T, y: T)
    requires xs == init + [x] && y in init
    ensures FirstIndex(xs, y) == FirstIndex(init, y) < |init|
  {
    var i := FirstIndex(init, y);
    assert xs[..i] == init[..i];
    FirstIndexIs(xs, i);
  }

  /** An element new to `init` first occurs at the end of `init + [x]`. */
  lemma FirstIndexLast<T>(xs: seq<T>, init: seq<T>, x: T)
    requires xs == init + [x] && x !in init
    ensures FirstIndex(xs, x) == |init|
  {
    assert xs[..|init|] == init;
    FirstIndexIs(xs, |init|);
  }

  /** A position holding an element not seen before is its first occurrence. */
  lemma FirstIndexIs<T>(xs: seq<T>, i: nat)
    requires i < |xs| && xs[i] !in xs[..i]
    ensures FirstIndex(xs, xs[i]) == i
  {
  }

  /** A repeated element is dropped: the test with the same marker twice. */
  lemma DedupRepeat<T>(a: T, b: T)
    requires a != b
    ensures Dedup([a, b, a]) == [a, b]
    ensures Dedup([a, a]) == [a]
  {
    assert [a, b, a][..2] == [a, b];
    assert [a, b][..1] == [a, a][..1] == [a];
    assert Dedup([a]) == [a];
    assert Dedup([a, b]) == [a, b];
  }

  // ---------------------------------------------------------------------------
  // Snippets and citations
  // ---------------------------------------------------------------------------

  /** `doc.metadata.get("source") == key[0] and doc.metadata.get("chunk_id") == key[1]`. */
  predicate DocMatches(d: Doc, k: Key) {
    d.source == Some(k.source) && d.chunkId == Some(k.chunkId as int)
  }

  /** `docs[i]` is the first document naming `k`. */
  predicate FirstMatch(docs: seq<Doc>, k: Key, i: nat) {
    i < |docs| && DocMatches(docs[i], k) && forall j :: 0 <= j < i ==> !DocMatches(docs[j], k)
  }

  /** The inner search: the first 200 characters of the first document that
      names the key, or `""`. */
  function Snippet(docs: seq<Doc>, k: Key): (r: string)
    ensures |r| <= SnippetLength
  {
    if docs == [] then ""
    else if DocMatches(docs[0], k) then Take(docs[0].pageContent, SnippetLength)
    else Snippet(docs[1..], k)
  }

  /** The snippet comes from the first matching document, in list order, and
      is empty when no document matches. */
  lemma {:induction false} SnippetSpec(docs: seq<Doc>, k: Key)
    ensures forall i: nat :: FirstMatch(docs, k, i) ==> Snippet(docs, k) == Take(docs[i].pageContent, SnippetLength)
    ensures (forall i :: 0 <= i < |docs| ==> !DocMatches(docs[i], k)) ==> Snippet(docs, k) == ""
  {
    if docs != [] {
      SnippetSpec(docs[1..], k);
      forall i: nat | FirstMatch(docs, k, i)
        ensures Snippet(docs, k) == Take(docs[i].pageContent, SnippetLength)
      {
        if i > 0 && !DocMatches(docs[0], k) {
          assert FirstMatch(docs[1..], k, i - 1);
        }
      }
      if forall i :: 0 <= i < |docs| ==> !DocMatches(docs[i], k) {
        assert !DocMatches(docs[0], k);
        assert forall i :: 0 <= i < |docs| - 1 ==> docs[1..][i] == docs[i + 1];
      }
    }
  }

  function CitationFor(docs: seq<Doc>, k: Key): Citation {
    Citation(k.source, k.chunkId, Snippet(docs, k))
  }

  /** The citations of a key sequence, as a reference: one per distinct
      key, in first-seen order. */
  function CitationsOf(keys: seq<Key>, docs: seq<Doc>): (cs: seq<Citation>)
    ensures |cs| == |Dedup(keys)|
  {
    var ks := Dedup(keys);
    seq(|ks|, i requires 0 <= i < |ks| => CitationFor(docs, ks[i]))
  }

  /** What `_extract_citations(answer_text, docs)` returns. */
  function Citations(text: string, docs: seq<Doc>): seq<Citation> {
    CitationsOf(MarkerKeys(text), docs)
  }

  /** A reply with a single marker match has a single citation, for that
      match's key. */
  lemma SingleMarkerCitation(text: string, docs: seq<Doc>, h: Hit<Marker>)
    requires FindMarkers(text) == [h] && AllDigits(h.info.digits)
    ensures MarkerKeys(text) == [KeyOf(h.info)]
    ensures Citations(text, docs) == [CitationFor(docs, KeyOf(h.info))]
  {
    var k := KeyOf(h.info);
    KeysOfSingle(FindMarkers(text), h);
    SingleKeyCitation(MarkerKeys(text), docs, k);
  }

  /** The first marker match gives the first key. */
  lemma FirstMarkerKey(text: string, h: Hit<Marker>, rest: seq<Hit<Marker>>)
    requires FindMarkers(text) == [h] + rest && AllDigits(h.info.digits)
    ensures |MarkerKeys(text)| > 0 && MarkerKeys(text)[0] == KeyOf(h.info)
  {
    MarkerDigits(text);
    KeysOfFirst(FindMarkers(text), h, rest);
  }

  lemma KeysOfFirst(hs: seq<Hit<Marker>>, h: Hit<Marker>, rest: seq<Hit<Marker>>)
    requires hs == [h] + rest && AllDigits(h.info.digits)
    requires forall i :: 0 <= i < |hs| ==> AllDigits(hs[i].info.digits)
    ensures |KeysOf(hs)| > 0 && KeysOf(hs)[0] == KeyOf(h.info)
  {
  }

  lemma KeysOfSingle(hs: seq<Hit<Marker>>, h: Hit<Marker>)
    requires hs == [h] && AllDigits(h.info.digits)
    ensures KeysOf(hs) == [KeyOf(h.info)]
  {
  }

  /** One key, one citation. */
  lemma SingleKeyCitation(keys: seq<Key>, docs: seq<Doc>, k: Key)
    requires keys == [k]
    ensures CitationsOf(keys, docs) == [CitationFor(docs, k)]
  {
    assert [k][..0] == [];
    assert Dedup([k]) == [k];
  }

  /** The loop of `_extract_citations`, with its `seen` set, over the keys of
      the matches. */
  method CiteKeys(keys: seq<Key>, docs: seq<Doc>) returns (cs: seq<Citation>)
    ensures cs == CitationsOf(keys, docs)
  {
    var seen: set<Key> := {};
    cs := [];
    var i := 0;
    while i < |keys|
      invariant i <= |keys|
      invariant forall x :: x in seen <==> x in keys[..i]
      invariant |cs| == |Dedup(keys[..i])|
      invariant forall j :: 0 <= j < |cs| ==> cs[j] == CitationFor(docs, Dedup(keys[..i])[j])
    {
      var key := keys[i];
      assert keys[..i + 1][..i] == keys[..i];
      DedupElems(keys[..i]);
      if key !in seen {
        seen := seen + {key};
        cs := cs + [Citation(key.source, key.chunkId, Snippet(docs, key))];
      }
      i := i + 1;
    }
    assert keys[..i] == keys;
  }

  /** `_extract_citations(answer_text, docs)`. */
  method ExtractCitations(text: string, docs: seq<Doc>) returns (cs: seq<Citation>)
    ensures cs == Citations(text, docs)
  {
    var keys := MarkerKeys(text);
    cs := CiteKeys(keys, docs);
  }

  /** The key a citation records. */
  function CitedKey(c: Citation): Key {
    Key(c.source, c.chunkId)
  }

  function CitedKeys(cs: seq<Citation>): (r: seq<Key>)
    ensures |r| == |cs|
  {
    seq(|cs|, i requires 0 <= i < |cs| => CitedKey(cs[i]))
  }

  /** The cited keys are the keys deduplicated: each key once, none that is
      not a key, pairwise distinct, in order of first occurrence, and no
      more of them than keys. */
  lemma CitedKeysDedup(keys: seq<Key>, docs: seq<Doc>)
    ensures var ck := CitedKeys(CitationsOf(keys, docs));
      && ck == Dedup(keys)
      && (forall k :: k in ck <==> k in keys)
      && Distinct(ck)
      && FirstSeenOrder(keys, ck)
      && |ck| <= |keys|
      && (keys == [] <==> ck == [])
  {
    var ck := CitedKeys(CitationsOf(keys, docs));
    assert ck == Dedup(keys);
    DedupElems(keys);
    DedupDistinct(keys);
    DedupFirstSeenOrder(keys);
    if keys != [] {
      assert keys[0] in ck;
    }
  }

  /** The same, for the markers of a reply: the citations' keys are the
      marker keys deduplicated in first-seen order, no more than the marker
      matches; a reply without markers has no citations. */
  lemma CitationsOfReply(text: string, docs: seq<Doc>)
    ensures var ck := CitedKeys(Citations(text, docs)); var ks := MarkerKeys(text);
      && ck == Dedup(ks)
      && (forall k :: k in ck <==> k in ks)
      && Distinct(ck)
      && FirstSeenOrder(ks, ck)
      && |ck| <= |FindMarkers(text)|
      && (FindMarkers(text) == [] <==> Citations(text, docs) == [])
  {
    CitedKeysDedup(MarkerKeys(text), docs);
    MarkerKeysCount(text);
  }

  /** One key per match. */
  lemma MarkerKeysCount(text: string)
    ensures |MarkerKeys(text)| == |FindMarkers(text)|
  {
  }

  /** A marker key is the stripped name and the integer value of the digits
      of its match. */
  lemma MarkerKeyOfMatch(text: string, j: nat)
    requires j < |FindMarkers(text)|
    ensures var h := FindMarkers(text)[j];
      AllDigits(h.info.digits) && MarkerKeys(text)[j] == Key(Strip(h.info.name), DigitsValue(h.info.digits))
  {
    MarkerDigits(text);
  }

  /** Each citation's snippet is from the first context document naming its
      key, or empty when none does. */
  lemma CitationSnippets(text: string, docs: seq<Doc>, i: nat)
    requires i < |Citations(text, docs)|
    ensures var c := Citations(text, docs)[i]; var k := Key(c.source, c.chunkId);
      && (forall d: nat :: FirstMatch(docs, k, d) ==> c.snippet == Take(docs[d].pageContent, SnippetLength))
      && ((forall d :: 0 <= d < |docs| ==> !DocMatches(docs[d], k)) ==> c.snippet == "")
  {
    var c := Citations(text, docs)[i];
    SnippetSpec(docs, Key(c.source, c.chunkId));
  }

  // ---------------------------------------------------------------------------
  // generate_answer's post-processing
  // ---------------------------------------------------------------------------

  /** The set of cited sources. */
  function Sources(cs: seq<Citation>): set<string> {
    set c | c in cs :: c.source
  }

  /** `generate_answer` after the model has replied `reply` with the context
      `docs`. */
  function GenerateAnswer(reply: string, docs: seq<Doc>): (a: Answer)
    ensures a.answer == [] || (!IsSpace(a.answer[0]) && !IsSpace(a.answer[|a.answer| - 1]))
  {
    var clean := RemoveMarkers(reply);
    StripSpec(clean);
    var cs := Citations(reply, docs);
    Answer(Strip(clean), cs, Sources(cs))
  }

  /** `sources_used` is the set of names, stripped, of the markers in the
      reply; it is empty exactly when there are no citations. */
  lemma SourcesUsed(reply: string, docs: seq<Doc>)
    ensures var a := GenerateAnswer(reply, docs);
      && (forall x :: x in a.sourcesUsed <==> exists i :: 0 <= i < |a.citations| && a.citations[i].source == x)
      && (forall x :: x in a.sourcesUsed <==> exists k :: k in MarkerKeys(reply) && k.source == x)
      && (a.sourcesUsed == {} <==> a.citations == [])
  {
    var a := GenerateAnswer(reply, docs);
    SourcesSpec(a.citations);
    SourcesOfKeys(MarkerKeys(reply), docs);
  }

  /** The sources of the citations for some keys are the sources the keys
      name. */
  lemma SourcesOfKeys(keys: seq<Key>, docs: seq<Doc>)
    ensures forall x :: x in Sources(CitationsOf(keys, docs)) <==> exists k :: k in keys && k.source == x
  {
    var cs := CitationsOf(keys, docs);
    var ck := CitedKeys(cs);
    CitedKeysDedup(keys, docs);
    SourcesSpec(cs);
    forall x | x in Sources(cs)
      ensures exists k :: k in keys && k.source == x
    {
      var i :| 0 <= i < |cs| && cs[i].source == x;
      assert ck[i] in ck;
    }
    forall x | exists k :: k in keys && k.source == x
      ensures x in Sources(cs)
    {
      var k :| k in keys && k.source == x;
      assert k in ck;
      var i :| 0 <= i < |ck| && ck[i] == k;
      assert cs[i].source == x;
    }
  }

  /** A source is used exactly when some citation names it. */
  lemma SourcesSpec(cs: seq<Citation>)
    ensures forall x :: x in Sources(cs) <==> exists i :: 0 <= i < |cs| && cs[i].source == x
    ensures Sources(cs) == {} <==> cs == []
  {
    forall x | x in Sources(cs) ensures exists i :: 0 <= i < |cs| && cs[i].source == x {
      var c :| c in cs && c.source == x;
      var i :| 0 <= i < |cs| && cs[i] == c;
    }
    forall i | 0 <= i < |cs| ensures cs[i].source in Sources(cs) {
      assert cs[i] in cs;
    }
    if cs != [] {
      assert cs[0].source in Sources(cs);
    }
  }

  /** A reply without markers is shown stripped and otherwise as it is, with
      no citations and no sources. */
  lemma NoMarkerAnswer(reply: string, docs: seq<Doc>)
    requires FindMarkers(reply) == []
    ensures GenerateAnswer(reply, docs) == Answer(Strip(reply), [], {})
  {
    NoMarkerNoRemoval(reply);
  }
}
