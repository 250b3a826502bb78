/**
 src/app/ingestion/chunker.py: classifying a chunk's elements and turning
 chunks into indexed documents.  An element is classified by its class
 name: a `Table` with its optional HTML, an `Image` with its optional base64
 payload, or any other element with its string form.  The summariser is an
 input returning the summary, or `None` when it raised.
 */
module Chunker {
  import opened Common
  import opened Text
  import opened Seqs
  import opened Documents

  /** An element of a chunk, as `separate_content_types` tells them apart. */
  datatype Element = Table(html: Option<string>) | Image(payload: Option<string>) | Other(text: string)

  /** What `separate_content_types` returns. */
  datatype Separated = Separated(text: string, tablesHtml: seq<string>, images: seq<string>, types: seq<string>)

  /** The three content types, in sorted order. */
  const KindNames: seq<string> := ["image", "table", "text"]

  /** Python truthiness of an optional string: present and non-empty. */
  predicate Truthy(o: Option<string>) {
    o.Some? && o.value != ""
  }

  /** The content type an element adds. */
  function KindOf(e: Element): string {
    match e
    case Table(_) => "table"
    case Image(_) => "image"
    case Other(_) => "text"
  }

  predicate IsText(e: Element) {
    e.Other?
  }

  /** A table whose HTML is kept. */
  predicate HasHtml(e: Element) {
    e.Table? && Truthy(e.html)
  }

  /** An image whose payload is kept. */
  predicate HasPayload(e: Element) {
    e.Image? && Truthy(e.payload)
  }

  function TextOf(e: Element): string {
    match e
    case Other(t) => t
    case _ => ""
  }

  function HtmlOf(e: Element): string {
    match e
    case Table(Some(h)) => h
    case _ => ""
  }

  function PayloadOf(e: Element): string {
    match e
    case Image(Some(p)) => p
    case _ => ""
  }

  /** The set `content_types`. */
  function Kinds(es: seq<Element>): set<string> {
    set i | 0 <= i < |es| :: KindOf(es[i])
  }

  /** Python's lexicographic string order. */
  predicate LexLess(a: string, b: string)
    decreases |a|
  {
    if |a| == 0 then |b| > 0
    else if |b| == 0 then false
    else a[0] < b[0] || (a[0] == b[0] && LexLess(a[1..], b[1..]))
  }

  predicate Sorted(xs: seq<string>) {
    forall i, j :: 0 <= i < j < |xs| ==> LexLess(xs[i], xs[j])
  }

  /** `sorted(content_types)` for a set of content types. */
  function SortKinds(kinds: set<string>): (r: seq<string>)
    ensures forall k :: k in r <==> k in kinds && k in KindNames
    ensures Sorted(r)
    ensures r == (if "image" in kinds then ["image"] else []) + (if "table" in kinds then ["table"] else [])
                 + (if "text" in kinds then ["text"] else [])
  {
    FilterElems(KindNames, k => k in kinds);
    FilterThree("image", "table", "text", k => k in kinds);
    KindNamesSorted();
    FilterSorted(KindNames, k => k in kinds);
    Filter(KindNames, k => k in kinds)
  }

  /** Filtering three elements keeps those that pass, in order. */
  lemma FilterThree(a: string, b: string, c: string, p: string -> bool)
    ensures Filter([a, b, c], p) == (if p(a) then [a] else []) + (if p(b) then [b] else []) + (if p(c) then [c] else [])
  {
    assert [a][..0] == [];
    assert Filter([a], p) == (if p(a) then [a] else []);
    assert [a, b][..1] == [a];
    assert Filter([a, b], p) == Filter([a], p) + (if p(b) then [b] else []);
    assert [a, b, c][..2] == [a, b];
    assert Filter([a, b, c], p) == Filter([a, b], p) + (if p(c) then [c] else []);
  }

  /** The declarative `separate_content_types`: the string forms of the
      other elements joined by line feeds, the kept table HTML and image
      payloads in order, and the sorted content types. */
  function Separate(es: seq<Element>): Separated {
    Separated(
      Join("\n", Map(Filter(es, IsText), TextOf)),
      Map(Filter(es, HasHtml), HtmlOf),
      Map(Filter(es, HasPayload), PayloadOf),
      SortKinds(Kinds(es)))
  }

  /** The loop of `separate_content_types`. */
  method SeparateContentTypes(es: seq<Element>) returns (c: Separated)
    ensures c == Separate(es)
  {
    var parts: seq<string> := [];
    var tables: seq<string> := [];
    var images: seq<string> := [];
    var kinds: set<string> := {};
    for i := 0 to |es|
      invariant parts == Map(Filter(es[..i], IsText), TextOf)
      invariant tables == Map(Filter(es[..i], HasHtml), HtmlOf)
      invariant images == Map(Filter(es[..i], HasPayload), PayloadOf)
      invariant kinds == Kinds(es[..i])
    {
      SeparateStep(es, i);
      match es[i]
      case Table(html) =>
        kinds := kinds + {"table"};
        if html.Some? && html.value != "" {
          tables := tables + [html.value];
        }
      case Image(payload) =>
        kinds := kinds + {"image"};
        if payload.Some? && payload.value != "" {
          images := images + [payload.value];
        }
      case Other(t) =>
        kinds := kinds + {"text"};
        parts := parts + [t];
    }
    assert es[..|es|] == es;
    c := Separated(Join("\n", parts), tables, images, SortKinds(kinds));
  }

  /** One more element extends each list by at most that element's part. */
  lemma SeparateStep(es: seq<Element>, i: nat)
    requires i < |es|
    ensures var e := es[i];
      && Map(Filter(es[..i + 1], IsText), TextOf)
           == Map(Filter(es[..i], IsText), TextOf) + (if IsText(e) then [TextOf(e)] else [])
      && Map(Filter(es[..i + 1], HasHtml), HtmlOf)
           == Map(Filter(es[..i], HasHtml), HtmlOf) + (if HasHtml(e) then [HtmlOf(e)] else [])
      && Map(Filter(es[..i + 1], HasPayload), PayloadOf)
           == Map(Filter(es[..i], HasPayload), PayloadOf) + (if HasPayload(e) then [PayloadOf(e)] else [])
      && Kinds(es[..i + 1]) == Kinds(es[..i]) + {KindOf(e)}
  {
    var e := es[i];
    assert es[..i + 1][..i] == es[..i];
    MapSnoc(Filter(es[..i], IsText), e, TextOf, IsText(e));
    MapSnoc(Filter(es[..i], HasHtml), e, HtmlOf, HasHtml(e));
    MapSnoc(Filter(es[..i], HasPayload), e, PayloadOf, HasPayload(e));
    var a := es[..i];
    var b := es[..i + 1];
    forall k ensures k in Kinds(b) <==> k in Kinds(a) || k == KindOf(e) {
      if k in Kinds(b) {
        var j :| 0 <= j < |b| && KindOf(b[j]) == k;
        if j < i { assert a[j] == b[j]; }
      }
      if k in Kinds(a) {
        var j :| 0 <= j < |a| && KindOf(a[j]) == k;
        assert b[j] == a[j];
      }
      if k == KindOf(e) {
        assert b[i] == e;
      }
    }
  }

  lemma MapSnoc(xs: seq<Element>, e: Element, f: Element -> string, keep: bool)
    ensures Map(xs + (if keep then [e] else []), f) == Map(xs, f) + (if keep then [f(e)] else [])
  {
    if !keep {
      assert xs + [] == xs;
    }
  }

  // ---------------------------------------------------------------------------
  // What the classification means
  // ---------------------------------------------------------------------------

  /** Some element of the chunk is of the given kind. */
  predicate HasKind(es: seq<Element>, k: string) {
    exists i :: 0 <= i < |es| && KindOf(es[i]) == k
  }

  /** The content types are sorted without repeats, are among the three
      names, and name exactly the kinds of element present: `"table"` for
      some `Table`, `"image"` for some `Image`, `"text"` for any other. */
  lemma TypesSpec(es: seq<Element>)
    ensures var types := Separate(es).types;
      && Sorted(types)
      && (forall k :: k in types ==> k in KindNames)
      && ("table" in types <==> exists i :: 0 <= i < |es| && es[i].Table?)
      && ("image" in types <==> exists i :: 0 <= i < |es| && es[i].Image?)
      && ("text" in types <==> exists i :: 0 <= i < |es| && es[i].Other?)
  {
    forall k | k in KindNames ensures k in Kinds(es) <==> HasKind(es, k) {
      if HasKind(es, k) {
        var i :| 0 <= i < |es| && KindOf(es[i]) == k;
        assert k in Kinds(es);
      }
    }
    forall i | 0 <= i < |es| ensures es[i].Table? <==> KindOf(es[i]) == "table" {
      assert "text" != "table" && "image" != "table";
    }
    forall i | 0 <= i < |es| ensures es[i].Image? <==> KindOf(es[i]) == "image" {
      assert "text" != "image" && "table" != "image";
    }
    forall i | 0 <= i < |es| ensures es[i].Other? <==> KindOf(es[i]) == "text" {
      assert "image" != "text" && "table" != "text";
    }
  }

  lemma KindNamesSorted()
    ensures Sorted(KindNames)
  {
    assert LexLess("able", "ext");
    assert LexLess("table", "text");
    assert LexLess("image", "table");
    assert LexLess("image", "text");
  }

  /** Dropping elements from a sorted sequence keeps it sorted. */
  lemma {:induction false} FilterSorted(xs: seq<string>, p: string -> bool)
    requires Sorted(xs)
    ensures Sorted(Filter(xs, p))
    decreases |xs|
  {
    if |xs| > 0 {
      var init := xs[..|xs| - 1];
      var x := xs[|xs| - 1];
      assert Sorted(init) by {
        forall i, j | 0 <= i < j < |init| ensures LexLess(init[i], init[j]) {
          assert init[i] == xs[i] && init[j] == xs[j];
        }
      }
      FilterSorted(init, p);
      FilterElems(init, p);
      if p(x) {
        var r := Filter(init, p) + [x];
        forall i, j | 0 <= i < j < |r| ensures LexLess(r[i], r[j]) {
          if j == |r| - 1 {
            assert r[i] in Filter(init, p);
            var k :| 0 <= k < |init| && init[k] == r[i];
            assert xs[k] == init[k];
          }
        }
      }
    }
  }

  /** The kept table HTML is exactly the non-empty HTML of the tables, one
      entry per such table; likewise the image payloads. */
  lemma PartsSpec(es: seq<Element>)
    ensures var c := Separate(es);
      && (forall h :: h in c.tablesHtml <==> h != "" && exists i :: 0 <= i < |es| && es[i] == Table(Some(h)))
      && |c.tablesHtml| == |Passing(es, HasHtml)|
      && (forall p :: p in c.images <==> p != "" && exists i :: 0 <= i < |es| && es[i] == Image(Some(p)))
      && |c.images| == |Passing(es, HasPayload)|
  {
    var tables := Filter(es, HasHtml);
    var images := Filter(es, HasPayload);
    FilterElems(es, HasHtml);
    FilterElems(es, HasPayload);
    FilterCount(es, HasHtml);
    FilterCount(es, HasPayload);
    forall h ensures h in Map(tables, HtmlOf) <==> h != "" && exists i :: 0 <= i < |es| && es[i] == Table(Some(h)) {
      if h in Map(tables, HtmlOf) {
        var j :| 0 <= j < |tables| && HtmlOf(tables[j]) == h;
        assert tables[j] in es;
      }
      if h != "" && exists i :: 0 <= i < |es| && es[i] == Table(Some(h)) {
        var i :| 0 <= i < |es| && es[i] == Table(Some(h));
        assert es[i] in tables;
        var j :| 0 <= j < |tables| && tables[j] == es[i];
        assert Map(tables, HtmlOf)[j] == h;
      }
    }
    forall p ensures p in Map(images, PayloadOf) <==> p != "" && exists i :: 0 <= i < |es| && es[i] == Image(Some(p)) {
      if p in Map(images, PayloadOf) {
        var j :| 0 <= j < |images| && PayloadOf(images[j]) == p;
        assert images[j] in es;
      }
      if p != "" && exists i :: 0 <= i < |es| && es[i] == Image(Some(p)) {
        var i :| 0 <= i < |es| && es[i] == Image(Some(p));
        assert es[i] in images;
        var j :| 0 <= j < |images| && images[j] == es[i];
        assert Map(images, PayloadOf)[j] == p;
      }
    }
  }

  /** A table without HTML still records the `"table"` type, and adds no
      HTML. */
  lemma TableWithoutHtml()
    ensures Separate([Table(None)]) == Separated("", [], [], ["table"])
  {
    var es := [Table(None)];
    assert es[..0] == [];
    assert Map(Filter(es, IsText), TextOf) == [];
    assert Map(Filter(es, HasHtml), HtmlOf) == [];
    assert Map(Filter(es, HasPayload), PayloadOf) == [];
    assert Kinds(es) == {"table"};
    SortTableOnly();
  }

  lemma SortTableOnly()
    ensures SortKinds({"table"}) == ["table"]
  {
    assert "image" != "table" && "text" != "table";
  }

  // ---------------------------------------------------------------------------
  // process_chunks
  // ---------------------------------------------------------------------------

  /** `create_ai_summary` on the text, tables and images: the summary, or
      `None` when it raised. */
  type Summariser = (string, seq<string>, seq<string>) -> Option<string>

  /** Some table keeps its HTML or some image its payload. */
  predicate KeepsMedia(es: seq<Element>) {
    exists i :: 0 <= i < |es| && (HasHtml(es[i]) || HasPayload(es[i]))
  }

  /** A filter keeps something exactly when some element passes. */
  lemma FilterNonEmpty(es: seq<Element>, p: Element -> bool)
    ensures |Filter(es, p)| > 0 <==> exists i :: 0 <= i < |es| && p(es[i])
  {
    FilterElems(es, p);
    if |Filter(es, p)| > 0 {
      assert Filter(es, p)[0] in Filter(es, p);
    }
    if exists i :: 0 <= i < |es| && p(es[i]) {
      var i :| 0 <= i < |es| && p(es[i]);
      assert es[i] in es;
    }
  }

  /** A chunk keeps a table's HTML or an image's payload exactly when the
      separated parts are multimodal. */
  lemma KeepsMediaIff(es: seq<Element>)
    ensures KeepsMedia(es) <==> Multimodal(Separate(es))
  {
    FilterNonEmpty(es, HasHtml);
    FilterNonEmpty(es, HasPayload);
  }

  /** The summariser is asked for a summary exactly when some table HTML or
      image payload was kept (not when `types` names them). */
  predicate Multimodal(c: Separated) {
    |c.tablesHtml| > 0 || |c.images| > 0
  }

  /** The indexed text of a chunk: the summary for a multimodal chunk, the
      raw text when it is text-only, when the summariser raised or when the
      summary is empty. */
  function PageContent(c: Separated, summarise: Summariser): (p: string)
    ensures !Multimodal(c) ==> p == c.text
    ensures p == "" ==> c.text == ""
    ensures p != c.text ==> Multimodal(c) && summarise(c.text, c.tablesHtml, c.images) == Some(p)
    ensures Multimodal(c) && summarise(c.text, c.tablesHtml, c.images).Some?
            && summarise(c.text, c.tablesHtml, c.images).value != "" ==>
              p == summarise(c.text, c.tablesHtml, c.images).value
  {
    var page := if Multimodal(c) then summarise(c.text, c.tablesHtml, c.images).GetOr(c.text) else c.text;
    if page != "" then page else c.text
  }

  /** The document for the chunk at position `i`.  Its `original_content`
      is the JSON of the separated parts, which the context formatter reads
      back as the table HTML. */
  function ChunkDoc(i: nat, es: seq<Element>, source: string, summarise: Summariser): (d: Doc)
    ensures d.chunkId == Some(i + 1) && d.source == Some(source)
    ensures d.hasTables <==> |Separate(es).tablesHtml| > 0
    ensures d.hasImages <==> |Separate(es).images| > 0
    ensures d.contentTypes == Separate(es).types
  {
    var c := Separate(es);
    Doc(PageContent(c, summarise), Some(source), Some(i + 1), |c.tablesHtml| > 0, |c.images| > 0,
        c.types, Some(Decoded(c.tablesHtml)))
  }

  /** `ChunkDoc` as the loop body sees it: position and chunk. */
  function DocOf(source: string, summarise: Summariser): (nat, seq<Element>) -> Doc {
    (i: nat, es: seq<Element>) => ChunkDoc(i, es, source, summarise)
  }

  /** The result of `process_chunks` and the chunk ids for which the
      summariser was called, in order. */
  datatype Processed = Processed(docs: seq<Doc>, summarised: seq<nat>)

  /** The loop of `process_chunks`. */
  method ProcessChunks(chunks: seq<seq<Element>>, source: string, summarise: Summariser) returns (r: Processed)
    ensures |r.docs| == |chunks|
    ensures forall i :: 0 <= i < |chunks| ==> r.docs[i] == ChunkDoc(i, chunks[i], source, summarise)
    ensures forall i :: 0 <= i < |chunks| ==>
      r.docs[i].chunkId == Some(i + 1) && r.docs[i].source == Some(source)
      && r.docs[i].pageContent == PageContent(Separate(chunks[i]), summarise)
    ensures forall id :: id in r.summarised ==> 1 <= id <= |chunks|
    ensures forall k :: 0 <= k < |chunks| ==> (k + 1 in r.summarised <==> KeepsMedia(chunks[k]))
    ensures Increasing(r.summarised)
  {
    var docs, calls := MapSelect(chunks, DocOf(source, summarise), KeepsMedia);
    DocsAreChunkDocs(docs, chunks, source, summarise);
    DocsSpec(docs, chunks, source, summarise);
    SummarisedSpec(chunks, calls);
    r := Processed(docs, calls);
  }

  /** One pass of the loop of `process_chunks`: the chunk's document, and
      whether the summariser is asked for it. */
  method ProcessChunk(i: nat, es: seq<Element>, source: string, summarise: Summariser) returns (d: Doc, multimodal: bool)
    ensures d == ChunkDoc(i, es, source, summarise)
    ensures multimodal <==> KeepsMedia(es)
  {
    var c := SeparateContentTypes(es);
    multimodal := |c.tablesHtml| > 0 || |c.images| > 0;
    KeepsMediaIff(es);
    d := ChunkDoc(i, es, source, summarise);
  }

  /** The ids of the multimodal chunks, in increasing order. */
  lemma SummarisedSpec(chunks: seq<seq<Element>>, calls: seq<nat>)
    requires calls == IdsWhere(chunks, |chunks|, KeepsMedia)
    ensures forall id :: id in calls ==> 1 <= id <= |chunks|
    ensures forall k :: 0 <= k < |chunks| ==> (k + 1 in calls <==> KeepsMedia(chunks[k]))
    ensures Increasing(calls)
  {
    IdsWhereSpec(chunks, |chunks|, KeepsMedia);
  }

  /** The documents built one per chunk are the chunks' documents. */
  lemma DocsAreChunkDocs(docs: seq<Doc>, chunks: seq<seq<Element>>, source: string, summarise: Summariser)
    requires docs == MapIndexed(chunks, |chunks|, DocOf(source, summarise))
    ensures |docs| == |chunks|
    ensures forall i :: 0 <= i < |chunks| ==> docs[i] == ChunkDoc(i, chunks[i], source, summarise)
  {
    MapIndexedSpec(chunks, |chunks|, DocOf(source, summarise));
  }

  /** The chunks' documents carry the chunk's id, the source and the page
      content. */
  lemma DocsSpec(docs: seq<Doc>, chunks: seq<seq<Element>>, source: string, summarise: Summariser)
    requires |docs| == |chunks|
    requires forall i :: 0 <= i < |chunks| ==> docs[i] == ChunkDoc(i, chunks[i], source, summarise)
    ensures forall i :: 0 <= i < |chunks| ==>
      docs[i].chunkId == Some(i + 1) && docs[i].source == Some(source)
      && docs[i].pageContent == PageContent(Separate(chunks[i]), summarise)
  {
    forall i | 0 <= i < |chunks|
      ensures docs[i].chunkId == Some(i + 1) && docs[i].source == Some(source)
      ensures docs[i].pageContent == PageContent(Separate(chunks[i]), summarise)
    {
      DocFields(i, chunks[i], source, summarise);
    }
  }

  /** The document of the chunk at position `i` carries the id `i + 1`, the
      source and the page content of its chunk. */
  lemma DocFields(i: nat, es: seq<Element>, source: string, summarise: Summariser)
    ensures var d := ChunkDoc(i, es, source, summarise);
      d.chunkId == Some(i + 1) && d.source == Some(source) && d.pageContent == PageContent(Separate(es), summarise)
  {
  }

  // ---------------------------------------------------------------------------
  // Properties
  // ---------------------------------------------------------------------------

  /** A text-only chunk never consults the summariser: any two summarisers
      give the same document, whose content is the raw text. */
  lemma TextOnlyIgnoresSummariser(i: nat, es: seq<Element>, source: string, f: Summariser, g: Summariser)
    requires !Multimodal(Separate(es))
    ensures ChunkDoc(i, es, source, f) == ChunkDoc(i, es, source, g)
    ensures ChunkDoc(i, es, source, f).pageContent == Separate(es).text
  {
  }

  /** A failed or empty summary falls back to the raw text. */
  lemma SummaryFallback(c: Separated, summarise: Summariser)
    requires Multimodal(c)
    requires summarise(c.text, c.tablesHtml, c.images) in {None, Some("")}
    ensures PageContent(c, summarise) == c.text
  {
  }

  /** The tables the context formatter finds in a chunk's document are the
      HTML the chunker kept. */
  lemma ChunkTablesReachContext(i: nat, es: seq<Element>, source: string, summarise: Summariser)
    ensures var d := ChunkDoc(i, es, source, summarise);
      (d.hasTables ==> d.original == Some(Decoded(Separate(es).tablesHtml)))
      && (!d.hasTables ==> Separate(es).tablesHtml == [])
  {
  }
}
