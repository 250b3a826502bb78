/**
 `format_context` of src/app/retrieval/retriever.py: the numbered, labelled
 context blocks handed to the answer model.  Each block's header uses the
 citation marker syntax that the generator later parses.
 */
module Retriever {
  import opened Common
  import opened Text
  import opened Documents

  const NoDocuments: string := "No relevant documents found."
  const TablesHeading: string := "\n\nTABLES:\n"

  /** `metadata.get("source", "unknown")`. */
  function SourceLabel(d: Doc): string {
    d.source.GetOr("unknown")
  }

  /** `metadata.get("chunk_id", "?")`, formatted with `str`. */
  function ChunkLabel(d: Doc): string {
    match d.chunkId
    case Some(c) => IntToDecimal(c)
    case None => "?"
  }

  /** `f"[Source: {source}, Chunk {chunk_id}]"`. */
  function Header(source: string, chunk: string): string {
    "[Source: " + source + ", Chunk " + chunk + "]"
  }

  /** `f"Table {j+1}: {t}"` for the `j`-th table. */
  function TableLine(j: nat, t: string): string {
    "Table " + NatToDecimal(j + 1) + ": " + t
  }

  function TableLines(tables: seq<string>): (r: seq<string>)
    ensures |r| == |tables|
    ensures forall j :: 0 <= j < |r| ==> r[j] == TableLine(j, tables[j])
  {
    seq(|tables|, j requires 0 <= j < |tables| => TableLine(j, tables[j]))
  }

  /** The tables the formatter appends: only looked for when `has_tables`
      is set and `original_content` is present, and lost when it does not
      decode. */
  function TablesOf(d: Doc): seq<string> {
    if d.hasTables then
      match d.original
      case Some(Decoded(ts)) => ts
      case _ => []
    else []
  }

  /** The block's content: the page content, then the tables if there are any. */
  function Content(d: Doc): string {
    var ts := TablesOf(d);
    if |ts| > 0 then d.pageContent + TablesHeading + Join("\n", TableLines(ts))
    else d.pageContent
  }

  /** The first two lines of block `i`. */
  function BlockHead(i: nat, d: Doc): string {
    "--- Document " + NatToDecimal(i) + " ---\n" + Header(SourceLabel(d), ChunkLabel(d)) + "\n"
  }

  /** `f"--- Document {i} ---\n{header}\n{content}"`. */
  function Block(i: nat, d: Doc): string {
    BlockHead(i, d) + Content(d)
  }

  /** One block per document, numbered from 1. */
  function Blocks(docs: seq<Doc>): (r: seq<string>)
    ensures |r| == |docs|
    ensures forall i :: 0 <= i < |r| ==> r[i] == Block(i + 1, docs[i])
  {
    seq(|docs|, i requires 0 <= i < |docs| => Block(i + 1, docs[i]))
  }

  /** `format_context(docs)`. */
  function FormatContext(docs: seq<Doc>): string {
    if |docs| == 0 then NoDocuments else Join("\n\n", Blocks(docs))
  }

  // ---------------------------------------------------------------------------
  // Properties
  // ---------------------------------------------------------------------------

  /** The placeholder is produced exactly for an empty document list. */
  lemma FormatContextEmptyIff(docs: seq<Doc>)
    ensures FormatContext(docs) == NoDocuments <==> |docs| == 0
  {
    if |docs| > 0 {
      var bs := Blocks(docs);
      JoinStartsWithFirst("\n\n", bs);
      assert FormatContext(docs)[0] == bs[0][0] == '-';
    }
  }

  /** A join of parts starts with its first part. */
  lemma JoinStartsWithFirst(sep: string, xs: seq<string>)
    requires |xs| > 0
    ensures StartsWith(Join(sep, xs), xs[0])
  {
    if |xs| > 1 {
      assert Join(sep, xs)[..|xs[0]|] == xs[0];
    }
  }

  /** The context starts with the first document's block. */
  lemma FormatContextStartsWithFirstBlock(docs: seq<Doc>)
    requires |docs| > 0
    ensures StartsWith(FormatContext(docs), Block(1, docs[0]))
  {
    JoinStartsWithFirst("\n\n", Blocks(docs));
  }

  /** Every document's block, with its header and its page content, occurs
      in the context. */
  lemma FormatContextHasEveryBlock(docs: seq<Doc>, i: nat)
    requires i < |docs|
    ensures Contains(FormatContext(docs), Block(i + 1, docs[i]))
    ensures Contains(FormatContext(docs), Header(SourceLabel(docs[i]), ChunkLabel(docs[i])))
    ensures Contains(FormatContext(docs), docs[i].pageContent)
  {
    var ctx := FormatContext(docs);
    var b := Block(i + 1, docs[i]);
    JoinContainsPart("\n\n", Blocks(docs), i);
    HeaderInBlock(i + 1, docs[i]);
    ContainsTrans(ctx, b, Header(SourceLabel(docs[i]), ChunkLabel(docs[i])));
    PageInBlock(i + 1, docs[i]);
    ContainsTrans(ctx, b, docs[i].pageContent);
  }

  lemma HeaderInBlock(i: nat, d: Doc)
    ensures Contains(Block(i, d), Header(SourceLabel(d), ChunkLabel(d)))
  {
    var h := Header(SourceLabel(d), ChunkLabel(d));
    var pre := "--- Document " + NatToDecimal(i) + " ---\n";
    ContainsSelf(h);
    ContainsInfix(pre, h, "\n" + Content(d), h);
    assert Block(i, d) == pre + h + ("\n" + Content(d));
  }

  lemma PageInBlock(i: nat, d: Doc)
    ensures Contains(Block(i, d), d.pageContent)
  {
    ContentStartsWithPage(d);
    PrefixAfterHead(BlockHead(i, d), Content(d), d.pageContent);
  }

  /** A prefix of the text after `head` occurs in the whole. */
  lemma PrefixAfterHead(head: string, c: string, p: string)
    requires StartsWith(c, p)
    ensures Contains(head + c, p)
  {
    assert (head + c)[|head|..|head| + |p|] == p;
    assert OccursAt(head + c, p, |head|);
  }

  /** The content is the page content, possibly extended. */
  lemma ContentStartsWithPage(d: Doc)
    ensures StartsWith(Content(d), d.pageContent)
  {
    assert Content(d)[..|d.pageContent|] == d.pageContent;
  }

  /** The content is just the page content exactly when there are no tables
      to append: `has_tables` unset, `original_content` missing or
      undecodable, or an empty table list. */
  lemma ContentIsPageIff(d: Doc)
    ensures Content(d) == d.pageContent <==> TablesOf(d) == []
  {
    if TablesOf(d) != [] {
      assert |Content(d)| > |d.pageContent|;
    }
  }

  /** With tables, the content ends with the numbered table lines. */
  lemma ContentWithTables(d: Doc)
    requires TablesOf(d) != []
    ensures Content(d) == d.pageContent + TablesHeading + Join("\n", TableLines(TablesOf(d)))
    ensures forall j :: 0 <= j < |TablesOf(d)| ==>
      Contains(Content(d), TableLine(j, TablesOf(d)[j]))
  {
    var ts := TablesOf(d);
    forall j | 0 <= j < |ts| ensures Contains(Content(d), TableLine(j, ts[j])) {
      JoinContainsPart("\n", TableLines(ts), j);
      ContainsInfix(d.pageContent + TablesHeading, Join("\n", TableLines(ts)), [], TableLine(j, ts[j]));
      assert d.pageContent + TablesHeading + Join("\n", TableLines(ts)) + [] == Content(d);
    }
  }

  /** A document with an undecodable `original_content` contributes its page
      content only. */
  lemma UndecodableKeepsPage(d: Doc)
    requires d.original == Some(Undecodable) || !d.hasTables || d.original.None?
    ensures Content(d) == d.pageContent
  {
  }

  /** The labels fall back to `"unknown"` and `"?"`. */
  lemma MissingLabels(d: Doc)
    ensures d.source.None? ==> Header(SourceLabel(d), ChunkLabel(d))[9..16] == "unknown"
    ensures d.chunkId.None? ==> ChunkLabel(d) == "?"
    ensures d.source.Some? ==> SourceLabel(d) == d.source.value
  {
  }

  /** A single document with both labels: one block, numbered 1, whose
      header names the source and the chunk number and whose content is the
      page content. */
  lemma SingleDocExample()
    ensures var d := Doc("TinyLoRA reduces parameters.", Some("TinyLoRA.pdf"), Some(3), false, false, [], None);
      FormatContext([d]) == "--- Document " + "1" + " ---\n" + "[Source: " + "TinyLoRA.pdf" + ", Chunk " + "3" + "]"
        + "\n" + "TinyLoRA reduces parameters."
  {
    var d := Doc("TinyLoRA reduces parameters.", Some("TinyLoRA.pdf"), Some(3), false, false, [], None);
    assert NatToDecimal(1) == "1";
    assert ChunkLabel(d) == "3";
    assert Blocks([d]) == [Block(1, d)];
  }
}
