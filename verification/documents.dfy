/**
 The retrieved document as the pipeline passes it around: the indexed page
 content and the metadata keys the core reads.  Every key may be missing from
 a document's metadata, hence the `Option`s; `has_tables` and `has_images`
 read as `False` when missing.
 */
module Documents {
  import opened Common

  /** What `json.loads(metadata["original_content"])` gives, as far as the
      context formatter reads it: a failure to decode, or the `tables_html`
      list (empty when the key is missing). */
  datatype Original = Undecodable | Decoded(tables: seq<string>)

  datatype Doc = Doc(
    pageContent: string,
    source: Option<string>,
    chunkId: Option<int>,
    hasTables: bool,
    hasImages: bool,
    contentTypes: seq<string>,
    original: Option<Original>)
}
