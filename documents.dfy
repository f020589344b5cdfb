/** Documents and the metadata fields the pipeline reads and writes. */
module Documents {
  import opened Wrappers

  /**
   * The metadata dictionary of a document, reduced to the three keys the
   * pipeline uses; an absent key is `None`. `page` is the loader's 0-based
   * page index.
   */
  datatype Metadata = Metadata(source: Option<string>, path: Option<string>, page: Option<nat>)

  /** A loaded document or a chunk of one: its text (`page_content`) and metadata. */
  datatype Doc = Doc(content: string, meta: Metadata)
}
