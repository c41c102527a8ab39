/** One record of the page table, as both the enrichment run and the repair
    pass read and write it. */
module Rows {

  /** A page record. `processed` is the column the enrichment run tests with
      `!= True`; a missing value reads as `false`. */
  datatype Row = Row(
    id: string,
    url: string,
    title: string,
    seoTitle: string,
    metaDescription: string,
    processed: bool)

  /** The three generated cells a run writes back for one row. */
  datatype Fields = Fields(title: string, metaDescription: string, seoTitle: string)

  /** `df.at[index, 'title' | 'meta_description' | 'seo_title'] = ...`:
      the three generated cells are overwritten, every other cell is kept. */
  function WithFields(row: Row, f: Fields): Row
  {
    row.(title := f.title, metaDescription := f.metaDescription, seoTitle := f.seoTitle)
  }
}
