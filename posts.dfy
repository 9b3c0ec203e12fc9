/** A scraped post as the extraction step builds it. */
module Posts {
  datatype Post = Post(
    id: string,
    content: string,
    date: string,
    author: string,
    selectorUsed: string,
    source: string,
    crawledAt: string)
}
