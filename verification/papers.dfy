/**
 The publication record the component works with (the `Paper` interface of
 frontend/components/scientific-research-platform.tsx).
 */
module Papers {

  /** Citation count, h-index and impact factor of one publication. */
  datatype Indicators = Indicators(citations: nat, hIndex: nat, impactFactor: real)

  /** One publication; `references` hold titles of other publications. */
  datatype Paper = Paper(
    id: string,
    title: string,
    author: string,
    organization: string,
    language: string,
    releaseDate: string,
    publicationType: string,
    bibliometricIndicators: Indicators,
    summary: string,
    conclusions: string,
    keywords: seq<string>,
    fullText: string,
    references: seq<string>)

  /** Some entry of `papers` carries the identifier `id`. */
  predicate HasId(papers: seq<Paper>, id: string)
  {
    exists k :: 0 <= k < |papers| && papers[k].id == id
  }

  /** Some entry of `papers` carries the title `title`. */
  predicate HasTitle(papers: seq<Paper>, title: string)
  {
    exists k :: 0 <= k < |papers| && papers[k].title == title
  }
}
