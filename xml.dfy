/**
  The parts of the service's XML reply the cog reads, taken as already parsed:
  the texts of `plaintext` elements in document order (`None` for an element
  without text), and `pod` elements with their `title` attribute.
 */
module Xml {
  import opened Wrappers

  /** A `pod` element: its required `title` attribute and the texts of its `plaintext` descendants. */
  datatype Pod = Pod(title: string, texts: seq<Option<string>>)

  /** Python truthiness of an element's `.text`: present and non-empty. */
  predicate Present(t: Option<string>)
  {
    t.Some? && |t.value| > 0
  }
}
