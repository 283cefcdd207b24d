/** The record the parser produces for one image of a paragraph. */
module ImageTypes {
  import opened Wrappers

  /** An image link: its target, its span in the document, and the optional
      alt text and title. */
  datatype ImageNode = ImageNode(src: string, from: int, to: int, alt: Option<string>, title: Option<string>)
}
