/** The layout declarations the renderer makes, abstracted from Clay's
    element macros: a declaration stream in which boxes open and close
    around text and rows of text, in the order they are declared. */
module Layout {
  import opened Bytes
  import opened Styles

  /** `TextElement`: the bytes of one fragment and the role it is drawn in. */
  datatype TextElement = TextElement(text: seq<Byte>, style: Style)

  /** The containers the renderer opens with `CLAY_AUTO_ID`/`CLAY`. */
  datatype Box =
    | MainBox | HeadingBox | RuleBox | CodeBox | QuoteBox
    | OrderedListBox | UnorderedListBox | ListItemBox | ItemContentBox
    | ImageFrame | PlaceholderBox | ParagraphBox

  datatype Decl =
    | Row(elements: seq<TextElement>)    // `textline_flush`: a left-to-right row, one CLAY_TEXT per element
    | Text(element: TextElement)         // a CLAY_TEXT declared outside the line packer
    | Open(box: Box)
    | Close
    | Picture(image: nat)                // the fixed-size element showing `images[image]`
    | Marker(number: seq<Byte>)          // the blue box holding an item number in bold
}
