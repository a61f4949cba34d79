/** Message elements as the plugin reads them: the element type and the
    attributes it uses (`filename`, `file_unique` and `src` of images,
    `content` of text). */
module Messages {
  import opened Seqs

  datatype Element = Element(kind: string, filename: string, fileUnique: string, src: string, content: string)

  /** `element.type === "image" || element.type === "img"` */
  predicate IsImage(e: Element) { e.kind == "image" || e.kind == "img" }

  /** `session.elements.filter(...)`: the images of a message, in order. */
  function ImagesOf(elements: seq<Element>): (images: seq<Element>)
    ensures forall e :: e in images <==> e in elements && IsImage(e)
    ensures images == [] <==> forall e :: e in elements ==> !IsImage(e)
  {
    var images := Filter(elements, IsImage);
    assert images != [] ==> images[0] in images;
    images
  }

  /** The images keep the order in which the message carries them: an element
      sent after the others lands after their images, if it is one. */
  lemma ImagesOfAppend(elements: seq<Element>, e: Element)
    ensures ImagesOf(elements + [e]) == ImagesOf(elements) + (if IsImage(e) then [e] else [])
  {
    FilterAppend(elements, [e], IsImage);
    assert [e][1..] == [];
  }
}
