/** The nine images a filter run fills (the `ImageIdx` slots of the source's
    image array), as named fields. */
module FilterStages {
  import opened Pixels

  datatype Stages = Stages(
    edge: Image, red: Image, green: Image, leaf: Image, earth: Image,
    blur: Image, pass: Image, hInterpolate: Image, plantTip: Image)
  {
    /** The five images the segmentation writes have `src`'s dimensions and
        are, with `src`, six different buffers. */
    predicate SegmentReady(src: Image)
    {
      SameShape(edge, src) && SameShape(red, src) && SameShape(green, src) &&
      SameShape(leaf, src) && SameShape(earth, src) &&
      src != edge && src != red && src != green && src != leaf && src != earth &&
      edge != red && edge != green && edge != leaf && edge != earth &&
      red != green && red != leaf && red != earth &&
      green != leaf && green != earth && leaf != earth
    }

    /** Each stage image has `src`'s dimensions, and the ten images are ten
        different buffers. */
    predicate Valid(src: Image)
    {
      SegmentReady(src) &&
      SameShape(blur, src) && SameShape(pass, src) && SameShape(hInterpolate, src) && SameShape(plantTip, src) &&
      src != blur && src != pass && src != hInterpolate && src != plantTip &&
      edge != blur && edge != pass && edge != hInterpolate && edge != plantTip &&
      red != blur && red != pass && red != hInterpolate && red != plantTip &&
      green != blur && green != pass && green != hInterpolate && green != plantTip &&
      leaf != blur && leaf != pass && leaf != hInterpolate && leaf != plantTip &&
      earth != blur && earth != pass && earth != hInterpolate && earth != plantTip &&
      blur != pass && blur != hInterpolate && blur != plantTip &&
      pass != hInterpolate && pass != plantTip &&
      hInterpolate != plantTip
    }
  }

  predicate SameShape(a: Image, b: Image)
  {
    a.Length0 == b.Length0 && a.Length1 == b.Length1
  }
}
