/**
 * The layout elements the renderer hands to the PDF backend: vertical
 * spacers and paragraphs of reportlab mini-markup. Of a paragraph style only
 * its role is kept; the fonts, sizes and colours belong to the backend.
 */
module Flowables {
  /** The paragraph styles: the custom title, heading and sub-heading styles and the normal body style. */
  datatype Style = Title | Heading | SubHeading | Normal

  /** `Spacer(width, height)` and `Paragraph(text, style)`. */
  datatype Element = Spacer(width: nat, height: nat) | Para(text: string, style: Style)

  /** The bullet that starts a list-item paragraph: U+2022 and a space. */
  const Bullet := "\U{2022} "

  /** The elements `f` gives for each item of `xs`, in order. */
  function FlatMap<T>(f: T -> seq<Element>, xs: seq<T>): seq<Element>
  {
    if xs == [] then [] else FlatMap(f, xs[..|xs| - 1]) + f(xs[|xs| - 1])
  }

  lemma FlatMapStep<T>(f: T -> seq<Element>, xs: seq<T>, i: nat)
    requires i < |xs|
    ensures FlatMap(f, xs[..i + 1]) == FlatMap(f, xs[..i]) + f(xs[i])
  {
    assert xs[..i + 1][..i] == xs[..i];
  }

  lemma {:induction false} FlatMapConcat<T>(f: T -> seq<Element>, a: seq<T>, b: seq<T>)
    ensures FlatMap(f, a + b) == FlatMap(f, a) + FlatMap(f, b)
    decreases |b|
  {
    if b == [] {
      assert a + b == a;
    } else {
      var b' := b[..|b| - 1];
      assert (a + b)[..|a + b| - 1] == a + b';
      assert (a + b)[|a + b| - 1] == b[|b| - 1];
      FlatMapConcat(f, a, b');
    }
  }

  lemma AppendAssoc(a: seq<Element>, b: seq<Element>, c: seq<Element>)
    ensures a + b + c == a + (b + c)
  {
  }
}
