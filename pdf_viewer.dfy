/**
 * The document viewer's navigation state: the page shown, the page count,
 * the zoom and the rotation. The zoom only ever moves in steps of 0.25 from
 * 1.0 and is clamped to [0.5, 3], so it is kept as a whole number of
 * quarters between 2 and 12; `Scale` gives the value the viewer renders with.
 */
module PdfViewer {
  const InitialQuarters := 4
  const MinQuarters := 2
  const MaxQuarters := 12

  /** The zoom factor a number of quarters stands for. */
  function Scale(quarters: int): real {
    quarters as real / 4.0
  }

  function MinReal(a: real, b: real): real { if a <= b then a else b }
  function MaxReal(a: real, b: real): real { if a >= b then a else b }

  /** `Math.min(scale + 0.25, 3)`, in quarters. */
  function ZoomedIn(quarters: int): (q: int)
    ensures Scale(q) == MinReal(Scale(quarters) + 0.25, 3.0)
  {
    if quarters + 1 <= MaxQuarters then quarters + 1 else MaxQuarters
  }

  /** `Math.max(scale - 0.25, 0.5)`, in quarters. */
  function ZoomedOut(quarters: int): (q: int)
    ensures Scale(q) == MaxReal(Scale(quarters) - 0.25, 0.5)
  {
    if quarters - 1 >= MinQuarters then quarters - 1 else MinQuarters
  }

  /** Zooming in then out returns to the same zoom except at the top of the range. */
  lemma ZoomOutUndoesZoomIn(quarters: int)
    requires MinQuarters <= quarters <= MaxQuarters
    ensures ZoomedOut(ZoomedIn(quarters)) == quarters <==> quarters < MaxQuarters
  {
  }

  /** `(rotation + 90) % 360` */
  function Rotated(rotation: nat): (r: nat)
    ensures r < 360
    ensures rotation % 90 == 0 ==> r % 90 == 0
  {
    (rotation + 90) % 360
  }

  /** Four quarter turns bring any reachable rotation back. */
  lemma FourTurnsRestore(rotation: nat)
    requires rotation < 360
    ensures Rotated(Rotated(Rotated(Rotated(rotation)))) == rotation
  {
  }

  class Viewer {
    var numPages: nat
    var pageNumber: int
    var quarters: int
    var rotation: nat

    /** The page is never below 1, the zoom within [0.5, 3], the rotation a multiple of 90 below 360. */
    predicate Valid()
      reads this
    {
      && 1 <= pageNumber
      && MinQuarters <= quarters <= MaxQuarters
      && rotation < 360 && rotation % 90 == 0
    }

    constructor ()
      ensures Valid()
      ensures numPages == 0 && pageNumber == 1 && Scale(quarters) == 1.0 && rotation == 0
    {
      numPages := 0;
      pageNumber := 1;
      quarters := InitialQuarters;
      rotation := 0;
    }

    /** `onDocumentLoadSuccess`: the page count is replaced and the page is left where it was. */
    method OnDocumentLoadSuccess(pages: nat)
      requires Valid()
      modifies this
      ensures Valid()
      ensures numPages == pages
      ensures pageNumber == old(pageNumber) && quarters == old(quarters) && rotation == old(rotation)
    {
      numPages := pages;
    }

    /** `handlePreviousPage` */
    method PreviousPage()
      requires Valid()
      modifies this
      ensures Valid()
      ensures pageNumber == if old(pageNumber) > 1 then old(pageNumber) - 1 else old(pageNumber)
      ensures numPages == old(numPages) && quarters == old(quarters) && rotation == old(rotation)
    {
      if pageNumber > 1 {
        pageNumber := pageNumber - 1;
      }
    }

    /** `handleNextPage`: does nothing before the document has loaded. */
    method NextPage()
      requires Valid()
      modifies this
      ensures Valid()
      ensures pageNumber == if old(pageNumber) < numPages then old(pageNumber) + 1 else old(pageNumber)
      ensures numPages == 0 ==> pageNumber == old(pageNumber)
      ensures old(pageNumber) <= numPages ==> pageNumber <= numPages
      ensures numPages == old(numPages) && quarters == old(quarters) && rotation == old(rotation)
    {
      if pageNumber < numPages {
        pageNumber := pageNumber + 1;
      }
    }

    /** `handleZoomIn` */
    method ZoomIn()
      requires Valid()
      modifies this
      ensures Valid()
      ensures quarters == ZoomedIn(old(quarters))
      ensures numPages == old(numPages) && pageNumber == old(pageNumber) && rotation == old(rotation)
    {
      quarters := ZoomedIn(quarters);
    }

    /** `handleZoomOut` */
    method ZoomOut()
      requires Valid()
      modifies this
      ensures Valid()
      ensures quarters == ZoomedOut(old(quarters))
      ensures numPages == old(numPages) && pageNumber == old(pageNumber) && rotation == old(rotation)
    {
      quarters := ZoomedOut(quarters);
    }

    /** `handleRotate` */
    method Rotate()
      requires Valid()
      modifies this
      ensures Valid()
      ensures rotation == Rotated(old(rotation))
      ensures numPages == old(numPages) && pageNumber == old(pageNumber) && quarters == old(quarters)
    {
      rotation := Rotated(rotation);
    }
  }
}
