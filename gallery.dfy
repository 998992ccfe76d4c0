// `Gallery` in app/page.tsx: the current page of the ordered images and the
// lightbox modal (open flag, index within the page, element to refocus).
module Gallery {
  import opened Common
  import opened Text
  import Ordering
  import opened Pagination

  /** A DOM element handle (`document.activeElement`); only its identity matters here. */
  type Element = nat

  /**
   * `go(dir)`: `(i + dir + len) % len`, one step forward or back within a
   * page of `len` images, wrapping at both ends.
   */
  function Stepped(i: nat, dir: int, len: nat): (r: nat)
    requires dir == 1 || dir == -1
    requires i < len
    ensures r < len
    ensures dir == 1 ==> r == if i == len - 1 then 0 else i + 1
    ensures dir == -1 ==> r == if i == 0 then len - 1 else i - 1
  {
    (i + dir + len) % len
  }

  /** A step forward undone by a step back, and the other way round. */
  lemma SteppedInverse(i: nat, len: nat)
    requires i < len
    ensures Stepped(Stepped(i, 1, len), -1, len) == i
    ensures Stepped(Stepped(i, -1, len), 1, len) == i
  {
  }

  /** From index 2, ArrowLeft twice reaches 0 and a third press wraps to the last image. */
  lemma ArrowLeftFromTwo(len: nat)
    requires len > 2
    ensures Stepped(Stepped(2, -1, len), -1, len) == 0
    ensures Stepped(Stepped(Stepped(2, -1, len), -1, len), -1, len) == len - 1
  {
  }

  /** The "previous" button's target: `Math.max(0, page - 1)`. */
  function PrevTarget(page: int): (r: int)
    ensures r >= 0
    ensures page >= 1 ==> r == page - 1
  {
    Max(0, page - 1)
  }

  /** The "next" button's target: `Math.min(pageCount - 1, page + 1)`. */
  function NextTarget(page: int, pageCount: nat): (r: int)
    ensures r <= pageCount - 1
    ensures page < pageCount - 1 ==> r == page + 1
  {
    Min(pageCount - 1, page + 1)
  }

  /** Both navigation buttons pass a page in `[0, pageCount)` when the current page is in range. */
  lemma TargetsInRange(page: int, pageCount: nat)
    requires 0 <= page < pageCount
    ensures 0 <= PrevTarget(page) < pageCount && 0 <= NextTarget(page, pageCount) < pageCount
    ensures PrevTarget(page) == if page == 0 then 0 else page - 1
    ensures NextTarget(page, pageCount) == if page == pageCount - 1 then page else page + 1
  {
  }

  /** The empty placeholder cells drawn after a page's images: `Math.max(0, pageSize - length)`. */
  function Placeholders(len: nat): (r: nat)
    ensures len <= PageSize ==> len + r == PageSize
    ensures len >= PageSize ==> r == 0
  {
    Max(0, PageSize - len) as nat
  }

  /** Every page fills the 5 x 2 grid exactly: its images plus the placeholders make `pageSize` cells. */
  lemma GridFilled(ordered: seq<string>, p: nat)
    requires p < |Pages(ordered, PageSize)|
    ensures |Pages(ordered, PageSize)[p]| + Placeholders(|Pages(ordered, PageSize)[p]|) == PageSize
  {
    PagesSpec(ordered, PageSize);
  }

  /** The 1-based number in an image's label: `i + 1 + page * pageSize`. */
  function Label(i: nat, page: nat): nat {
    i + 1 + page * PageSize
  }

  /** The label of image `i` of page `p` is that image's 1-based position in the ordered list. */
  lemma LabelIsPosition(ordered: seq<string>, p: nat, i: nat)
    requires p < |Pages(ordered, PageSize)| && i < |Pages(ordered, PageSize)[p]|
    ensures 1 <= Label(i, p) <= |ordered|
    ensures ordered[Label(i, p) - 1] == Pages(ordered, PageSize)[p][i]
  {
    PageAt(ordered, PageSize, p, i);
  }

  /**
   * The position indicator under the enlarged image:
   * `String(focusIdx + 1).padStart(2, "0") / String(length).padStart(2, "0") (페이지 page + 1)`.
   */
  function Indicator(focusIdx: nat, len: nat, page: nat): string {
    PadStart(Decimal(focusIdx + 1), 2, '0') + " / " + PadStart(Decimal(len), 2, '0')
      + " (페이지 " + Decimal(page + 1) + ")"
  }

  /** Below 100 images the indicator opens with the two-digit 1-based position, which reads back as it. */
  lemma IndicatorPosition(focusIdx: nat, len: nat, page: nat)
    requires focusIdx + 1 < 100
    ensures |Indicator(focusIdx, len, page)| > 2
    ensures AllDigits(Indicator(focusIdx, len, page)[..2])
    ensures DecimalValue(Indicator(focusIdx, len, page)[..2]) == focusIdx + 1
  {
    var pos := PadStart(Decimal(focusIdx + 1), 2, '0');
    PaddedReadsBack(focusIdx + 1);
    assert Indicator(focusIdx, len, page)[..2] == pos;
  }

  /** The gallery's state. */
  class GalleryView {
    const ordered: seq<string>
    const pages: seq<seq<string>>
    var page: int
    var open: bool
    var focusIdx: int
    var lastFocused: Option<Element>

    /** `pages[page] ?? []`: the current page, or nothing when `page` is out of range. */
    function PageImages(): seq<string>
      reads this
    {
      if 0 <= page < |pages| then pages[page] else []
    }

    /** `pageImages.length || 1`: the modulus `go` wraps by. */
    function Len(): nat
      reads this
    {
      if |PageImages()| == 0 then 1 else |PageImages()|
    }

    /**
     * The pages are those of the ordered list, the lightbox index lies within
     * the modulus `go` uses, and the modal is open only over a non-empty page.
     */
    predicate Valid()
      reads this
    {
      pages == Pages(ordered, PageSize) &&
      0 <= focusIdx < Len() &&
      (open ==> |PageImages()| > 0)
    }

    /** The current page is one of the pages. */
    predicate PageInRange()
      reads this
    {
      0 <= page < |pages|
    }

    /** `open && pageImages.length > 0`: whether the modal is rendered. */
    predicate ModalShown()
      reads this
    {
      open && |PageImages()| > 0
    }

    /** The enlarged image, `pageImages[focusIdx]`: always an image of the current page. */
    function ShownImage(): (src: string)
      reads this
      requires Valid() && ModalShown()
      ensures src in PageImages()
    {
      PageImages()[focusIdx]
    }

    /** Mount: sort a copy of the images, split it into pages, first page, modal closed. */
    constructor (images: seq<string>)
      ensures ordered == Ordering.Ordered(images) && pages == Pages(ordered, PageSize)
      ensures page == 0 && !open && focusIdx == 0 && lastFocused == None
      ensures Valid() && PageInRange()
    {
      var sorted := Ordering.Ordered(images);
      var split := Paginate(sorted, PageSize);
      ordered := sorted;
      pages := split;
      page := 0;
      open := false;
      focusIdx := 0;
      lastFocused := None;
    }

    /** `openModal(i)` from a click on image `i` of the page: remember the focused element and open. */
    method OpenModal(i: nat, active: Element)
      requires Valid() && i < |PageImages()|
      modifies this
      ensures Valid() && ModalShown()
      ensures focusIdx == i && open && lastFocused == Some(active) && page == old(page)
    {
      focusIdx := i;
      open := true;
      lastFocused := Some(active);
    }

    /** `closeModal`: close, and hand back the element recorded at open time to refocus. */
    method CloseModal() returns (refocus: Option<Element>)
      requires Valid()
      modifies this
      ensures Valid() && !open && !ModalShown()
      ensures refocus == lastFocused
      ensures page == old(page) && focusIdx == old(focusIdx) && lastFocused == old(lastFocused)
    {
      open := false;
      refocus := lastFocused;
    }

    /** `go(dir)`: step the enlarged image within the page, wrapping at both ends. */
    method Go(dir: int)
      requires Valid() && (dir == 1 || dir == -1)
      modifies this
      ensures Valid()
      ensures focusIdx == Stepped(old(focusIdx), dir, old(Len()))
      ensures page == old(page) && open == old(open) && lastFocused == old(lastFocused)
    {
      focusIdx := Stepped(focusIdx, dir, Len());
    }

    /**
     * The modal's `keydown` listener, registered only while it is open:
     * Escape closes (returning the element to refocus), the arrows step.
     */
    method OnModalKey(key: string) returns (refocus: Option<Element>)
      requires Valid()
      modifies this
      ensures Valid()
      ensures !old(open) ==> unchanged(this) && refocus == None
      ensures old(open) && key == "Escape" ==>
        !open && refocus == lastFocused && focusIdx == old(focusIdx) && page == old(page)
      ensures old(open) && key == "ArrowRight" ==>
        open && focusIdx == Stepped(old(focusIdx), 1, old(Len())) && page == old(page) && refocus == None
      ensures old(open) && key == "ArrowLeft" ==>
        open && focusIdx == Stepped(old(focusIdx), -1, old(Len())) && page == old(page) && refocus == None
      ensures old(open) && key != "Escape" && key != "ArrowRight" && key != "ArrowLeft" ==>
        unchanged(this) && refocus == None
      ensures lastFocused == old(lastFocused)
    {
      refocus := None;
      if open {
        if key == "Escape" {
          refocus := CloseModal();
        } else if key == "ArrowRight" {
          Go(1);
        } else if key == "ArrowLeft" {
          Go(-1);
        }
      }
    }

    /** `goPage(p)`: show page `p` (not clamped here), close the modal and reset its index. */
    method GoPage(p: int)
      requires Valid()
      modifies this
      ensures Valid()
      ensures page == p && !open && focusIdx == 0 && lastFocused == old(lastFocused)
    {
      page := p;
      open := false;
      focusIdx := 0;
    }

    /** The "previous" button: `goPage(Math.max(0, page - 1))`; disabled on the first page. */
    method PrevPage()
      requires Valid() && page != 0
      modifies this
      ensures Valid()
      ensures page == PrevTarget(old(page)) && !open && focusIdx == 0 && lastFocused == old(lastFocused)
      ensures old(PageInRange()) ==> PageInRange()
    {
      GoPage(PrevTarget(page));
    }

    /** The "next" button: `goPage(Math.min(pageCount - 1, page + 1))`; disabled from the last page on. */
    method NextPage()
      requires Valid() && page < |pages| - 1
      modifies this
      ensures Valid()
      ensures page == NextTarget(old(page), |pages|) && !open && focusIdx == 0 && lastFocused == old(lastFocused)
      ensures old(PageInRange()) ==> PageInRange()
    {
      GoPage(NextTarget(page, |pages|));
    }

    /** A numbered page button, rendered for each `i < pageCount`. */
    method SelectPage(i: nat)
      requires Valid() && i < |pages|
      modifies this
      ensures Valid() && PageInRange()
      ensures page == i && !open && focusIdx == 0 && lastFocused == old(lastFocused)
    {
      GoPage(i);
    }
  }
}
