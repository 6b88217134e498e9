/**
 * The single-slide rotator of the "about" section (aboutCarousel): one slide
 * active at a time, advanced by a timer through the slides in a cycle.
 */
module AboutCarousel {
  import opened ActiveFlags
  import opened Modular

  /** nextSlide: the index advances by one, wrapping after the last slide. */
  function Advance(cur: nat, slideCount: nat): (r: nat)
    requires slideCount > 0
    requires cur < slideCount
    ensures r < slideCount
    ensures cur + 1 < slideCount ==> r == cur + 1
    ensures cur + 1 == slideCount ==> r == 0
  {
    (cur + 1) % slideCount
  }

  /** The index after k advances. */
  function AdvanceIterated(cur: nat, k: nat, slideCount: nat): (r: nat)
    requires slideCount > 0
    requires cur < slideCount
    ensures r < slideCount
  {
    if k == 0 then cur else Advance(AdvanceIterated(cur, k - 1, slideCount), slideCount)
  }

  /** After k advances the index has moved k places round the cycle. */
  lemma {:induction false} AdvanceIteratedIsShift(cur: nat, k: nat, slideCount: nat)
    requires slideCount > 0
    requires cur < slideCount
    ensures AdvanceIterated(cur, k, slideCount) == (cur + k) % slideCount
  {
    if k > 0 {
      AdvanceIteratedIsShift(cur, k - 1, slideCount);
      ModSucc(cur + k - 1, slideCount);
    }
  }

  /** slideCount advances come back to the start. */
  lemma AdvanceCycle(cur: nat, slideCount: nat)
    requires slideCount > 0
    requires cur < slideCount
    ensures AdvanceIterated(cur, slideCount, slideCount) == cur
  {
    AdvanceIteratedIsShift(cur, slideCount, slideCount);
    ModUnique(cur + slideCount, slideCount, 1, cur);
  }

  /** Every slide becomes the active one within fewer than slideCount advances. */
  lemma AdvanceReachesEverySlide(cur: nat, target: nat, slideCount: nat)
    requires slideCount > 0
    requires cur < slideCount && target < slideCount
    ensures exists k :: 0 <= k < slideCount && AdvanceIterated(cur, k, slideCount) == target
  {
    var k := if cur <= target then target - cur else target + slideCount - cur;
    AdvanceIteratedIsShift(cur, k, slideCount);
    if cur <= target {
      ModUnique(cur + k, slideCount, 0, target);
    } else {
      ModUnique(cur + k, slideCount, 1, target);
    }
  }

  class Rotator {
    const slides: array<bool>
    var currentSlide: nat

    ghost predicate Valid()
      reads this
    {
      slides.Length > 0 ==> currentSlide < slides.Length
    }

    /**
     * init: the markup gives the slides and their initial flags. The first
     * slide is not re-rendered; the flags stay as the markup has them until
     * the first timer tick.
     */
    constructor Init(markup: seq<bool>)
      ensures Valid() && fresh(slides)
      ensures slides[..] == markup && currentSlide == 0
    {
      slides := new bool[|markup|](i requires 0 <= i < |markup| => markup[i]);
      currentSlide := 0;
    }

    /**
     * The timer tick. The timer is only started when there is at least one
     * slide, so this never runs on an empty list.
     */
    method NextSlide()
      requires Valid() && slides.Length > 0
      modifies this, slides
      ensures Valid()
      ensures currentSlide == Advance(old(currentSlide), slides.Length)
      ensures slides[..] == Selection(slides.Length, currentSlide)
    {
      currentSlide := (currentSlide + 1) % slides.Length;
      UpdateSlide();
    }

    /** updateSlide: only the slide at currentSlide keeps the active flag. */
    method UpdateSlide()
      modifies slides
      ensures slides[..] == Selection(slides.Length, currentSlide)
    {
      for i := 0 to slides.Length
        invariant forall k :: 0 <= k < i ==> slides[k] == (k == currentSlide)
      {
        slides[i] := i == currentSlide;
      }
    }
  }

  /** After a tick exactly one slide is active. */
  lemma OneSlideActive(cur: nat, slideCount: nat)
    requires cur < slideCount
    ensures CountTrue(Selection(slideCount, cur)) == 1
    ensures forall i :: 0 <= i < slideCount ==> (Selection(slideCount, cur)[i] <==> i == cur)
  {
    SelectionCount(slideCount, cur);
  }
}
