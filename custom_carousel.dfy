/**
 * The multi-slide carousel (customCarousel): a fixed list of slides, a window
 * of 1 to 3 of them shown at once depending on the viewport width, and one
 * indicator dot per starting position of the window, created once at start-up.
 */
module CustomCarousel {
  import opened ActiveFlags
  import opened Modular

  /** Viewport breakpoints: 3 slides from 992px, 2 from 768px, otherwise 1. */
  function SlidesToShowFor(width: int): (n: int)
    ensures 1 <= n <= 3
    ensures n == 3 <==> width >= 992
    ensures n == 1 <==> width < 768
  {
    if width >= 992 then 3 else if width >= 768 then 2 else 1
  }

  /** A wider viewport never shows fewer slides. */
  lemma SlidesToShowMonotone(w1: int, w2: int)
    requires w1 <= w2
    ensures SlidesToShowFor(w1) <= SlidesToShowFor(w2)
  {
  }

  /** The last starting index of the window: max(0, slideCount - slidesToShow). */
  function MaxIndex(slideCount: nat, slidesToShow: int): (m: nat)
    ensures slideCount - slidesToShow <= m
    ensures m == 0 || m + slidesToShow == slideCount
  {
    if slideCount - slidesToShow > 0 then slideCount - slidesToShow else 0
  }

  /** Number of dots created at start-up: max(1, slideCount - slidesToShow + 1). */
  function DotCount(slideCount: nat, slidesToShow: int): (d: nat)
    ensures d == MaxIndex(slideCount, slidesToShow) + 1
  {
    if slideCount - slidesToShow + 1 > 1 then slideCount - slidesToShow + 1 else 1
  }

  /** goToSlide: the index is clamped from above only. */
  function ClampIndex(index: int, slideCount: nat, slidesToShow: int): (c: int)
    ensures c <= MaxIndex(slideCount, slidesToShow)
    ensures index >= 0 ==> c >= 0
    ensures index <= MaxIndex(slideCount, slidesToShow) ==> c == index
    ensures index > MaxIndex(slideCount, slidesToShow) ==> c == MaxIndex(slideCount, slidesToShow)
  {
    var m := MaxIndex(slideCount, slidesToShow);
    if index < m then index else m
  }

  /** nextSlide: (currentSlide + 1) % (maxIndex + 1), with JavaScript's `%`. */
  function NextIndex(cur: int, slideCount: nat, slidesToShow: int): (r: int)
    ensures cur >= -1 ==> 0 <= r <= MaxIndex(slideCount, slidesToShow)
    ensures 0 <= cur < MaxIndex(slideCount, slidesToShow) ==> r == cur + 1
    ensures cur == MaxIndex(slideCount, slidesToShow) ==> r == 0
  {
    var m := MaxIndex(slideCount, slidesToShow);
    ModBelowTwice(cur + 1, m + 1);
    JsRem(cur + 1, m + 1)
  }

  /** prevSlide: (currentSlide - 1 + maxIndex + 1) % (maxIndex + 1), with JavaScript's `%`. */
  function PrevIndex(cur: int, slideCount: nat, slidesToShow: int): (r: int)
    ensures cur >= 0 ==> 0 <= r <= MaxIndex(slideCount, slidesToShow)
    ensures 0 < cur <= MaxIndex(slideCount, slidesToShow) ==> r == cur - 1
    ensures cur == 0 ==> r == MaxIndex(slideCount, slidesToShow)
  {
    var m := MaxIndex(slideCount, slidesToShow);
    ModBelowTwice(cur - 1 + m + 1, m + 1);
    JsRem(cur - 1 + m + 1, m + 1)
  }

  /** Inside the range, one step back undoes one step forward and vice versa. */
  lemma NextPrevInverse(cur: int, slideCount: nat, slidesToShow: int)
    requires 0 <= cur <= MaxIndex(slideCount, slidesToShow)
    ensures PrevIndex(NextIndex(cur, slideCount, slidesToShow), slideCount, slidesToShow) == cur
    ensures NextIndex(PrevIndex(cur, slideCount, slidesToShow), slideCount, slidesToShow) == cur
  {
  }

  /** The index after k calls of nextSlide. */
  function NextIterated(cur: int, k: nat, slideCount: nat, slidesToShow: int): int
  {
    if k == 0 then cur
    else NextIndex(NextIterated(cur, k - 1, slideCount, slidesToShow), slideCount, slidesToShow)
  }

  lemma {:induction false} NextIteratedIsShift(cur: int, k: nat, slideCount: nat, slidesToShow: int)
    requires 0 <= cur <= MaxIndex(slideCount, slidesToShow)
    ensures NextIterated(cur, k, slideCount, slidesToShow)
            == (cur + k) % (MaxIndex(slideCount, slidesToShow) + 1)
  {
    var period := MaxIndex(slideCount, slidesToShow) + 1;
    if k == 0 {
      ModUnique(cur, period, 0, cur);
    } else {
      NextIteratedIsShift(cur, k - 1, slideCount, slidesToShow);
      ModSucc(cur + k - 1, period);
    }
  }

  /** Calling nextSlide maxIndex + 1 times brings the index back to where it was. */
  lemma NextCycle(cur: int, slideCount: nat, slidesToShow: int)
    requires 0 <= cur <= MaxIndex(slideCount, slidesToShow)
    ensures NextIterated(cur, MaxIndex(slideCount, slidesToShow) + 1, slideCount, slidesToShow) == cur
  {
    var period := MaxIndex(slideCount, slidesToShow) + 1;
    NextIteratedIsShift(cur, period, slideCount, slidesToShow);
    ModUnique(cur + period, period, 1, cur);
  }

  /**
   * While the index is a valid starting position, the shown window holds
   * slidesToShow slides, or every slide when there are fewer than that.
   */
  lemma WindowFilled(cur: int, slideCount: nat, slidesToShow: int)
    requires 1 <= slidesToShow
    requires 0 <= cur <= MaxIndex(slideCount, slidesToShow)
    ensures CountTrue(Window(slideCount, cur, slidesToShow))
            == if slideCount < slidesToShow then slideCount else slidesToShow
  {
    WindowCount(slideCount, cur, slidesToShow);
  }

  /**
   * Right after start-up the dots match the starting positions: exactly one
   * dot is active for every index the carousel can reach.
   */
  lemma DotsMatchPositionsAtStart(cur: int, slideCount: nat, slidesToShow: int)
    requires 0 <= cur <= MaxIndex(slideCount, slidesToShow)
    ensures CountTrue(Selection(DotCount(slideCount, slidesToShow), cur)) == 1
  {
    SelectionCount(DotCount(slideCount, slidesToShow), cur);
  }

  /**
   * The dots are not rebuilt on resize. With 5 slides opened at 1000px wide
   * (3 dots), shrinking to 500px makes 4 the last starting index, and stepping
   * from the last dot leaves no dot active.
   */
  lemma ResizeCanLeaveNoDotActive()
    ensures DotCount(5, SlidesToShowFor(1000)) == 3
    ensures NextIndex(2, 5, SlidesToShowFor(500)) == 3
    ensures CountTrue(Selection(DotCount(5, SlidesToShowFor(1000)), NextIndex(2, 5, SlidesToShowFor(500)))) == 0
  {
    SelectionCount(3, 3);
  }

  /**
   * The index is not re-clamped on resize. With 5 slides at 500px the index
   * may reach 4; at 1000px the last starting index is 2, yet the index stays 4
   * until the next navigation, which brings it back into range.
   */
  lemma ResizeCanLeaveIndexOutOfRange()
    ensures MaxIndex(5, SlidesToShowFor(500)) == 4
    ensures MaxIndex(5, SlidesToShowFor(1000)) == 2
    ensures NextIndex(4, 5, SlidesToShowFor(1000)) == 2
    ensures PrevIndex(4, 5, SlidesToShowFor(1000)) == 0
  {
  }

  /** The carousel widget: slide and dot "active" flags plus the two indices. */
  class Carousel {
    const slides: array<bool>
    var dots: array<bool>
    var currentSlide: int
    var slidesToShow: int

    ghost predicate Valid()
      reads this
    {
      slides != dots && 1 <= slidesToShow <= 3
    }

    /** Last valid starting index for the current window size. */
    ghost function LastStart(): nat
      reads this
    {
      MaxIndex(slides.Length, slidesToShow)
    }

    /** The slides show the window at currentSlide and the dot at currentSlide is the active one. */
    ghost predicate Rendered()
      reads this, slides, dots
    {
      slides[..] == Window(slides.Length, currentSlide, slidesToShow)
      && dots[..] == Selection(dots.Length, currentSlide)
    }

    /**
     * init: markup gives the slides and their initial flags; with no slide it
     * returns early, otherwise it sizes the window, creates the dots and shows
     * the first window. The dots container and the prev/next buttons are taken
     * to be present in the markup.
     */
    constructor Init(markup: seq<bool>, width: int)
      ensures Valid() && fresh(slides) && fresh(dots)
      ensures slides.Length == |markup| && currentSlide == 0
      ensures |markup| == 0 ==> slidesToShow == 3 && dots.Length == 0
      ensures |markup| > 0 ==> slidesToShow == SlidesToShowFor(width)
      ensures |markup| > 0 ==> dots.Length == DotCount(|markup|, slidesToShow)
      ensures |markup| > 0 ==> Rendered()
    {
      slides := new bool[|markup|](i requires 0 <= i < |markup| => markup[i]);
      dots := new bool[0];
      currentSlide := 0;
      slidesToShow := 3;
      new;
      if |markup| > 0 {
        UpdateSlidesToShow(width);
        var numDots := DotCount(|markup|, slidesToShow);
        dots := new bool[numDots](i => false);
        UpdateSlide();
      }
    }

    method UpdateSlidesToShow(width: int)
      modifies this`slidesToShow
      ensures slidesToShow == SlidesToShowFor(width)
    {
      if width >= 992 {
        slidesToShow := 3;
      } else if width >= 768 {
        slidesToShow := 2;
      } else {
        slidesToShow := 1;
      }
    }

    /** updateSlide: rewrites every slide flag and every dot flag. */
    method UpdateSlide()
      requires Valid()
      modifies slides, dots
      ensures Rendered()
    {
      for i := 0 to slides.Length
        invariant forall k :: 0 <= k < i ==> slides[k] == (currentSlide <= k < currentSlide + slidesToShow)
      {
        slides[i] := currentSlide <= i < currentSlide + slidesToShow;
      }
      for i := 0 to dots.Length
        invariant forall k :: 0 <= k < i ==> dots[k] == (k == currentSlide)
        invariant slides[..] == Window(slides.Length, currentSlide, slidesToShow)
      {
        dots[i] := i == currentSlide;
      }
    }

    /** The resize handler: new window size, same index, same dots. */
    method Resize(width: int)
      requires Valid()
      modifies this`slidesToShow, slides, dots
      ensures Valid() && Rendered()
      ensures slidesToShow == SlidesToShowFor(width)
      ensures currentSlide == old(currentSlide)
    {
      UpdateSlidesToShow(width);
      UpdateSlide();
    }

    method GoToSlide(index: int)
      requires Valid()
      modifies this`currentSlide, slides, dots
      ensures Valid() && Rendered()
      ensures currentSlide == ClampIndex(index, slides.Length, slidesToShow)
      ensures index >= 0 ==> 0 <= currentSlide <= LastStart()
    {
      var maxIndex := MaxIndex(slides.Length, slidesToShow);
      currentSlide := if index < maxIndex then index else maxIndex;
      UpdateSlide();
    }

    method NextSlide()
      requires Valid()
      modifies this`currentSlide, slides, dots
      ensures Valid() && Rendered()
      ensures currentSlide == NextIndex(old(currentSlide), slides.Length, slidesToShow)
      ensures old(currentSlide) >= 0 ==> 0 <= currentSlide <= LastStart()
    {
      var maxIndex := MaxIndex(slides.Length, slidesToShow);
      currentSlide := JsRem(currentSlide + 1, maxIndex + 1);
      UpdateSlide();
    }

    method PrevSlide()
      requires Valid()
      modifies this`currentSlide, slides, dots
      ensures Valid() && Rendered()
      ensures currentSlide == PrevIndex(old(currentSlide), slides.Length, slidesToShow)
      ensures old(currentSlide) >= 0 ==> 0 <= currentSlide <= LastStart()
    {
      var maxIndex := MaxIndex(slides.Length, slidesToShow);
      currentSlide := JsRem(currentSlide - 1 + maxIndex + 1, maxIndex + 1);
      UpdateSlide();
    }

    /** A click on dot i. */
    method ClickDot(i: nat)
      requires Valid() && i < dots.Length
      modifies this`currentSlide, slides, dots
      ensures Valid() && Rendered()
      ensures currentSlide == ClampIndex(i, slides.Length, slidesToShow)
    {
      GoToSlide(i);
    }

    /** The document keydown handler: ArrowLeft steps back, ArrowRight forward. */
    method KeyDown(key: string)
      requires Valid()
      modifies this`currentSlide, slides, dots
      ensures Valid()
      ensures key == "ArrowLeft" ==> Rendered() && currentSlide == PrevIndex(old(currentSlide), slides.Length, slidesToShow)
      ensures key == "ArrowRight" ==> Rendered() && currentSlide == NextIndex(old(currentSlide), slides.Length, slidesToShow)
      ensures key != "ArrowLeft" && key != "ArrowRight" ==> currentSlide == old(currentSlide) && unchanged(slides, dots)
    {
      if key == "ArrowLeft" {
        PrevSlide();
      }
      if key == "ArrowRight" {
        NextSlide();
      }
    }
  }
}
