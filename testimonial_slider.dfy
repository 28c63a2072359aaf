/**
 * The testimonial slider: one state cell, `currentIndex`, starts at 0 and is
 * overwritten by the next and previous buttons (cyclically) and by the row of
 * dots (one dot per testimonial; clicking dot k shows testimonial k). The dot
 * equal to `currentIndex` is the active one.
 */
module TestimonialSlider {

  datatype Testimonial = Testimonial(quote: string, author: string, position: string, image: string)

  const PlaceholderPortrait: string := "/placeholder.svg?height=64&width=64&query=professional portrait"

  /** `(prev + 1) % testimonials.length`: one step forward, wrapping from the last to the first. */
  function NextIndex(i: nat, n: nat): (r: nat)
    requires i < n
    ensures r < n
    ensures r == if i == n - 1 then 0 else i + 1
  {
    (i + 1) % n
  }

  /** `(prev - 1 + testimonials.length) % testimonials.length`: one step back, wrapping from the first to the last. */
  function PrevIndex(i: nat, n: nat): (r: nat)
    requires i < n
    ensures r < n
    ensures r == if i == 0 then n - 1 else i - 1
  {
    (i - 1 + n) % n
  }

  /** Next undoes previous and previous undoes next. */
  lemma NextPrevInverse(i: nat, n: nat)
    requires i < n
    ensures PrevIndex(NextIndex(i, n), n) == i
    ensures NextIndex(PrevIndex(i, n), n) == i
  {
  }

  /** The index after `k` presses of next. */
  function Advance(i: nat, n: nat, k: nat): (r: nat)
    requires i < n
    ensures r < n
  {
    if k == 0 then i else NextIndex(Advance(i, n, k - 1), n)
  }

  /** The index after `k` presses of previous. */
  function Retreat(i: nat, n: nat, k: nat): (r: nat)
    requires i < n
    ensures r < n
  {
    if k == 0 then i else PrevIndex(Retreat(i, n, k - 1), n)
  }

  lemma MulAtLeast(k: int, n: int)
    requires k >= 1 && n > 0
    ensures k * n >= n
  {
    assert k * n == n + (k - 1) * n;
  }

  /** Quotient and remainder are the only ones with `a == q * n + r` and `0 <= r < n`. */
  lemma DivModUnique(a: int, n: int, q: int, r: int)
    requires n > 0 && 0 <= r < n && a == q * n + r
    ensures a / n == q && a % n == r
  {
    var q', r' := a / n, a % n;
    assert a == q' * n + r';
    assert (q - q') * n == r' - r;
    if q > q' {
      MulAtLeast(q - q', n);
    } else if q < q' {
      MulAtLeast(q' - q, n);
    }
  }

  lemma ModStep(a: nat, n: nat)
    requires n > 0
    ensures (a % n + 1) % n == (a + 1) % n
  {
    var q, r := a / n, a % n;
    assert a == q * n + r;
    if r + 1 == n {
      DivModUnique(r + 1, n, 1, 0);
      DivModUnique(a + 1, n, q + 1, 0);
    } else {
      DivModUnique(r + 1, n, 0, r + 1);
      DivModUnique(a + 1, n, q, r + 1);
    }
  }

  /** `k` presses of next move `k` places round the cycle. */
  lemma {:induction false} AdvanceIsModular(i: nat, n: nat, k: nat)
    requires i < n
    ensures Advance(i, n, k) == (i + k) % n
  {
    if k > 0 {
      AdvanceIsModular(i, n, k - 1);
      ModStep(i + k - 1, n);
    }
  }

  /** Pressing next once per testimonial comes back to the starting one. */
  lemma FullCycle(i: nat, n: nat)
    requires i < n
    ensures Advance(i, n, n) == i
    ensures forall k :: 0 < k < n ==> Advance(i, n, k) != i
  {
    AdvanceIsModular(i, n, n);
    DivModUnique(i + n, n, 1, i);
    forall k | 0 < k < n ensures Advance(i, n, k) != i {
      AdvanceIsModular(i, n, k);
      if i + k >= n {
        DivModUnique(i + k, n, 1, i + k - n);
      } else {
        DivModUnique(i + k, n, 0, i + k);
      }
    }
  }

  /** `k` presses of previous undo `k` presses of next. */
  lemma {:induction false} RetreatUndoesAdvance(i: nat, n: nat, k: nat)
    requires i < n
    ensures Retreat(Advance(i, n, k), n, k) == i
  {
    if k > 0 {
      var j := Advance(i, n, k - 1);
      NextPrevInverse(j, n);
      RetreatPeel(NextIndex(j, n), n, k - 1);
      RetreatUndoesAdvance(i, n, k - 1);
    }
  }

  /** Retreating `k + 1` steps is one step back, then `k` steps back. */
  lemma {:induction false} RetreatPeel(i: nat, n: nat, k: nat)
    requires i < n
    ensures Retreat(i, n, k + 1) == Retreat(PrevIndex(i, n), n, k)
  {
    if k > 0 {
      RetreatPeel(i, n, k - 1);
    }
  }

  /** The row of dots: dot k is active exactly when it is the current index. */
  function Dots(current: nat, n: nat): (dots: seq<bool>)
    requires current < n
    ensures |dots| == n
    ensures forall k :: 0 <= k < n ==> (dots[k] <==> k == current)
  {
    seq(n, k => k == current)
  }

  function CountActive(dots: seq<bool>): nat {
    if dots == [] then 0 else (if dots[0] then 1 else 0) + CountActive(dots[1..])
  }

  /** Exactly one dot is active. */
  lemma {:induction false} OneActiveDot(current: nat, n: nat)
    requires current < n
    ensures CountActive(Dots(current, n)) == 1
  {
    var dots := Dots(current, n);
    assert dots == dots[..current] + ([true] + dots[current + 1..]);
    CountActiveAppend(dots[..current], [true] + dots[current + 1..]);
    CountActiveAppend([true], dots[current + 1..]);
    assert CountActive([true]) == 1 by { assert [true][1..] == []; }
    NoneActive(dots[..current]);
    NoneActive(dots[current + 1..]);
  }

  lemma {:induction false} CountActiveAppend(a: seq<bool>, b: seq<bool>)
    ensures CountActive(a + b) == CountActive(a) + CountActive(b)
  {
    if a == [] {
      assert a + b == b;
    } else {
      assert (a + b)[0] == a[0];
      assert (a + b)[1..] == a[1..] + b;
      CountActiveAppend(a[1..], b);
    }
  }

  lemma {:induction false} NoneActive(dots: seq<bool>)
    requires forall k :: 0 <= k < |dots| ==> !dots[k]
    ensures CountActive(dots) == 0
  {
    if dots != [] {
      NoneActive(dots[1..]);
    }
  }

  /** The portrait shown: the testimonial's image, or the placeholder when it is empty. */
  function PortraitSrc(t: Testimonial): (src: string)
    ensures src != ""
    ensures t.image != "" ==> src == t.image
    ensures t.image == "" ==> src == PlaceholderPortrait
  {
    if t.image != "" then t.image else PlaceholderPortrait
  }

  /** The slider component's state over its (non-empty) list of testimonials. */
  class Slider {
    const testimonials: seq<Testimonial>
    var currentIndex: nat

    ghost predicate Valid()
      reads this
    {
      |testimonials| > 0 && currentIndex < |testimonials|
    }

    /** `useState(0)`: the first testimonial is shown first. */
    constructor (testimonials: seq<Testimonial>)
      requires |testimonials| > 0
      ensures Valid()
      ensures this.testimonials == testimonials && currentIndex == 0
    {
      this.testimonials := testimonials;
      currentIndex := 0;
    }

    /** `nextTestimonial` (the right button, and every autoplay tick). */
    method NextTestimonial()
      requires Valid()
      modifies this
      ensures Valid()
      ensures currentIndex == NextIndex(old(currentIndex), |testimonials|)
    {
      currentIndex := (currentIndex + 1) % |testimonials|;
    }

    /** `prevTestimonial` (the left button). */
    method PrevTestimonial()
      requires Valid()
      modifies this
      ensures Valid()
      ensures currentIndex == PrevIndex(old(currentIndex), |testimonials|)
    {
      currentIndex := (currentIndex - 1 + |testimonials|) % |testimonials|;
    }

    /** Clicking dot `index`, one of the rendered dots. */
    method SelectDot(index: nat)
      requires Valid() && index < |testimonials|
      modifies this
      ensures Valid()
      ensures currentIndex == index
    {
      currentIndex := index;
    }

    /** The testimonial on display, with the portrait it shows. */
    method Current() returns (t: Testimonial, portrait: string)
      requires Valid()
      ensures t in testimonials && t == testimonials[currentIndex]
      ensures portrait != "" && (t.image != "" ==> portrait == t.image)
      ensures t.image == "" ==> portrait == PlaceholderPortrait
    {
      t := testimonials[currentIndex];
      portrait := PortraitSrc(t);
    }

    /** The dots as rendered: exactly one, the current one, is active. */
    method RenderDots() returns (dots: seq<bool>)
      requires Valid()
      ensures |dots| == |testimonials|
      ensures dots[currentIndex] && CountActive(dots) == 1
    {
      dots := Dots(currentIndex, |testimonials|);
      OneActiveDot(currentIndex, |testimonials|);
    }
  }

  /** A round of presses: after the right button and then the left one, the same testimonial shows. */
  method NextThenPrev(s: Slider)
    requires s.Valid()
    modifies s
    ensures s.Valid() && s.currentIndex == old(s.currentIndex)
  {
    s.NextTestimonial();
    s.PrevTestimonial();
    NextPrevInverse(old(s.currentIndex), |s.testimonials|);
  }
}
