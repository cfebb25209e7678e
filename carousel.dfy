/** The testimonial carousel of script.js:12-76: a page-wide index that
    wraps at both ends, and the `active` classes of the `.testimonial`
    elements and of the `.dot` elements, of which `showTestimonial` leaves
    at most one set in each list. */
module Testimonials {

  /** The wrap of script.js:48-52 over `n` testimonials: past the end goes
      to the first, before the start goes to the last. */
  function Wrap(i: int, n: nat): int {
    if i >= n then 0 else if i < 0 then n - 1 else i
  }

  /** The `active` flags `showTestimonial(i)` leaves on a list of `n`
      elements: only element `i` is active, if there is one. */
  function Selection(i: int, n: nat): seq<bool> {
    seq(n, j => j == i)
  }

  /** The indices of the active elements. */
  function ActiveSet(s: seq<bool>): set<int> {
    set j | 0 <= j < |s| && s[j]
  }

  /** After `showTestimonial(i)` exactly element `i` is active when it
      exists, and none otherwise; so never more than one. */
  lemma SelectionActive(i: int, n: nat)
    ensures ActiveSet(Selection(i, n)) == if 0 <= i < n then {i} else {}
    ensures |ActiveSet(Selection(i, n))| <= 1
  {
    var s := Selection(i, n);
    if 0 <= i < n {
      assert i in ActiveSet(s);
      assert ActiveSet(s) == {i};
    } else {
      assert ActiveSet(s) == {};
    }
  }

  /** One step from an index in range, forwards or backwards, stays in
      range; the last steps forward to the first and the first back to the
      last. */
  lemma StepInRange(i: int, d: int, n: nat)
    requires 0 <= i < n && (d == 1 || d == -1)
    ensures 0 <= Wrap(i + d, n) < n
    ensures i == n - 1 && d == 1 ==> Wrap(i + d, n) == 0
    ensures i == 0 && d == -1 ==> Wrap(i + d, n) == n - 1
    ensures 0 <= i + d < n ==> Wrap(i + d, n) == i + d
  {
  }

  /** The index after `k` calls of `changeTestimonial(d)` from index `i`. */
  function Steps(i: int, d: int, k: nat, n: nat): int
    decreases k
  {
    if k == 0 then i else Wrap(Steps(i, d, k - 1, n) + d, n)
  }

  /** Euclidean remainders are determined by any decomposition
      `x == q * n + r` with `0 <= r < n`. */
  lemma ModUnique(x: int, n: int, q: int, r: int)
    requires n > 0 && 0 <= r < n && x == q * n + r
    ensures x % n == r
  {
    var q', r' := x / n, x % n;
    assert x == q' * n + r';
    assert (q - q') * n == r' - r;
    if q > q' {
      assert (q - q') * n >= n by { MulAtLeast(q - q', n); }
    } else if q < q' {
      assert (q' - q) * n >= n by { MulAtLeast(q' - q, n); }
    }
  }

  lemma MulAtLeast(a: int, n: int)
    requires a >= 1 && n > 0
    ensures a * n >= n
  {
  }

  /** One wrapped step agrees with stepping the remainder. */
  lemma WrapIsMod(x: int, d: int, n: nat)
    requires n > 0 && (d == 1 || d == -1)
    ensures Wrap(x % n + d, n) == (x + d) % n
  {
    var q, r := x / n, x % n;
    assert x == q * n + r;
    if r + d == n {
      ModUnique(x + d, n, q + 1, 0);
    } else if r + d < 0 {
      ModUnique(x + d, n, q - 1, n - 1);
    } else {
      ModUnique(x + d, n, q, r + d);
    }
  }

  /** Repeated calls wrap like arithmetic modulo the number of
      testimonials: `k` steps of `d` from `i` land on `(i + d * k) mod n`. */
  lemma {:induction false} StepsModular(i: int, d: int, k: nat, n: nat)
    requires 0 <= i < n && (d == 1 || d == -1)
    ensures Steps(i, d, k, n) == (i + d * k) % n
  {
    if k == 0 {
      ModUnique(i, n, 0, i);
    } else {
      StepsModular(i, d, k - 1, n);
      WrapIsMod(i + d * (k - 1), d, n);
      assert i + d * (k - 1) + d == i + d * k;
    }
  }

  class Carousel {
    /** `currentTestimonialIndex`. */
    var index: int
    /** The `active` class of each `.testimonial`. */
    const testimonials: array<bool>
    /** The `active` class of each `.dot`. */
    const dots: array<bool>

    ghost predicate Valid()
      reads this
    {
      testimonials != dots
    }

    /** The page as loaded: index 0, the flags as the markup has them. */
    constructor (active: seq<bool>, dotsActive: seq<bool>)
      ensures Valid() && fresh(testimonials) && fresh(dots)
      ensures index == 0 && testimonials[..] == active && dots[..] == dotsActive
    {
      index := 0;
      testimonials := new bool[|active|](j requires 0 <= j < |active| => active[j]);
      dots := new bool[|dotsActive|](j requires 0 <= j < |dotsActive| => dotsActive[j]);
    }

    /** `classList.remove('active')` on every element of the list. */
    static method Deactivate(a: array<bool>)
      modifies a
      ensures forall j :: 0 <= j < a.Length ==> !a[j]
    {
      var j := 0;
      while j < a.Length
        invariant 0 <= j <= a.Length
        invariant forall m :: 0 <= m < j ==> !a[m]
      {
        a[j] := false;
        j := j + 1;
      }
    }

    /** `showTestimonial(i)`: deactivate every testimonial and every dot,
        then activate testimonial `i` and dot `i` where they exist. */
    method ShowTestimonial(i: int)
      requires Valid()
      modifies testimonials, dots
      ensures Valid()
      ensures testimonials[..] == Selection(i, testimonials.Length)
      ensures dots[..] == Selection(i, dots.Length)
    {
      Deactivate(testimonials);
      Deactivate(dots);
      if 0 <= i < testimonials.Length {
        testimonials[i] := true;
      }
      if 0 <= i < dots.Length {
        dots[i] := true;
      }
      assert testimonials[..] == Selection(i, testimonials.Length);
      assert dots[..] == Selection(i, dots.Length);
    }

    /** `changeTestimonial(direction)`, which the eight-second timer also
        calls with 1: move the index, wrap it, show it. */
    method ChangeTestimonial(direction: int)
      requires Valid()
      modifies this`index, testimonials, dots
      ensures Valid()
      ensures index == Wrap(old(index) + direction, testimonials.Length)
      ensures testimonials[..] == Selection(index, testimonials.Length)
      ensures dots[..] == Selection(index, dots.Length)
    {
      index := index + direction;
      if index >= testimonials.Length {
        index := 0;
      } else if index < 0 {
        index := testimonials.Length - 1;
      }
      ShowTestimonial(index);
    }

    /** `currentTestimonial(k)`: jump to the one-based dot `k`, with no
        range check. */
    method CurrentTestimonial(k: int)
      requires Valid()
      modifies this`index, testimonials, dots
      ensures Valid()
      ensures index == k - 1
      ensures testimonials[..] == Selection(k - 1, testimonials.Length)
      ensures dots[..] == Selection(k - 1, dots.Length)
    {
      index := k - 1;
      ShowTestimonial(index);
    }
  }
}
