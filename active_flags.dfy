/**
 * The "active" CSS class of a list of page elements, seen as one boolean per
 * element. Every widget of the page ends an update with one of two shapes:
 * a contiguous window of active elements (the multi-slide carousel) or a
 * single active element (the dots, the single-slide rotator, the tabs).
 */
module ActiveFlags {

  /** Number of active elements. */
  function CountTrue(s: seq<bool>): (c: nat)
    ensures c <= |s|
  {
    if s == [] then 0
    else CountTrue(s[..|s| - 1]) + (if s[|s| - 1] then 1 else 0)
  }

  /** n elements, of which exactly those with lo <= i < lo + width are active. */
  function Window(n: nat, lo: int, width: int): seq<bool>
  {
    seq(n, i => lo <= i < lo + width)
  }

  /** n elements, of which only the one at index k (if any) is active. */
  function Selection(n: nat, k: int): seq<bool>
  {
    Window(n, k, 1)
  }

  /** n elements, none active. */
  function AllInactive(n: nat): seq<bool>
  {
    seq(n, i => false)
  }

  /** How many of the indices 0 .. n-1 fall inside [lo, lo + width). */
  function Overlap(n: nat, lo: int, width: int): nat
  {
    var hi := if n < lo + width then n else lo + width;
    var low := if lo < 0 then 0 else lo;
    if hi <= low then 0 else hi - low
  }

  lemma {:induction false} WindowCount(n: nat, lo: int, width: int)
    ensures CountTrue(Window(n, lo, width)) == Overlap(n, lo, width)
  {
    if n > 0 {
      assert Window(n, lo, width)[..n - 1] == Window(n - 1, lo, width);
      WindowCount(n - 1, lo, width);
    }
  }

  /** A selection marks exactly one element when its index is in range and none otherwise. */
  lemma SelectionCount(n: nat, k: int)
    ensures 0 <= k < n ==> CountTrue(Selection(n, k)) == 1
    ensures !(0 <= k < n) ==> CountTrue(Selection(n, k)) == 0
  {
    WindowCount(n, k, 1);
  }

  lemma {:induction false} AllInactiveCount(n: nat)
    ensures CountTrue(AllInactive(n)) == 0
  {
    if n > 0 {
      assert AllInactive(n)[..n - 1] == AllInactive(n - 1);
      AllInactiveCount(n - 1);
    }
  }
}
