/** `SlidingStackedWidget`: a stack of pages of which one is current, where
    changing page slides the new page in. The animation itself (geometry,
    easing, duration) is left out; what remains is which page is current,
    which page a running slide is heading for, whether a slide is running, and
    which pages are shown. Pages are named by their index: the widget handed
    to `slideInWgt` enters as its `indexOf`, which is -1 for a widget that is
    not in the stack. */
module SlidingStack {
  import opened Wrappers

  /** `count` pages; `current` is `currentIndex()` (-1 when there is no page);
      `next` is `m_next`, the page the last slide headed for; `active` is
      `m_active`; `shown` the pages that are not hidden. */
  datatype Stack = Stack(count: nat, current: int, next: int, active: bool, shown: set<int>)

  /** What a call can raise: `%` by a zero page count, or a method called on
      the `None` that `widget(-1)` returns. */
  datatype Error = ZeroDivision | NoSuchPage

  /** The state after a call, and the exception it raised, if any. The state
      changes made before the exception are kept, as they are on the object. */
  datatype Slid = Slid(stack: Stack, raised: Option<Error>)

  /** A freshly filled stack: the first page is current, nothing slides. */
  function Initial(count: nat): (s: Stack)
    ensures Inv(s)
  {
    if count == 0 then Stack(0, -1, 0, false, {})
    else Stack(count, 0, 0, false, {0})
  }

  /** What every reachable state satisfies: with pages, `current` and `next`
      are pages and exactly those two are shown; with no slide running they
      are the same page; an empty stack never slides. */
  predicate Inv(s: Stack) {
    if s.count == 0 then s.current == -1 && !s.active && s.shown == {}
    else
      && 0 <= s.current < s.count
      && 0 <= s.next < s.count
      && s.shown == {s.current, s.next}
      && (!s.active ==> s.current == s.next)
  }

  // ---------------------------------------------------------------------------
  // animationDoneSlot

  /** The end of a slide: the page slid to becomes current, every other page
      is hidden and no slide is running any more. `widget(m_next)` must exist,
      so the stack has pages. */
  function AnimationDone(s: Stack): (d: Stack)
    requires Inv(s) && s.count > 0
    ensures Inv(d) && !d.active
    ensures d.current == d.next == s.next && d.shown == {s.next}
    ensures d.count == s.count
  {
    s.(current := s.next, shown := {s.next}, active := false)
  }

  /** A slide that is running is finished; otherwise nothing changes. */
  function Settled(s: Stack): (d: Stack)
    requires Inv(s)
    ensures Inv(d) && !d.active && d.count == s.count
    ensures !s.active ==> d == s
  {
    if s.active then AnimationDone(s) else s
  }

  lemma AnimationDoneIdempotent(s: Stack)
    requires Inv(s) && s.count > 0
    ensures AnimationDone(AnimationDone(s)) == AnimationDone(s)
  {
  }

  // ---------------------------------------------------------------------------
  // slideInWgt

  /** `slideInWgt` for the widget at index `target` (`indexOf`'s -1 for one not
      in the stack). A running slide is finished first. Sliding to the current
      page does nothing more; a widget not in the stack raises once
      `widget(-1)` is used, with `m_active` left set; any other page becomes
      the one being slid to and is shown next to the current one. */
  function SlideInWgt(s: Stack, target: int): (r: Slid)
    requires Inv(s) && -1 <= target < s.count
    ensures Inv(r.stack) && r.stack.count == s.count
    ensures r.raised.Some? <==> target == -1 && s.count > 0
    ensures r.raised.Some? ==> r.raised.value == NoSuchPage
    ensures target == Settled(s).current ==> r == Slid(Settled(s), None)
    ensures target != Settled(s).current && r.raised.None? ==>
      && r.stack.active
      && r.stack.current == Settled(s).current
      && r.stack.next == target
      && r.stack.shown == {Settled(s).current, target}
  {
    var base := Settled(s);
    if base.current == target then Slid(base, None)
    else if target == -1 then Slid(base.(active := true), Some(NoSuchPage))
    else Slid(base.(next := target, active := true, shown := base.shown + {target}), None)
  }

  /** Sliding to the page already shown, with nothing running, changes nothing. */
  lemma SlideToCurrent(s: Stack)
    requires Inv(s) && !s.active
    ensures SlideInWgt(s, s.current) == Slid(s, None)
  {
  }

  /** A new slide while one runs behaves as if the running one had ended. */
  lemma SlideInterrupts(s: Stack, target: int)
    requires Inv(s) && s.active && -1 <= target < s.count
    ensures SlideInWgt(s, target) == SlideInWgt(AnimationDone(s), target)
  {
  }

  /** Sliding to any page and letting the slide finish leaves exactly that
      page current and shown, whatever was running before. */
  lemma SlideThenDone(s: Stack, target: int)
    requires Inv(s) && 0 <= target < s.count
    ensures SlideInWgt(s, target).raised.None?
    ensures Settled(SlideInWgt(s, target).stack) == Stack(s.count, target, target, false, {target})
  {
    var base := Settled(s);
    if base.current == target {
      assert base.next == target;
      assert base.shown == {target};
    }
  }

  // ---------------------------------------------------------------------------
  // slideInIdx

  /** The index wrap of `slideInIdx`: above the last page Python's `idx %
      count`, below 0 `(idx + count) % count`, otherwise `idx` itself. With no
      pages both `%` raise. */
  function NormalizeIndex(idx: int, count: nat): (r: Result<int, Error>)
    ensures r.Failure? <==> count == 0
    ensures r.Failure? ==> r.error == ZeroDivision
    ensures r.Success? ==> 0 <= r.value < count && r.value == idx % count
    ensures 0 <= idx < count ==> r == Success(idx)
  {
    if idx > count - 1 then
      if count == 0 then Failure(ZeroDivision) else Success(idx % count)
    else if idx < 0 then
      if count == 0 then Failure(ZeroDivision)
      else
        ShiftMod(idx, count);
        Success((idx + count) % count)
    else Success(idx)
  }

  /** Adding the divisor once does not change a remainder. */
  lemma ShiftMod(idx: int, count: nat)
    requires count > 0
    ensures (idx + count) % count == idx % count
  {
    var q, r := idx / count, idx % count;
    var q', r' := (idx + count) / count, (idx + count) % count;
    assert idx + count == q' * count + r';
    var k := q' - q - 1;
    assert k * count == q' * count - q * count - count;
    MulFar(k, count);
  }

  /** A non-zero multiple of `n` is at least `n` away from 0. */
  lemma {:induction false} MulFar(k: int, n: int)
    requires n > 0
    ensures k > 0 ==> k * n >= n
    ensures k < 0 ==> k * n <= -n
    decreases if k < 0 then -k else k
  {
    if k > 1 {
      MulFar(k - 1, n);
      assert k * n == (k - 1) * n + n;
    }
    if k < -1 {
      MulFar(k + 1, n);
      assert k * n == (k + 1) * n - n;
    }
  }

  /** `slideInIdx`: the page at the wrapped index is slid in; `widget(k)` of a
      valid `k` is a widget whose `indexOf` is `k`. */
  function SlideInIdx(s: Stack, idx: int): (r: Slid)
    requires Inv(s)
    ensures s.count == 0 ==> r == Slid(s, Some(ZeroDivision))
    ensures s.count > 0 ==> r.raised.None? && r == SlideInWgt(s, idx % s.count)
  {
    match NormalizeIndex(idx, s.count)
    case Failure(e) => Slid(s, Some(e))
    case Success(k) => SlideInWgt(s, k)
  }

  /** Indices one full turn apart slide to the same page. */
  lemma {:induction false} SlideInIdxWraps(s: Stack, idx: int)
    requires Inv(s)
    ensures SlideInIdx(s, idx + s.count) == SlideInIdx(s, idx)
  {
    if s.count > 0 {
      ShiftMod(idx, s.count);
    }
  }

  /** On a stack with pages, sliding by index to an existing page ends there. */
  lemma SlideInIdxEndsOnPage(s: Stack, idx: int)
    requires Inv(s) && s.count > 0
    ensures SlideInIdx(s, idx).raised.None?
    ensures Settled(SlideInIdx(s, idx).stack).current == idx % s.count
  {
    SlideThenDone(s, idx % s.count);
  }
}
