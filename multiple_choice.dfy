/** The multiple-choice widget: a radio group of choice buttons, one of
    which the page marks correct. A wrong choice disables that button and
    moves the roving tab stop to the next enabled one; the right choice
    ends the question, disables every button and celebrates. Arrow keys,
    Home and End move the tab stop among the enabled buttons only. */
module MultipleChoice {
  import Page

  // ---------------------------------------------------------------------
  // Modular arithmetic used by the wrap-around navigation
  // ---------------------------------------------------------------------

  lemma {:induction false} MulMonotone(d: int, n: int)
    requires d >= 1 && n > 0
    ensures d * n >= n
    decreases d
  {
    if d > 1 {
      MulMonotone(d - 1, n);
      assert d * n == (d - 1) * n + n;
    }
  }

  lemma MulGap(a: int, b: int, n: int)
    requires n > 0
    ensures a > b ==> a * n - b * n >= n
    ensures a < b ==> b * n - a * n >= n
  {
    if a > b {
      MulMonotone(a - b, n);
      assert (a - b) * n == a * n - b * n;
    } else if a < b {
      MulMonotone(b - a, n);
      assert (b - a) * n == b * n - a * n;
    }
  }

  /** The remainder is the unique r in [0, n) with x == q * n + r. */
  lemma ModUnique(x: int, n: int, q: int, r: int)
    requires n > 0 && 0 <= r < n && x == q * n + r
    ensures x % n == r
  {
    var q0, r0 := x / n, x % n;
    assert x == q0 * n + r0;
    MulGap(q, q0, n);
  }

  lemma ModOfShift(x: int, n: int)
    requires n > 0
    ensures (x + n) % n == x % n
  {
    var q := x / n;
    assert x == q * n + x % n;
    assert x + n == (q + 1) * n + x % n;
    ModUnique(x + n, n, q + 1, x % n);
  }

  lemma ModOfMod(x: int, y: int, n: int)
    requires n > 0
    ensures (x % n + y) % n == (x + y) % n
  {
    var q := x / n;
    var r := (x % n + y) % n;
    var p := (x % n + y) / n;
    assert x == q * n + x % n;
    assert x % n + y == p * n + r;
    assert x + y == (q + p) * n + r;
    ModUnique(x + y, n, q + p, r);
  }

  // ---------------------------------------------------------------------
  // The markup the widget reads and writes
  // ---------------------------------------------------------------------

  /** One `.button-choice` element: `data-correct` as authored, the
      `disabled` property, and the `aria-disabled`, `aria-checked` and
      `tabindex` attributes. */
  datatype ChoiceButton = ChoiceButton(
    correct: bool,
    disabled: bool,
    ariaDisabled: bool,
    ariaChecked: bool,
    tabindex: int)

  /** A feedback region: missing from the markup, or present and either
      displayed (`display: block`) or hidden (`display: none`). */
  datatype Feedback = Absent | Present(shown: bool)

  function Show(f: Feedback): Feedback {
    if f.Present? then Present(true) else Absent
  }

  function Hide(f: Feedback): Feedback {
    if f.Present? then Present(false) else Absent
  }

  /** Everything the widget can change, as one value. */
  datatype ChoiceState = ChoiceState(
    buttons: seq<ChoiceButton>,
    answered: bool,
    currentIndex: int,
    feedbackCorrect: Feedback,
    feedbackIncorrect: Feedback)

  /** Both ways a button is switched off: the property and the attribute. */
  predicate Locked(b: ChoiceButton) {
    b.disabled && b.ariaDisabled
  }

  /** Radio-group selection: exactly button k has `aria-checked="true"`. */
  predicate CheckedOnly(bs: seq<ChoiceButton>, k: int) {
    forall i :: 0 <= i < |bs| ==> (bs[i].ariaChecked <==> i == k)
  }

  /** Roving tab stop: button k has tabindex 0 and every other one -1. */
  predicate RovingAt(bs: seq<ChoiceButton>, k: int) {
    forall i :: 0 <= i < |bs| ==> bs[i].tabindex == (if i == k then 0 else -1)
  }

  /** The buttons after `updateSelection(k)`. */
  function Selected(bs: seq<ChoiceButton>, k: int): (r: seq<ChoiceButton>)
    ensures |r| == |bs| && CheckedOnly(r, k)
    ensures forall i :: 0 <= i < |bs| ==> r[i].(ariaChecked := bs[i].ariaChecked) == bs[i]
  {
    seq(|bs|, i requires 0 <= i < |bs| => bs[i].(ariaChecked := i == k))
  }

  /** The buttons after the correct answer switches every one off. */
  function AllDisabled(bs: seq<ChoiceButton>): (r: seq<ChoiceButton>)
    ensures |r| == |bs|
    ensures forall i :: 0 <= i < |bs| ==> Locked(r[i])
    ensures forall i :: 0 <= i < |bs| ==>
      r[i].(disabled := bs[i].disabled, ariaDisabled := bs[i].ariaDisabled) == bs[i]
  {
    seq(|bs|, i requires 0 <= i < |bs| => bs[i].(disabled := true, ariaDisabled := true))
  }

  /** The buttons after a wrong answer switches button k off. */
  function DisabledAt(bs: seq<ChoiceButton>, k: int): (r: seq<ChoiceButton>)
    requires 0 <= k < |bs|
    ensures |r| == |bs| && Locked(r[k])
    ensures r[k].(disabled := bs[k].disabled, ariaDisabled := bs[k].ariaDisabled) == bs[k]
    ensures forall i :: 0 <= i < |bs| && i != k ==> r[i] == bs[i]
  {
    bs[k := bs[k].(disabled := true, ariaDisabled := true)]
  }

  /** The buttons after the tab stop moves to button k. */
  function RovedTo(bs: seq<ChoiceButton>, k: int): (r: seq<ChoiceButton>)
    ensures |r| == |bs| && RovingAt(r, k)
    ensures forall i :: 0 <= i < |bs| ==> r[i].(tabindex := bs[i].tabindex) == bs[i]
  {
    seq(|bs|, i requires 0 <= i < |bs| => bs[i].(tabindex := if i == k then 0 else -1))
  }

  // ---------------------------------------------------------------------
  // Searching for an enabled button
  // ---------------------------------------------------------------------

  /** The lowest enabled position in [lo, hi), or -1. */
  function FirstEnabled(bs: seq<ChoiceButton>, lo: int, hi: int): int
    requires 0 <= lo && hi <= |bs|
    decreases hi - lo
  {
    if lo >= hi then -1
    else if !bs[lo].disabled then lo
    else FirstEnabled(bs, lo + 1, hi)
  }

  lemma {:induction false} FirstEnabledSpec(bs: seq<ChoiceButton>, lo: int, hi: int)
    requires 0 <= lo && hi <= |bs|
    ensures var r := FirstEnabled(bs, lo, hi);
      (r == -1 <==> forall i :: lo <= i < hi ==> bs[i].disabled) &&
      (r != -1 ==> lo <= r < hi && !bs[r].disabled &&
                   forall i :: lo <= i < r ==> bs[i].disabled)
    decreases hi - lo
  {
    if lo < hi && bs[lo].disabled {
      FirstEnabledSpec(bs, lo + 1, hi);
    }
  }

  /** The highest enabled position in [lo, hi), or -1. */
  function LastEnabled(bs: seq<ChoiceButton>, lo: int, hi: int): int
    requires 0 <= lo && hi <= |bs|
    decreases hi - lo
  {
    if hi <= lo then -1
    else if !bs[hi - 1].disabled then hi - 1
    else LastEnabled(bs, lo, hi - 1)
  }

  lemma {:induction false} LastEnabledSpec(bs: seq<ChoiceButton>, lo: int, hi: int)
    requires 0 <= lo && hi <= |bs|
    ensures var r := LastEnabled(bs, lo, hi);
      (r == -1 <==> forall i :: lo <= i < hi ==> bs[i].disabled) &&
      (r != -1 ==> lo <= r < hi && !bs[r].disabled &&
                   forall i :: r < i < hi ==> bs[i].disabled)
    decreases hi - lo
  {
    if lo < hi && bs[hi - 1].disabled {
      LastEnabledSpec(bs, lo, hi - 1);
    }
  }

  /** The number of enabled buttons (the length of the `availableButtons`
      filter). */
  function CountEnabled(bs: seq<ChoiceButton>): nat {
    if |bs| == 0 then 0
    else CountEnabled(bs[..|bs| - 1]) + (if bs[|bs| - 1].disabled then 0 else 1)
  }

  lemma {:induction false} CountEnabledPositive(bs: seq<ChoiceButton>)
    ensures CountEnabled(bs) > 0 <==> exists i :: 0 <= i < |bs| && !bs[i].disabled
  {
    if |bs| > 0 {
      var init := bs[..|bs| - 1];
      CountEnabledPositive(init);
      if exists i :: 0 <= i < |init| && !init[i].disabled {
        var i :| 0 <= i < |init| && !init[i].disabled;
        assert !bs[i].disabled;
      }
      if exists i :: 0 <= i < |bs| && !bs[i].disabled {
        var i :| 0 <= i < |bs| && !bs[i].disabled;
        if i < |bs| - 1 {
          assert !init[i].disabled;
        }
      }
    }
  }

  /** Where focus goes after a wrong answer: the first enabled button after
      `cur`, or failing that the first one before it, or -1. */
  function NextAvailable(bs: seq<ChoiceButton>, cur: int): int
    requires 0 <= cur < |bs|
  {
    var after := FirstEnabled(bs, cur + 1, |bs|);
    if after != -1 then after else FirstEnabled(bs, 0, cur)
  }

  /** Position i lies strictly between `cur` and `r` going forward around
      the group. */
  predicate CyclicallyBetween(cur: int, i: int, r: int) {
    if cur < r then cur < i < r else cur < i || i < r
  }

  /** The tab stop after a wrong answer is the nearest enabled button
      after the current one, wrapping around, and never the current one;
      there is none exactly when every other button is disabled. */
  lemma NextAvailableSpec(bs: seq<ChoiceButton>, cur: int)
    requires 0 <= cur < |bs|
    ensures var r := NextAvailable(bs, cur);
      (r == -1 <==> forall i :: 0 <= i < |bs| && i != cur ==> bs[i].disabled) &&
      (r != -1 ==> 0 <= r < |bs| && r != cur && !bs[r].disabled &&
                   forall i :: 0 <= i < |bs| && CyclicallyBetween(cur, i, r) ==> bs[i].disabled)
  {
    FirstEnabledSpec(bs, cur + 1, |bs|);
    FirstEnabledSpec(bs, 0, cur);
  }

  /** The button reached after k steps of `dir` from `start` around n
      buttons (the k-th value of `newIndex` in `getNextEnabledIndex`). */
  function Probe(start: int, dir: int, k: nat, n: nat): (p: int)
    requires n > 0
    ensures 0 <= p < n
  {
    (if dir == 1 then start + k else start - k) % n
  }

  /** The first enabled probe from step k on, or -1 once every step up to
      n has been tried. */
  function NextEnabledFrom(bs: seq<ChoiceButton>, start: int, dir: int, k: nat): int
    requires |bs| > 0
    decreases |bs| + 1 - k
  {
    if k > |bs| then -1
    else
      var p := Probe(start, dir, k, |bs|);
      if !bs[p].disabled then p else NextEnabledFrom(bs, start, dir, k + 1)
  }

  /** The button `getNextEnabledIndex(start, dir)` answers. */
  function NextEnabledIndex(bs: seq<ChoiceButton>, start: int, dir: int): int {
    if |bs| == 0 then -1 else NextEnabledFrom(bs, start, dir, 1)
  }

  /** One step of the loop in `getNextEnabledIndex` reaches the next probe. */
  lemma ProbeStep(start: int, dir: int, i: nat, n: nat, cur: int)
    requires n > 0 && (dir == 1 || dir == -1)
    requires i == 0 ==> cur == start
    requires i > 0 ==> cur == Probe(start, dir, i, n)
    ensures (cur + dir + n) % n == Probe(start, dir, i + 1, n)
  {
    ModOfShift(cur + dir, n);
    if i > 0 {
      ModOfMod(if dir == 1 then start + i else start - i, dir, n);
    }
  }

  lemma {:induction false} NextEnabledFromSpec(bs: seq<ChoiceButton>, start: int, dir: int, k: nat)
    requires |bs| > 0
    ensures var r := NextEnabledFrom(bs, start, dir, k);
      (r == -1 ==> forall j :: k <= j <= |bs| ==> bs[Probe(start, dir, j, |bs|)].disabled) &&
      (r != -1 ==>
         0 <= r < |bs| && !bs[r].disabled &&
         exists j :: k <= j <= |bs| && r == Probe(start, dir, j, |bs|) &&
           forall j' :: k <= j' < j ==> bs[Probe(start, dir, j', |bs|)].disabled)
    decreases |bs| + 1 - k
  {
    if k <= |bs| {
      var p := Probe(start, dir, k, |bs|);
      if bs[p].disabled {
        NextEnabledFromSpec(bs, start, dir, k + 1);
        var r := NextEnabledFrom(bs, start, dir, k + 1);
        if r != -1 {
          var j :| k + 1 <= j <= |bs| && r == Probe(start, dir, j, |bs|) &&
            forall j' :: k + 1 <= j' < j ==> bs[Probe(start, dir, j', |bs|)].disabled;
          assert k <= j <= |bs| && r == Probe(start, dir, j, |bs|);
        }
      } else {
        assert k <= k <= |bs| && p == Probe(start, dir, k, |bs|);
      }
    }
  }

  /** Every button is reached by one of the n steps, in either direction. */
  lemma ProbeCovers(start: int, dir: int, n: nat, i: int) returns (k: nat)
    requires n > 0 && (dir == 1 || dir == -1) && 0 <= i < n
    ensures 1 <= k <= n && Probe(start, dir, k, n) == i
  {
    var d := if dir == 1 then i - start else start - i;
    var q := d / n;
    assert d == q * n + d % n;
    if d % n == 0 {
      k := n;
      assert (1 - q) * n == n - q * n && (q - 1) * n == q * n - n;
      if dir == 1 {
        assert start + n == (1 - q) * n + i;
        ModUnique(start + n, n, 1 - q, i);
      } else {
        assert start - n == (q - 1) * n + i;
        ModUnique(start - n, n, q - 1, i);
      }
    } else {
      k := d % n;
      assert (-q) * n == -(q * n);
      if dir == 1 {
        assert start + k == (-q) * n + i;
        ModUnique(start + k, n, -q, i);
      } else {
        assert start - k == q * n + i;
        ModUnique(start - k, n, q, i);
      }
    }
  }

  /** `getNextEnabledIndex` answers -1 exactly when every button is
      disabled; otherwise it answers an enabled button, the first one met
      stepping from `start` in direction `dir`. */
  lemma NextEnabledIndexSpec(bs: seq<ChoiceButton>, start: int, dir: int)
    requires dir == 1 || dir == -1
    ensures var r := NextEnabledIndex(bs, start, dir);
      (r == -1 <==> forall i :: 0 <= i < |bs| ==> bs[i].disabled) &&
      (r != -1 ==>
         0 <= r < |bs| && !bs[r].disabled &&
         exists j :: 1 <= j <= |bs| && r == Probe(start, dir, j, |bs|) &&
           forall j' :: 1 <= j' < j ==> bs[Probe(start, dir, j', |bs|)].disabled)
  {
    if |bs| > 0 {
      NextEnabledFromSpec(bs, start, dir, 1);
      if NextEnabledIndex(bs, start, dir) == -1 {
        forall i | 0 <= i < |bs|
          ensures bs[i].disabled
        {
          var k := ProbeCovers(start, dir, |bs|, i);
        }
      }
    }
  }

  lemma {:induction false} HomeFrom(bs: seq<ChoiceButton>, k: nat)
    requires |bs| > 0 && 1 <= k <= |bs| + 1
    ensures NextEnabledFrom(bs, -1, 1, k) == FirstEnabled(bs, k - 1, |bs|)
    decreases |bs| + 1 - k
  {
    if k <= |bs| {
      assert Probe(-1, 1, k, |bs|) == k - 1;
      HomeFrom(bs, k + 1);
    }
  }

  /** Home moves to the first enabled button of the group. */
  lemma HomeFindsFirst(bs: seq<ChoiceButton>)
    ensures NextEnabledIndex(bs, -1, 1) == FirstEnabled(bs, 0, |bs|)
  {
    if |bs| > 0 {
      HomeFrom(bs, 1);
    }
  }

  lemma {:induction false} EndFrom(bs: seq<ChoiceButton>, k: nat)
    requires |bs| > 0 && 1 <= k <= |bs| + 1
    ensures NextEnabledFrom(bs, |bs|, -1, k) == LastEnabled(bs, 0, |bs| - k + 1)
    decreases |bs| + 1 - k
  {
    if k <= |bs| {
      assert Probe(|bs|, -1, k, |bs|) == |bs| - k;
      EndFrom(bs, k + 1);
    }
  }

  /** End moves to the last enabled button of the group. */
  lemma EndFindsLast(bs: seq<ChoiceButton>)
    ensures NextEnabledIndex(bs, |bs|, -1) == LastEnabled(bs, 0, |bs|)
  {
    if |bs| > 0 {
      EndFrom(bs, 1);
    }
  }

  /** An arrow key moves to the neighbouring button when it is enabled,
      wrapping from the last button to the first and back. */
  lemma ArrowMovesToNeighbour(bs: seq<ChoiceButton>, index: int, dir: int)
    requires 0 <= index < |bs| && (dir == 1 || dir == -1)
    requires !bs[(index + dir + |bs|) % |bs|].disabled
    ensures NextEnabledIndex(bs, index, dir) == (index + dir + |bs|) % |bs|
  {
    ModOfShift(index + dir, |bs|);
  }

  // ---------------------------------------------------------------------
  // The widget as a function of its state
  // ---------------------------------------------------------------------

  /** The state right after construction: both feedback regions hidden and
      the tab stop on the first button. */
  function Initial(markup: seq<ChoiceButton>, hasCorrectFeedback: bool, hasIncorrectFeedback: bool): ChoiceState {
    ChoiceState(
      if |markup| == 0 then markup else RovedTo(markup, 0),
      false, 0,
      if hasCorrectFeedback then Present(false) else Absent,
      if hasIncorrectFeedback then Present(false) else Absent)
  }

  /** Whether choosing button `index` is the correct answer that ends the
      question (and plays the correct sound and the celebration). */
  predicate AnswersCorrectly(s: ChoiceState, index: int)
    requires 0 <= index < |s.buttons|
  {
    !s.answered && s.buttons[index].correct
  }

  /** `handleChoice(button, index)`. */
  function Choose(s: ChoiceState, index: int): ChoiceState
    requires 0 <= index < |s.buttons|
  {
    if s.answered then s
    else
      var selected := Selected(s.buttons, index);
      if s.buttons[index].correct then
        ChoiceState(AllDisabled(selected), true, index, Show(s.feedbackCorrect), Hide(s.feedbackIncorrect))
      else
        var disabled := DisabledAt(selected, index);
        var next := NextAvailable(disabled, index);
        ChoiceState(
          if next == -1 then disabled else RovedTo(disabled, next),
          false, index, s.feedbackCorrect, Show(s.feedbackIncorrect))
  }

  predicate IsSelectKey(key: string) {
    key == " " || key == "Enter"
  }

  /** The button a navigation key asks for, or -1. */
  function KeyTarget(bs: seq<ChoiceButton>, key: string, index: int): int {
    if key == "ArrowDown" || key == "ArrowRight" then NextEnabledIndex(bs, index, 1)
    else if key == "ArrowUp" || key == "ArrowLeft" then NextEnabledIndex(bs, index, -1)
    else if key == "Home" then NextEnabledIndex(bs, -1, 1)
    else if key == "End" then NextEnabledIndex(bs, |bs|, -1)
    else -1
  }

  /** `handleKeydown(event, index)` for a key named `key`. */
  function Keydown(s: ChoiceState, key: string, index: int): ChoiceState
    requires 0 <= index < |s.buttons|
  {
    if s.answered then s
    else if IsSelectKey(key) then Choose(s, index)
    else
      var t := KeyTarget(s.buttons, key, index);
      if t == -1 then s else s.(buttons := RovedTo(s.buttons, t), currentIndex := t)
  }

  predicate KeyAnswersCorrectly(s: ChoiceState, key: string, index: int)
    requires 0 <= index < |s.buttons|
  {
    IsSelectKey(key) && AnswersCorrectly(s, index)
  }

  /** Every button keeps its `tabindex`. */
  predicate SameTabStops(a: seq<ChoiceButton>, b: seq<ChoiceButton>) {
    |a| == |b| && forall i :: 0 <= i < |a| ==> a[i].tabindex == b[i].tabindex
  }

  /** What holds in every state the widget reaches: the current index is a
      button (or 0 for an empty group); a non-empty group has exactly one
      tab stop; and once answered the selected button is the correct one,
      every button is switched off, the correct feedback shows and the
      incorrect feedback does not. */
  predicate Consistent(s: ChoiceState) {
    0 <= s.currentIndex && (s.currentIndex < |s.buttons| || s.currentIndex == 0) &&
    (|s.buttons| > 0 ==> exists k :: 0 <= k < |s.buttons| && RovingAt(s.buttons, k)) &&
    (s.answered ==>
       s.currentIndex < |s.buttons| && s.buttons[s.currentIndex].correct &&
       CheckedOnly(s.buttons, s.currentIndex) &&
       (forall i :: 0 <= i < |s.buttons| ==> Locked(s.buttons[i])) &&
       s.feedbackCorrect != Present(false) && s.feedbackIncorrect != Present(true))
  }

  // ---------------------------------------------------------------------
  // Properties of the widget
  // ---------------------------------------------------------------------

  /** A fresh widget is consistent, and a non-empty group starts with the
      tab stop on its first button. */
  lemma InitialIsConsistent(markup: seq<ChoiceButton>, c: bool, i: bool)
    ensures Consistent(Initial(markup, c, i))
    ensures |markup| > 0 ==> RovingAt(Initial(markup, c, i).buttons, 0)
    ensures !Initial(markup, c, i).answered
    ensures Initial(markup, c, i).feedbackCorrect != Present(true)
    ensures Initial(markup, c, i).feedbackIncorrect != Present(true)
  {
    if |markup| > 0 {
      assert RovingAt(Initial(markup, c, i).buttons, 0);
    }
  }

  /** Once answered, no click and no key changes anything or plays anything. */
  lemma AnsweredIsFinal(s: ChoiceState, key: string, index: int)
    requires 0 <= index < |s.buttons| && s.answered
    ensures Choose(s, index) == s && !AnswersCorrectly(s, index)
    ensures Keydown(s, key, index) == s && !KeyAnswersCorrectly(s, key, index)
  {
  }

  /** The correct answer ends the question: it is the only checked button,
      every button is switched off, the correct feedback shows and the
      incorrect one is hidden. */
  lemma CorrectChoice(s: ChoiceState, index: int)
    requires 0 <= index < |s.buttons| && AnswersCorrectly(s, index)
    ensures var r := Choose(s, index);
      r.answered && r.currentIndex == index && |r.buttons| == |s.buttons| &&
      CheckedOnly(r.buttons, index) &&
      (forall i :: 0 <= i < |s.buttons| ==> Locked(r.buttons[i])) &&
      r.feedbackCorrect == Show(s.feedbackCorrect) && r.feedbackIncorrect == Hide(s.feedbackIncorrect)
    ensures SameTabStops(Choose(s, index).buttons, s.buttons)
  {
  }

  /** A wrong answer switches off that button alone, shows the incorrect
      feedback, leaves the question open, and moves the tab stop to the
      nearest enabled button after it (wrapping), if there is one. */
  lemma IncorrectChoice(s: ChoiceState, index: int)
    requires 0 <= index < |s.buttons| && !s.answered && !s.buttons[index].correct
    ensures var r := Choose(s, index);
      !r.answered && r.currentIndex == index && |r.buttons| == |s.buttons| &&
      CheckedOnly(r.buttons, index) && Locked(r.buttons[index]) &&
      (forall i :: 0 <= i < |s.buttons| && i != index ==> r.buttons[i].disabled == s.buttons[i].disabled) &&
      r.feedbackCorrect == s.feedbackCorrect && r.feedbackIncorrect == Show(s.feedbackIncorrect)
    ensures var r := Choose(s, index);
      var next := NextAvailable(DisabledAt(Selected(s.buttons, index), index), index);
      (next == -1 <==> forall i :: 0 <= i < |s.buttons| ==> r.buttons[i].disabled) &&
      (next != -1 ==> 0 <= next < |s.buttons| && next != index && !r.buttons[next].disabled &&
                      RovingAt(r.buttons, next) &&
                      forall i :: 0 <= i < |s.buttons| && CyclicallyBetween(index, i, next) ==> r.buttons[i].disabled) &&
      (next == -1 ==> SameTabStops(r.buttons, s.buttons))
  {
    var disabled := DisabledAt(Selected(s.buttons, index), index);
    NextAvailableSpec(disabled, index);
  }

  /** A navigation key moves the tab stop, and the current index, to an
      enabled button, or changes nothing when none is enabled or the key
      means nothing; Home and End go to the first and last enabled
      buttons. */
  lemma NavigationKey(s: ChoiceState, key: string, index: int)
    requires 0 <= index < |s.buttons| && !s.answered && !IsSelectKey(key)
    ensures var r := Keydown(s, key, index);
      var t := KeyTarget(s.buttons, key, index);
      (t == -1 ==> r == s) &&
      (t != -1 ==> 0 <= t < |s.buttons| && !s.buttons[t].disabled &&
                   r == s.(buttons := RovedTo(s.buttons, t), currentIndex := t))
    ensures key == "Home" ==> KeyTarget(s.buttons, key, index) == FirstEnabled(s.buttons, 0, |s.buttons|)
    ensures key == "End" ==> KeyTarget(s.buttons, key, index) == LastEnabled(s.buttons, 0, |s.buttons|)
    ensures (forall i :: 0 <= i < |s.buttons| ==> s.buttons[i].disabled) ==> Keydown(s, key, index) == s
  {
    NextEnabledIndexSpec(s.buttons, index, 1);
    NextEnabledIndexSpec(s.buttons, index, -1);
    NextEnabledIndexSpec(s.buttons, -1, 1);
    NextEnabledIndexSpec(s.buttons, |s.buttons|, -1);
    HomeFindsFirst(s.buttons);
    EndFindsLast(s.buttons);
  }

  /** Nothing is ever switched back on, an answer is never taken back, the
      group keeps its size, and which button is correct never changes. */
  lemma KeydownIsMonotone(s: ChoiceState, key: string, index: int)
    requires 0 <= index < |s.buttons|
    ensures var r := Keydown(s, key, index);
      |r.buttons| == |s.buttons| && (s.answered ==> r.answered) &&
      forall i :: 0 <= i < |s.buttons| ==>
        (s.buttons[i].disabled ==> r.buttons[i].disabled) &&
        (Locked(s.buttons[i]) ==> Locked(r.buttons[i])) &&
        r.buttons[i].correct == s.buttons[i].correct
  {
  }

  /** Keeping every `tabindex` keeps a single tab stop. */
  lemma TabStopKept(a: seq<ChoiceButton>, b: seq<ChoiceButton>)
    requires SameTabStops(a, b)
    requires |a| > 0 ==> exists k :: 0 <= k < |a| && RovingAt(a, k)
    ensures |b| > 0 ==> exists k :: 0 <= k < |b| && RovingAt(b, k)
  {
    if |a| > 0 {
      var k :| 0 <= k < |a| && RovingAt(a, k);
      assert RovingAt(b, k);
    }
  }

  /** Clicks and keys keep the widget consistent; in particular a
      non-empty group always has exactly one tab stop. */
  lemma EventsKeepConsistent(s: ChoiceState, key: string, index: int)
    requires 0 <= index < |s.buttons| && Consistent(s)
    ensures Consistent(Choose(s, index))
    ensures Consistent(Keydown(s, key, index))
  {
    if !s.answered {
      var r := Choose(s, index);
      if s.buttons[index].correct {
        CorrectChoice(s, index);
        TabStopKept(s.buttons, r.buttons);
      } else {
        IncorrectChoice(s, index);
        var next := NextAvailable(DisabledAt(Selected(s.buttons, index), index), index);
        if next == -1 {
          TabStopKept(s.buttons, r.buttons);
        } else {
          assert RovingAt(r.buttons, next);
        }
      }
      if !IsSelectKey(key) {
        NavigationKey(s, key, index);
        var t := KeyTarget(s.buttons, key, index);
        if t != -1 {
          assert RovingAt(Keydown(s, key, index).buttons, t);
        }
      }
    }
  }

  /** The correct sound and the celebration happen at most once over any
      run of events: after one, the question is answered. */
  lemma CelebratesOnce(s: ChoiceState, key: string, index: int, key2: string, index2: int)
    requires 0 <= index < |s.buttons| && KeyAnswersCorrectly(s, key, index)
    ensures Keydown(s, key, index).answered
    ensures var r := Keydown(s, key, index);
      0 <= index2 < |r.buttons| ==> !KeyAnswersCorrectly(r, key2, index2)
    ensures var r := Keydown(s, key, index);
      0 <= index2 < |r.buttons| ==> !AnswersCorrectly(r, index2)
  {
  }

  // ---------------------------------------------------------------------
  // Cycling with ArrowDown
  // ---------------------------------------------------------------------

  /** The number of enabled buttons before position p. */
  function Rank(bs: seq<ChoiceButton>, p: int): nat
    requires 0 <= p <= |bs|
  {
    CountEnabled(bs[..p])
  }

  lemma RankStep(bs: seq<ChoiceButton>, p: int)
    requires 0 <= p < |bs|
    ensures Rank(bs, p + 1) == Rank(bs, p) + (if bs[p].disabled then 0 else 1)
  {
    assert bs[..p + 1][..p] == bs[..p];
  }

  lemma {:induction false} RankFlat(bs: seq<ChoiceButton>, lo: int, hi: int)
    requires 0 <= lo <= hi <= |bs|
    requires forall i :: lo <= i < hi ==> bs[i].disabled
    ensures Rank(bs, hi) == Rank(bs, lo)
    decreases hi - lo
  {
    if lo < hi {
      RankStep(bs, lo);
      RankFlat(bs, lo + 1, hi);
    }
  }

  lemma {:induction false} RankMonotone(bs: seq<ChoiceButton>, p: int, q: int)
    requires 0 <= p <= q <= |bs|
    ensures Rank(bs, p) <= Rank(bs, q)
    decreases q - p
  {
    if p < q {
      RankStep(bs, p);
      RankMonotone(bs, p + 1, q);
    }
  }

  /** Enabled buttons have different ranks, each below the number of
      enabled buttons. */
  lemma RankSeparates(bs: seq<ChoiceButton>, p: int, q: int)
    requires 0 <= p < q <= |bs| && !bs[p].disabled
    ensures Rank(bs, p) < Rank(bs, q) && Rank(bs, p) < CountEnabled(bs)
  {
    RankStep(bs, p);
    RankMonotone(bs, p + 1, q);
    RankMonotone(bs, p + 1, |bs|);
    assert bs[..|bs|] == bs;
  }

  /** Two button rows that agree on which buttons are disabled. */
  predicate SameFlags(a: seq<ChoiceButton>, b: seq<ChoiceButton>) {
    |a| == |b| && forall i :: 0 <= i < |a| ==> a[i].disabled == b[i].disabled
  }

  /** Forward probes from `s`: positions after `s`, then from the top. */
  lemma ProbeForward(s: int, k: nat, n: nat)
    requires 0 <= s < n && 1 <= k <= n
    ensures Probe(s, 1, k, n) == if s + k < n then s + k else s + k - n
  {
    if s + k < n {
      ModUnique(s + k, n, 0, s + k);
    } else {
      ModUnique(s + k, n, 1, s + k - n);
    }
  }

  /** Once the forward probes have wrapped past the end, the search from
      step k looks at the positions from `s + k - n` up to `s`. */
  lemma {:induction false} ForwardWrapped(bs: seq<ChoiceButton>, s: int, k: nat)
    requires 0 <= s < |bs| && |bs| <= s + k && k <= |bs| + 1
    ensures NextEnabledFrom(bs, s, 1, k) == FirstEnabled(bs, s + k - |bs|, s + 1)
    decreases |bs| + 1 - k
  {
    var n := |bs|;
    if k <= n {
      ForwardWrapped(bs, s, k + 1);
      ProbeForward(s, k, n);
    }
  }

  /** Before the wrap, the search from step k looks at the positions from
      `s + k` to the end, and then from the top up to `s`. */
  lemma {:induction false} ForwardBelow(bs: seq<ChoiceButton>, s: int, k: nat)
    requires 0 <= s < |bs| && 1 <= k && s + k <= |bs|
    ensures NextEnabledFrom(bs, s, 1, k) ==
      var a := FirstEnabled(bs, s + k, |bs|);
      if a != -1 then a else FirstEnabled(bs, 0, s + 1)
    decreases |bs| - k
  {
    var n := |bs|;
    if s + k == n {
      ForwardWrapped(bs, s, k);
    } else {
      ForwardBelow(bs, s, k + 1);
      ProbeForward(s, k, n);
    }
  }

  lemma ArrowDownSearch(bs: seq<ChoiceButton>, s: int)
    requires 0 <= s < |bs|
    ensures NextEnabledIndex(bs, s, 1) ==
      var a := FirstEnabled(bs, s + 1, |bs|);
      if a != -1 then a else FirstEnabled(bs, 0, s + 1)
  {
    ForwardBelow(bs, s, 1);
  }

  /** When an enabled button follows `s`, it is the one of the next rank,
      and `s` is not the last enabled button. */
  lemma RankOfNextBelow(bs: seq<ChoiceButton>, s: int)
    requires 0 <= s < |bs| && !bs[s].disabled
    requires FirstEnabled(bs, s + 1, |bs|) != -1
    ensures var a := FirstEnabled(bs, s + 1, |bs|);
      s < a < |bs| && !bs[a].disabled &&
      Rank(bs, a) == Rank(bs, s) + 1 && Rank(bs, a) < CountEnabled(bs)
  {
    var a := FirstEnabled(bs, s + 1, |bs|);
    FirstEnabledSpec(bs, s + 1, |bs|);
    RankStep(bs, s);
    RankFlat(bs, s + 1, a);
    RankSeparates(bs, a, |bs|);
  }

  /** When no enabled button follows `s`, `s` is the last enabled button
      and the search wraps to the first one, of rank 0. */
  lemma RankOfWrapped(bs: seq<ChoiceButton>, s: int)
    requires 0 <= s < |bs| && !bs[s].disabled
    requires FirstEnabled(bs, s + 1, |bs|) == -1
    ensures var t := FirstEnabled(bs, 0, s + 1);
      0 <= t <= s && !bs[t].disabled &&
      Rank(bs, t) == 0 && Rank(bs, s) + 1 == CountEnabled(bs)
  {
    var n := |bs|;
    var t := FirstEnabled(bs, 0, s + 1);
    FirstEnabledSpec(bs, s + 1, n);
    FirstEnabledSpec(bs, 0, s + 1);
    RankStep(bs, s);
    RankFlat(bs, 0, t);
    RankFlat(bs, s + 1, n);
    assert bs[..0] == [];
    assert bs[..n] == bs;
  }

  /** From an enabled button, ArrowDown reaches the enabled button whose
      rank is one more, cyclically. */
  lemma ArrowDownStep(bs: seq<ChoiceButton>, s: int)
    requires 0 <= s < |bs| && !bs[s].disabled
    ensures Rank(bs, s) < CountEnabled(bs)
    ensures var t := NextEnabledIndex(bs, s, 1);
      0 <= t < |bs| && !bs[t].disabled &&
      Rank(bs, t) == (Rank(bs, s) + 1) % CountEnabled(bs)
  {
    RankSeparates(bs, s, |bs|);
    ArrowDownSearch(bs, s);
    if FirstEnabled(bs, s + 1, |bs|) != -1 {
      RankOfNextBelow(bs, s);
      ModUnique(Rank(bs, s) + 1, CountEnabled(bs), 0, Rank(bs, s) + 1);
    } else {
      RankOfWrapped(bs, s);
      ModUnique(Rank(bs, s) + 1, CountEnabled(bs), 1, 0);
    }
  }

  /** One press of ArrowDown on an enabled button of an open question:
      the current index moves to the enabled button of the next rank, and
      nothing is switched on or off. */
  lemma ArrowDownOnce(s: ChoiceState)
    requires !s.answered && 0 <= s.currentIndex < |s.buttons| && !s.buttons[s.currentIndex].disabled
    ensures Rank(s.buttons, s.currentIndex) < CountEnabled(s.buttons)
    ensures var r := Keydown(s, "ArrowDown", s.currentIndex);
      !r.answered && SameFlags(r.buttons, s.buttons) &&
      0 <= r.currentIndex < |s.buttons| && !s.buttons[r.currentIndex].disabled &&
      Rank(s.buttons, r.currentIndex) == (Rank(s.buttons, s.currentIndex) + 1) % CountEnabled(s.buttons)
  {
    ArrowDownStep(s.buttons, s.currentIndex);
    NavigationKey(s, "ArrowDown", s.currentIndex);
  }

  /** The state after ArrowDown is pressed m times, each time on the
      button at the current index. */
  function PressArrowDown(s: ChoiceState, m: nat): ChoiceState
    requires 0 <= s.currentIndex < |s.buttons|
    decreases m
  {
    if m == 0 then s
    else
      NextEnabledIndexSpec(s.buttons, s.currentIndex, 1);
      PressArrowDown(Keydown(s, "ArrowDown", s.currentIndex), m - 1)
  }

  /** Pressing ArrowDown repeatedly from an enabled button of an open
      question keeps it open, switches nothing on or off, and always
      leaves the current index on an enabled button. */
  lemma {:induction false} PressArrowDownKeeps(s: ChoiceState, m: nat)
    requires !s.answered && 0 <= s.currentIndex < |s.buttons| && !s.buttons[s.currentIndex].disabled
    ensures var r := PressArrowDown(s, m);
      !r.answered && SameFlags(r.buttons, s.buttons) &&
      0 <= r.currentIndex < |s.buttons| && !s.buttons[r.currentIndex].disabled
    decreases m
  {
    if m > 0 {
      var s1 := Keydown(s, "ArrowDown", s.currentIndex);
      ArrowDownOnce(s);
      PressArrowDownKeeps(s1, m - 1);
      assert PressArrowDown(s, m) == PressArrowDown(s1, m - 1);
    }
  }

  /** The search of `getNextEnabledIndex` looks only at which buttons are
      disabled. */
  lemma {:induction false} NextEnabledFromFlags(a: seq<ChoiceButton>, b: seq<ChoiceButton>, start: int, dir: int, k: nat)
    requires |a| > 0 && SameFlags(a, b)
    ensures NextEnabledFrom(a, start, dir, k) == NextEnabledFrom(b, start, dir, k)
    decreases |a| + 1 - k
  {
    if k <= |a| {
      NextEnabledFromFlags(a, b, start, dir, k + 1);
    }
  }

  /** The button reached from `i` by m ArrowDown steps over `bs`. */
  function StepsDown(bs: seq<ChoiceButton>, i: int, m: nat): int
    decreases m
  {
    if m == 0 then i else StepsDown(bs, NextEnabledIndex(bs, i, 1), m - 1)
  }

  lemma {:induction false} StepsDownFlags(a: seq<ChoiceButton>, b: seq<ChoiceButton>, i: int, m: nat)
    requires SameFlags(a, b)
    ensures StepsDown(a, i, m) == StepsDown(b, i, m)
    decreases m
  {
    if m > 0 {
      if |a| > 0 {
        NextEnabledFromFlags(a, b, i, 1, 1);
      }
      StepsDownFlags(a, b, NextEnabledIndex(a, i, 1), m - 1);
    }
  }

  /** After m steps from an enabled button the search sits on the
      enabled button whose rank is m more, cyclically. */
  lemma {:induction false} StepsDownRank(bs: seq<ChoiceButton>, i: int, m: nat)
    requires 0 <= i < |bs| && !bs[i].disabled
    ensures Rank(bs, i) < CountEnabled(bs)
    ensures var x := StepsDown(bs, i, m);
      0 <= x < |bs| && !bs[x].disabled &&
      Rank(bs, x) == (Rank(bs, i) + m) % CountEnabled(bs)
    decreases m
  {
    var n := CountEnabled(bs);
    ArrowDownStep(bs, i);
    if m == 0 {
      ModUnique(Rank(bs, i) + m, n, 0, Rank(bs, i));
    } else {
      var t := NextEnabledIndex(bs, i, 1);
      StepsDownRank(bs, t, m - 1);
      RankAdvance(Rank(bs, i), Rank(bs, t), Rank(bs, StepsDown(bs, i, m)), m, n);
    }
  }

  /** Pressing ArrowDown m times moves the current index along
      `StepsDown`. */
  lemma {:induction false} PressArrowDownSteps(s: ChoiceState, m: nat)
    requires !s.answered && 0 <= s.currentIndex < |s.buttons| && !s.buttons[s.currentIndex].disabled
    ensures PressArrowDown(s, m).currentIndex == StepsDown(s.buttons, s.currentIndex, m)
    decreases m
  {
    if m > 0 {
      var c := s.currentIndex;
      var s1 := Keydown(s, "ArrowDown", c);
      ArrowDownOnce(s);
      NavigationKey(s, "ArrowDown", c);
      NextEnabledIndexSpec(s.buttons, c, 1);
      assert s1.currentIndex == NextEnabledIndex(s.buttons, c, 1);
      assert !s1.buttons[s1.currentIndex].disabled;
      PressArrowDownSteps(s1, m - 1);
      StepsDownFlags(s1.buttons, s.buttons, s1.currentIndex, m - 1);
      PressArrowDownUnfold(s, m);
    }
  }

  lemma PressArrowDownUnfold(s: ChoiceState, m: nat)
    requires 0 <= s.currentIndex < |s.buttons| && m > 0
    ensures var s1 := Keydown(s, "ArrowDown", s.currentIndex);
      0 <= s1.currentIndex < |s1.buttons| && PressArrowDown(s, m) == PressArrowDown(s1, m - 1)
  {
    NextEnabledIndexSpec(s.buttons, s.currentIndex, 1);
  }

  lemma RankAdvance(rc: int, rt: int, rx: int, m: nat, n: int)
    requires n > 0 && m > 0
    requires rt == (rc + 1) % n && rx == (rt + (m - 1)) % n
    ensures rx == (rc + m) % n
  {
    ModOfMod(rc + 1, m - 1, n);
  }

  /** Distinct enabled buttons have distinct ranks. */
  lemma RankInjective(bs: seq<ChoiceButton>, p: int, q: int)
    requires 0 <= p < |bs| && 0 <= q < |bs| && !bs[p].disabled && !bs[q].disabled
    requires Rank(bs, p) == Rank(bs, q)
    ensures p == q
  {
    if p < q {
      RankSeparates(bs, p, q);
    } else if q < p {
      RankSeparates(bs, q, p);
    }
  }

  /** As many ArrowDown steps as there are enabled buttons lead from an
      enabled button back to itself. */
  lemma StepsDownCycles(bs: seq<ChoiceButton>, c: int)
    requires 0 <= c < |bs| && !bs[c].disabled
    ensures StepsDown(bs, c, CountEnabled(bs)) == c
  {
    var n := CountEnabled(bs);
    StepsDownRank(bs, c, n);
    var r := StepsDown(bs, c, n);
    assert Rank(bs, r) == Rank(bs, c) by {
      ModOfShift(Rank(bs, c), n);
      ModUnique(Rank(bs, c), n, 0, Rank(bs, c));
    }
    RankInjective(bs, r, c);
  }

  /** Pressing ArrowDown once per enabled button brings the current index
      back to the enabled button it started on. After a wrong click the
      current index stays on the disabled button while the tab stop moves;
      `StepsDownCycles` covers cycling from any enabled button, the tab
      stop included. */
  lemma ArrowDownCycles(s: ChoiceState)
    requires !s.answered && 0 <= s.currentIndex < |s.buttons| && !s.buttons[s.currentIndex].disabled
    ensures PressArrowDown(s, CountEnabled(s.buttons)).currentIndex == s.currentIndex
  {
    PressArrowDownSteps(s, CountEnabled(s.buttons));
    StepsDownCycles(s.buttons, s.currentIndex);
  }

  // ---------------------------------------------------------------------
  // The widget object
  // ---------------------------------------------------------------------

  class MultipleChoiceWidget {
    const page: Page.WidgetPage
    const buttons: array<ChoiceButton>
    var answered: bool
    var currentIndex: int
    var feedbackCorrect: Feedback
    var feedbackIncorrect: Feedback

    function State(): ChoiceState
      reads this, buttons
    {
      ChoiceState(buttons[..], answered, currentIndex, feedbackCorrect, feedbackIncorrect)
    }

    ghost predicate Valid()
      reads this, buttons
    {
      Consistent(State())
    }

    /** `new MultipleChoiceWidget(container, page)`: caches the buttons and
        feedback regions found in the container, hides the feedback and
        sets up the roving tab stop. */
    constructor (page: Page.WidgetPage, markup: seq<ChoiceButton>,
                 hasCorrectFeedback: bool, hasIncorrectFeedback: bool)
      ensures this.page == page && fresh(buttons)
      ensures State() == Initial(markup, hasCorrectFeedback, hasIncorrectFeedback)
      ensures Valid()
    {
      this.page := page;
      buttons := new ChoiceButton[|markup|](i requires 0 <= i < |markup| => markup[i]);
      answered := false;
      currentIndex := 0;
      feedbackCorrect := if hasCorrectFeedback then Present(false) else Absent;
      feedbackIncorrect := if hasIncorrectFeedback then Present(false) else Absent;
      new;
      InitializeAccessibility();
      InitialIsConsistent(markup, hasCorrectFeedback, hasIncorrectFeedback);
    }

    method InitializeAccessibility()
      modifies buttons
      ensures buttons[..] == if buttons.Length == 0 then old(buttons[..]) else RovedTo(old(buttons[..]), 0)
    {
      if buttons.Length == 0 {
        return;
      }
      for i := 0 to buttons.Length
        invariant forall j :: 0 <= j < i ==> buttons[j] == old(buttons[j]).(tabindex := if j == 0 then 0 else -1)
        invariant forall j :: i <= j < buttons.Length ==> buttons[j] == old(buttons[j])
      {
        buttons[i] := buttons[i].(tabindex := if i == 0 then 0 else -1);
      }
    }

    /** A click on button `index`. */
    method HandleChoice(index: int)
      requires Valid() && 0 <= index < buttons.Length
      modifies this`answered, this`currentIndex, this`feedbackCorrect, this`feedbackIncorrect,
               buttons, page`correctSounds, page`celebrations
      ensures Valid()
      ensures State() == Choose(old(State()), index)
      ensures page.correctSounds == old(page.correctSounds) + (if AnswersCorrectly(old(State()), index) then 1 else 0)
      ensures page.celebrations == old(page.celebrations) + (if AnswersCorrectly(old(State()), index) then 1 else 0)
    {
      EventsKeepConsistent(State(), "", index);
      if answered {
        return;
      }
      var isCorrect := buttons[index].correct;
      UpdateSelection(index);
      if isCorrect {
        HandleCorrectAnswer();
      } else {
        HandleIncorrectAnswer(index);
      }
    }

    method UpdateSelection(newIndex: int)
      modifies buttons, this`currentIndex
      ensures buttons[..] == Selected(old(buttons[..]), newIndex)
      ensures currentIndex == newIndex
    {
      for i := 0 to buttons.Length
        invariant forall j :: 0 <= j < i ==> buttons[j] == old(buttons[j]).(ariaChecked := j == newIndex)
        invariant forall j :: i <= j < buttons.Length ==> buttons[j] == old(buttons[j])
      {
        buttons[i] := buttons[i].(ariaChecked := i == newIndex);
      }
      currentIndex := newIndex;
    }

    method HandleCorrectAnswer()
      modifies this`answered, this`feedbackCorrect, this`feedbackIncorrect,
               buttons, page`correctSounds, page`celebrations
      ensures answered
      ensures feedbackCorrect == Show(old(feedbackCorrect))
      ensures feedbackIncorrect == Hide(old(feedbackIncorrect))
      ensures buttons[..] == AllDisabled(old(buttons[..]))
      ensures page.correctSounds == old(page.correctSounds) + 1
      ensures page.celebrations == old(page.celebrations) + 1
    {
      answered := true;
      if feedbackCorrect.Present? {
        feedbackCorrect := Present(true);
      }
      if feedbackIncorrect.Present? {
        feedbackIncorrect := Present(false);
      }
      for i := 0 to buttons.Length
        invariant forall j :: 0 <= j < i ==> buttons[j] == old(buttons[j]).(disabled := true, ariaDisabled := true)
        invariant forall j :: i <= j < buttons.Length ==> buttons[j] == old(buttons[j])
        invariant answered && feedbackCorrect == Show(old(feedbackCorrect)) && feedbackIncorrect == Hide(old(feedbackIncorrect))
        invariant page.correctSounds == old(page.correctSounds) && page.celebrations == old(page.celebrations)
      {
        buttons[i] := buttons[i].(disabled := true, ariaDisabled := true);
      }
      page.PlayCorrectSound();
      page.Celebrate();
    }

    method HandleIncorrectAnswer(index: int)
      requires 0 <= index < buttons.Length && currentIndex == index
      modifies this`feedbackIncorrect, buttons
      ensures feedbackIncorrect == Show(old(feedbackIncorrect))
      ensures var disabled := DisabledAt(old(buttons[..]), index);
        var next := NextAvailable(disabled, index);
        buttons[..] == if next == -1 then disabled else RovedTo(disabled, next)
    {
      buttons[index] := buttons[index].(disabled := true, ariaDisabled := true);
      if feedbackIncorrect.Present? {
        feedbackIncorrect := Present(true);
      }
      FocusNextAvailableButton();
    }

    /** Moves the tab stop to the next enabled button after the current
        one, wrapping to the start. */
    method FocusNextAvailableButton()
      requires 0 <= currentIndex < buttons.Length
      modifies buttons
      ensures var next := NextAvailable(old(buttons[..]), currentIndex);
        buttons[..] == if next == -1 then old(buttons[..]) else RovedTo(old(buttons[..]), next)
    {
      ghost var bs := buttons[..];
      var available := CountAvailable();
      if available == 0 {
        assert NextAvailable(bs, currentIndex) == -1 by {
          CountEnabledPositive(bs);
          FirstEnabledSpec(bs, currentIndex + 1, buttons.Length);
          FirstEnabledSpec(bs, 0, currentIndex);
        }
      } else {
        var next := FindNext();
        if next != -1 {
          assert 0 <= next < buttons.Length by {
            FirstEnabledSpec(bs, currentIndex + 1, buttons.Length);
            FirstEnabledSpec(bs, 0, currentIndex);
          }
          for i := 0 to buttons.Length
            invariant forall j :: 0 <= j < i ==> buttons[j] == bs[j].(tabindex := -1)
            invariant forall j :: i <= j < buttons.Length ==> buttons[j] == bs[j]
          {
            buttons[i] := buttons[i].(tabindex := -1);
          }
          buttons[next] := buttons[next].(tabindex := 0);
          assert buttons[..] == RovedTo(bs, next);
        }
      }
    }

    /** The length of the `availableButtons` filter. */
    method CountAvailable() returns (available: nat)
      ensures available == CountEnabled(buttons[..])
    {
      available := 0;
      for i := 0 to buttons.Length
        invariant available == CountEnabled(buttons[..i])
      {
        assert buttons[..i + 1][..i] == buttons[..i];
        if !buttons[i].disabled {
          available := available + 1;
        }
      }
      assert buttons[..buttons.Length] == buttons[..];
    }

    /** The two searches of `focusNextAvailableButton`: forward from the
        current button, then from the start up to it. */
    method FindNext() returns (next: int)
      requires 0 <= currentIndex < buttons.Length
      ensures next == NextAvailable(buttons[..], currentIndex)
    {
      next := -1;
      var i := currentIndex + 1;
      while i < buttons.Length
        invariant currentIndex + 1 <= i <= buttons.Length
        invariant FirstEnabled(buttons[..], i, buttons.Length) == FirstEnabled(buttons[..], currentIndex + 1, buttons.Length)
      {
        if !buttons[i].disabled {
          next := i;
          break;
        }
        i := i + 1;
      }
      if next == -1 {
        i := 0;
        while i < currentIndex
          invariant 0 <= i <= currentIndex
          invariant FirstEnabled(buttons[..], i, currentIndex) == FirstEnabled(buttons[..], 0, currentIndex)
        {
          if !buttons[i].disabled {
            next := i;
            break;
          }
          i := i + 1;
        }
      }
    }

    /** A key pressed while button `index` has focus. */
    method HandleKeydown(key: string, index: int)
      requires Valid() && 0 <= index < buttons.Length
      modifies this`answered, this`currentIndex, this`feedbackCorrect, this`feedbackIncorrect,
               buttons, page`correctSounds, page`celebrations
      ensures Valid()
      ensures State() == Keydown(old(State()), key, index)
      ensures page.correctSounds == old(page.correctSounds) + (if KeyAnswersCorrectly(old(State()), key, index) then 1 else 0)
      ensures page.celebrations == old(page.celebrations) + (if KeyAnswersCorrectly(old(State()), key, index) then 1 else 0)
    {
      if answered {
        return;
      }
      if key == " " || key == "Enter" {
        HandleChoice(index);
        return;
      }
      EventsKeepConsistent(State(), key, index);
      NavigationKey(State(), key, index);
      var targetIndex := FindKeyTarget(key, index);
      if targetIndex != -1 {
        MoveFocus(targetIndex);
      }
    }

    /** The arrow, Home and End branches of `handleKeydown`: the button a
        navigation key moves to, or -1. */
    method FindKeyTarget(key: string, index: int) returns (targetIndex: int)
      requires 0 <= index < buttons.Length
      ensures targetIndex == KeyTarget(buttons[..], key, index)
      ensures targetIndex == -1 || (0 <= targetIndex < buttons.Length && !buttons[targetIndex].disabled)
    {
      NextEnabledIndexSpec(buttons[..], index, 1);
      NextEnabledIndexSpec(buttons[..], index, -1);
      NextEnabledIndexSpec(buttons[..], -1, 1);
      NextEnabledIndexSpec(buttons[..], buttons.Length, -1);
      targetIndex := -1;
      if key == "ArrowDown" || key == "ArrowRight" {
        targetIndex := GetNextEnabledIndex(index, 1);
      } else if key == "ArrowUp" || key == "ArrowLeft" {
        targetIndex := GetNextEnabledIndex(index, -1);
      } else if key == "Home" {
        targetIndex := GetNextEnabledIndex(-1, 1);
      } else if key == "End" {
        targetIndex := GetNextEnabledIndex(buttons.Length, -1);
      }
    }

    /** Steps from `start` in direction `dir` around the group, at most once
        round, and answers the first enabled button met, or -1. */
    method GetNextEnabledIndex(start: int, dir: int) returns (r: int)
      requires -1 <= start <= buttons.Length && (dir == 1 || dir == -1) && (start == -1 ==> dir == 1)
      ensures r == NextEnabledIndex(buttons[..], start, dir)
    {
      var buttonCount := buttons.Length;
      var newIndex := start;
      for i := 0 to buttonCount
        invariant i == 0 ==> newIndex == start
        invariant i > 0 ==> newIndex == Probe(start, dir, i, buttonCount)
        invariant buttonCount > 0 ==>
          NextEnabledIndex(buttons[..], start, dir) == NextEnabledFrom(buttons[..], start, dir, i + 1)
      {
        // The left operand is never negative, so Dafny's `%` agrees here
        // with JavaScript's truncating remainder.
        assert newIndex + dir + buttonCount >= 0;
        ProbeStep(start, dir, i, buttonCount, newIndex);
        newIndex := (newIndex + dir + buttonCount) % buttonCount;
        if !buttons[newIndex].disabled {
          return newIndex;
        }
      }
      return -1;
    }

    method MoveFocus(newIndex: int)
      requires 0 <= newIndex < buttons.Length
      modifies buttons, this`currentIndex
      ensures buttons[..] == RovedTo(old(buttons[..]), newIndex)
      ensures currentIndex == newIndex
    {
      for i := 0 to buttons.Length
        invariant forall j :: 0 <= j < i ==> buttons[j] == old(buttons[j]).(tabindex := if j == newIndex then 0 else -1)
        invariant forall j :: i <= j < buttons.Length ==> buttons[j] == old(buttons[j])
      {
        buttons[i] := buttons[i].(tabindex := if i == newIndex then 0 else -1);
      }
      currentIndex := newIndex;
    }
  }
}
