/** The arrange-code widget: blocks of code that the learner drags into
    order. Blocks are numbered 0 .. n-1 in the order the page lists them;
    each carries an optional ordering key (its `data-index` attribute), and
    the widget's container holds them in a current child order. */
module ArrangeCode {
  import opened Wrappers
  import Page

  /** `a < b` on strings as JavaScript evaluates it: character by
      character, and a proper prefix comes first. */
  predicate LexLess(a: string, b: string)
  {
    if a == [] then b != []
    else if b == [] then false
    else if a[0] != b[0] then a[0] < b[0]
    else LexLess(a[1..], b[1..])
  }

  lemma {:induction false} LexLessIrreflexive(a: string)
    ensures !LexLess(a, a)
  {
    if a != [] {
      LexLessIrreflexive(a[1..]);
    }
  }

  lemma {:induction false} LexLessTransitive(a: string, b: string, c: string)
    requires LexLess(a, b) && LexLess(b, c)
    ensures LexLess(a, c)
  {
    if a != [] && b != [] && c != [] && a[0] == b[0] && b[0] == c[0] {
      LexLessTransitive(a[1..], b[1..], c[1..]);
    }
  }

  lemma {:induction false} LexLessTotal(a: string, b: string)
    requires a != b
    ensures LexLess(a, b) || LexLess(b, a)
  {
    if a != [] && b != [] && a[0] == b[0] {
      assert a == [a[0]] + a[1..] && b == [b[0]] + b[1..];
      LexLessTotal(a[1..], b[1..]);
    }
  }

  /** "Not after": `!(b < a)`, the relation the scan accepts between
      neighbours. It is a total preorder that is in fact an order. */
  lemma NotAfterTransitive(a: string, b: string, c: string)
    requires !LexLess(b, a) && !LexLess(c, b)
    ensures !LexLess(c, a)
  {
    if LexLess(c, a) {
      if a != b {
        LexLessTotal(a, b);
        if b != c {
          LexLessTotal(b, c);
          LexLessTransitive(a, b, c);
          LexLessTransitive(a, c, a);
        } else {
          LexLessTransitive(a, c, a);
        }
        LexLessIrreflexive(a);
      } else if b != c {
        LexLessTotal(b, c);
        LexLessTransitive(b, c, b);
        LexLessIrreflexive(b);
      }
    }
  }

  /** A `data-index` value the scan can use: present and not empty. */
  predicate HasKey(k: Option<string>)
  {
    k.Some? && k.value != ""
  }

  /** One neighbouring pair passes the scan: both keys usable and the
      first not after the second. */
  predicate PairInOrder(first: Option<string>, second: Option<string>)
  {
    HasKey(first) && HasKey(second) && !LexLess(second.value, first.value)
  }

  /** Every neighbouring pair passes the scan. */
  predicate InOrder(keys: seq<Option<string>>)
  {
    forall i :: 0 <= i < |keys| - 1 ==> PairInOrder(keys[i], keys[i + 1])
  }

  /** Every key is usable and no key comes after a later one. */
  predicate Sorted(keys: seq<Option<string>>)
  {
    (forall i :: 0 <= i < |keys| ==> HasKey(keys[i])) &&
    (forall i, j :: 0 <= i < j < |keys| ==> !LexLess(keys[j].value, keys[i].value))
  }

  /** The order check: a pairwise scan that fails on the first pair with a
      missing or empty key, or whose first key is after the second. */
  method CheckOrder(keys: seq<Option<string>>) returns (ok: bool)
    ensures ok == InOrder(keys)
  {
    var i := 0;
    while i < |keys| - 1
      invariant 0 <= i && (i == 0 || i < |keys|)
      invariant forall j :: 0 <= j < i ==> PairInOrder(keys[j], keys[j + 1])
    {
      var first, second := keys[i], keys[i + 1];
      if first.None? || first.value == "" || second.None? || second.value == ""
         || LexLess(second.value, first.value)
      {
        return false;
      }
      i := i + 1;
    }
    return true;
  }

  /** The scan accepts exactly the orders of at most one block and the
      orders whose keys are all usable and sorted. */
  lemma InOrderIsSorted(keys: seq<Option<string>>)
    ensures InOrder(keys) <==> |keys| <= 1 || Sorted(keys)
  {
    if InOrder(keys) && |keys| > 1 {
      forall i | 0 <= i < |keys| ensures HasKey(keys[i]) {
        if i < |keys| - 1 {
          assert PairInOrder(keys[i], keys[i + 1]);
        } else {
          assert PairInOrder(keys[i - 1], keys[i]);
        }
      }
      forall i, j | 0 <= i < j < |keys| ensures !LexLess(keys[j].value, keys[i].value) {
        InOrderSpan(keys, i, j);
      }
    }
  }

  lemma {:induction false} InOrderSpan(keys: seq<Option<string>>, i: nat, j: nat)
    requires InOrder(keys) && i < j < |keys|
    ensures HasKey(keys[i]) && HasKey(keys[j]) && !LexLess(keys[j].value, keys[i].value)
  {
    assert PairInOrder(keys[i], keys[i + 1]);
    assert PairInOrder(keys[j - 1], keys[j]);
    if i < j - 1 {
      InOrderSpan(keys, i, j - 1);
      NotAfterTransitive(keys[i].value, keys[j - 1].value, keys[j].value);
    }
  }

  /** No pair to compare: accepted, whatever the keys. */
  lemma ShortOrderAccepted(keys: seq<Option<string>>)
    requires |keys| <= 1
    ensures InOrder(keys)
  {
  }

  /** A missing or empty key in any neighbouring pair fails the check. */
  lemma MissingKeyRejected(keys: seq<Option<string>>, i: nat)
    requires i + 1 < |keys| && (!HasKey(keys[i]) || !HasKey(keys[i + 1]))
    ensures !InOrder(keys)
  {
    assert !PairInOrder(keys[i], keys[i + 1]);
  }

  /** Equal keys are in order. */
  lemma EqualKeysAccepted(k: string)
    requires k != ""
    ensures InOrder([Some(k), Some(k)])
  {
    LexLessIrreflexive(k);
  }

  /** Keys compare as strings, not as numbers. */
  lemma KeysCompareAsStrings()
    ensures !InOrder([Some("9"), Some("10")])
    ensures InOrder([Some("10"), Some("9")])
  {
    var rejected, accepted := [Some("9"), Some("10")], [Some("10"), Some("9")];
    assert LexLess("10", "9");
    assert !PairInOrder(rejected[0], rejected[1]);
    assert !LexLess("9", "10");
    assert PairInOrder(accepted[0], accepted[1]);
  }

  predicate Distinct(s: seq<nat>)
  {
    forall i, j :: 0 <= i < j < |s| ==> s[i] != s[j]
  }

  /** The position of `x` in `s`: its first occurrence. */
  function IndexOf(s: seq<nat>, x: nat): (i: nat)
    requires x in s
    ensures i < |s| && s[i] == x && x !in s[..i]
  {
    if s[0] == x then 0 else 1 + IndexOf(s[1..], x)
  }

  /** The child order after the block at position `from` is taken out and
      put back before the child that is then at position `to`, or at the
      end when no child is at `to` any more. */
  function Moved(order: seq<nat>, from: nat, to: nat): seq<nat>
    requires from < |order| && to < |order|
  {
    var rest := order[..from] + order[from + 1..];
    if to >= |rest| then rest + [order[from]] else rest[..to] + [order[from]] + rest[to..]
  }

  /** The moved block ends at exactly position `to`, and the other blocks
      keep their relative order. */
  lemma MovedPlacesBlock(order: seq<nat>, from: nat, to: nat)
    requires from < |order| && to < |order|
    ensures var m := Moved(order, from, to);
      |m| == |order| && m[to] == order[from] &&
      m[..to] + m[to + 1..] == order[..from] + order[from + 1..]
  {
    var rest := order[..from] + order[from + 1..];
    var m := Moved(order, from, to);
    if to < |rest| {
      assert m[..to] == rest[..to];
      assert m[to + 1..] == rest[to..];
      assert rest[..to] + rest[to..] == rest;
    } else {
      assert m[..to] == rest;
    }
  }

  /** A move is a permutation of the blocks. */
  lemma MovedIsPermutation(order: seq<nat>, from: nat, to: nat)
    requires from < |order| && to < |order|
    ensures multiset(Moved(order, from, to)) == multiset(order)
  {
    var rest := order[..from] + order[from + 1..];
    assert order == order[..from] + [order[from]] + order[from + 1..];
    assert multiset(order) == multiset(rest) + multiset{order[from]};
    if to < |rest| {
      assert rest == rest[..to] + rest[to..];
      assert multiset(rest) == multiset(rest[..to]) + multiset(rest[to..]);
    }
  }

  /** Taking one block out of a distinct order leaves a distinct order
      without that block. */
  lemma TakenOutDistinct(order: seq<nat>, from: nat)
    requires from < |order| && Distinct(order)
    ensures var rest := order[..from] + order[from + 1..];
      Distinct(rest) && order[from] !in rest
  {
    var rest := order[..from] + order[from + 1..];
    forall i, j | 0 <= i < j < |rest| ensures rest[i] != rest[j] {
      var i' := if i < from then i else i + 1;
      var j' := if j < from then j else j + 1;
      assert rest[i] == order[i'] && rest[j] == order[j'];
    }
    forall k | 0 <= k < |rest| ensures rest[k] != order[from] {
      assert rest[k] == order[if k < from then k else k + 1];
    }
  }

  /** An order is distinct when the block at `to` differs from all the
      others and the others are distinct. */
  lemma DistinctAround(m: seq<nat>, to: nat)
    requires to < |m|
    requires Distinct(m[..to] + m[to + 1..]) && m[to] !in m[..to] + m[to + 1..]
    ensures Distinct(m)
  {
    var others := m[..to] + m[to + 1..];
    forall i, j | 0 <= i < j < |m| ensures m[i] != m[j] {
      if i != to && j != to {
        var i' := if i < to then i else i - 1;
        var j' := if j < to then j else j - 1;
        assert others[i'] == m[i] && others[j'] == m[j];
      } else if i == to {
        assert others[j - 1] == m[j];
      } else {
        assert others[i] == m[i];
      }
    }
  }

  /** A move keeps every block number distinct. */
  lemma MovedKeepsDistinct(order: seq<nat>, from: nat, to: nat)
    requires from < |order| && to < |order| && Distinct(order)
    ensures Distinct(Moved(order, from, to))
  {
    MovedPlacesBlock(order, from, to);
    TakenOutDistinct(order, from);
    DistinctAround(Moved(order, from, to), to);
  }

  /** A move keeps the blocks a valid child order: the same blocks, each
      once. */
  lemma MovedKeepsBlocks(order: seq<nat>, from: nat, to: nat, n: nat)
    requires from < |order| && to < |order| && Distinct(order)
    requires forall i :: 0 <= i < |order| ==> order[i] < n
    ensures var m := Moved(order, from, to);
      |m| == |order| && Distinct(m) &&
      (forall i :: 0 <= i < |m| ==> m[i] < n) &&
      (forall b :: b in m <==> b in order)
  {
    var m := Moved(order, from, to);
    MovedKeepsDistinct(order, from, to);
    MovedIsPermutation(order, from, to);
    forall b ensures b in m <==> b in order {
      assert b in m <==> b in multiset(m);
      assert b in order <==> b in multiset(order);
    }
    forall i | 0 <= i < |m| ensures m[i] < n {
      assert m[i] in order;
    }
  }

  /** The keys the order check reads: those of the blocks in child order. */
  function KeysAt(keys: seq<Option<string>>, order: seq<nat>): (r: seq<Option<string>>)
    requires forall i :: 0 <= i < |order| ==> order[i] < |keys|
    ensures |r| == |order| && forall i :: 0 <= i < |order| ==> r[i] == keys[order[i]]
  {
    seq(|order|, i requires 0 <= i < |order| => keys[order[i]])
  }

  /** Inserting one block between two runs adds exactly that block's key
      to the keys the order check reads. */
  lemma KeysAtInsert(keys: seq<Option<string>>, p: seq<nat>, x: nat, q: seq<nat>)
    requires x < |keys|
    requires forall i :: 0 <= i < |p| ==> p[i] < |keys|
    requires forall i :: 0 <= i < |q| ==> q[i] < |keys|
    ensures var s, t := p + [x] + q, p + q;
      (forall i :: 0 <= i < |s| ==> s[i] < |keys|) &&
      (forall i :: 0 <= i < |t| ==> t[i] < |keys|) &&
      multiset(KeysAt(keys, s)) == multiset(KeysAt(keys, t)) + multiset{keys[x]}
  {
    var s, t := p + [x] + q, p + q;
    forall i | 0 <= i < |s| ensures s[i] < |keys| {
      if i > |p| {
        assert s[i] == q[i - |p| - 1];
      }
    }
    forall i | 0 <= i < |t| ensures t[i] < |keys| {
      if i >= |p| {
        assert t[i] == q[i - |p|];
      }
    }
    var kp, kq := KeysAt(keys, p), KeysAt(keys, q);
    assert KeysAt(keys, s) == kp + [keys[x]] + kq;
    assert KeysAt(keys, t) == kp + kq;
  }

  /** A move only rearranges the keys the order check reads: the same
      keys, each as often as before. */
  lemma KeysAtMoved(keys: seq<Option<string>>, order: seq<nat>, from: nat, to: nat)
    requires from < |order| && to < |order|
    requires forall i :: 0 <= i < |order| ==> order[i] < |keys|
    ensures var m := Moved(order, from, to);
      (forall i :: 0 <= i < |m| ==> m[i] < |keys|) &&
      multiset(KeysAt(keys, m)) == multiset(KeysAt(keys, order))
  {
    var a, x, c := order[..from], order[from], order[from + 1..];
    assert order == a + [x] + c;
    KeysAtInsert(keys, a, x, c);
    var rest := a + c;
    if to >= |rest| {
      KeysAtInsert(keys, rest, x, []);
      assert rest + [x] + [] == rest + [x] && rest + [] == rest;
    } else {
      var p, q := rest[..to], rest[to..];
      assert rest == p + q;
      KeysAtInsert(keys, p, x, q);
    }
  }

  /** Blocks keyed "3", "1", "2" in page order: dragging "1" onto "3" gives
      1, 3, 2, which is not in order; then dragging "2" onto "3" gives
      1, 2, 3, which is. */
  lemma DropScenario()
    ensures IndexOf([0, 1, 2], 1) == 1 && IndexOf([0, 1, 2], 0) == 0
    ensures Moved([0, 1, 2], 1, 0) == [1, 0, 2]
    ensures IndexOf([1, 0, 2], 2) == 2 && IndexOf([1, 0, 2], 0) == 1
    ensures Moved([1, 0, 2], 2, 1) == [1, 2, 0]
    ensures var keys := [Some("3"), Some("1"), Some("2")];
      !InOrder(KeysAt(keys, [1, 0, 2])) && InOrder(KeysAt(keys, [1, 2, 0]))
  {
    assert [0, 1, 2][1..] == [1, 2];
    assert [1, 0, 2][1..] == [0, 2] && [0, 2][1..] == [2];
    DropScenarioFirstMove();
    DropScenarioSecondMove();
    DropScenarioChecks();
  }

  lemma DropScenarioFirstMove()
    ensures Moved([0, 1, 2], 1, 0) == [1, 0, 2]
  {
    assert [0, 1, 2][..1] + [0, 1, 2][2..] == [0, 2];
  }

  lemma DropScenarioSecondMove()
    ensures Moved([1, 0, 2], 2, 1) == [1, 2, 0]
  {
    assert [1, 0, 2][..2] + [1, 0, 2][3..] == [1, 0];
  }

  lemma DropScenarioChecks()
    ensures var keys := [Some("3"), Some("1"), Some("2")];
      !InOrder(KeysAt(keys, [1, 0, 2])) && InOrder(KeysAt(keys, [1, 2, 0]))
  {
    var keys := [Some("3"), Some("1"), Some("2")];
    var k1 := KeysAt(keys, [1, 0, 2]);
    assert k1[1] == Some("3") && k1[2] == Some("2");
    assert !PairInOrder(k1[1], k1[2]) by {
      assert LexLess("2", "3");
    }
    var k2 := KeysAt(keys, [1, 2, 0]);
    assert k2 == [Some("1"), Some("2"), Some("3")];
    assert !LexLess("2", "1") && !LexLess("3", "2");
    assert PairInOrder(k2[0], k2[1]) && PairInOrder(k2[1], k2[2]);
  }

  /** The CSS classes a block carries during a drag. */
  datatype BlockFlags = BlockFlags(dragged: bool, dragoverUp: bool, dragoverDown: bool)

  /** The position recorded when a drag starts; JavaScript's `undefined`
      before any drag and `null` after one has ended. */
  datatype RecordedIndex = Undefined | Null | At(index: int)

  /** `recorded > target` in JavaScript: `undefined` compares false and
      `null` compares as 0. */
  predicate RecordedAbove(recorded: RecordedIndex, target: int)
  {
    match recorded
    case Undefined => false
    case Null => 0 > target
    case At(i) => i > target
  }

  /** `recorded < target` in JavaScript. */
  predicate RecordedBelow(recorded: RecordedIndex, target: int)
  {
    match recorded
    case Undefined => false
    case Null => 0 < target
    case At(i) => i < target
  }

  /** The flags of a block the drag enters at position `target`. */
  function Entered(f: BlockFlags, recorded: RecordedIndex, target: int): BlockFlags
  {
    if RecordedAbove(recorded, target) then f.(dragoverUp := true)
    else if RecordedBelow(recorded, target) then f.(dragoverDown := true)
    else f
  }

  /** While a drag is under way, a block above the start is marked
      `dragover-up`, one below it `dragover-down`, and the start itself
      neither; no mark is ever taken away on entry. */
  lemma EnteredDuringDrag(f: BlockFlags, start: int, target: int)
    ensures var g := Entered(f, At(start), target);
      g.dragged == f.dragged &&
      (g.dragoverUp <==> f.dragoverUp || start > target) &&
      (g.dragoverDown <==> f.dragoverDown || start < target)
  {
  }

  /** With no drag recorded, entering a block marks nothing before the
      first drag; after a drag has ended, the recorded `null` compares as
      position 0, so every block below the first is marked `dragover-down`. */
  lemma EnteredWithoutDrag(f: BlockFlags, target: nat)
    ensures Entered(f, Undefined, target) == f
    ensures Entered(f, Null, target) == if target > 0 then f.(dragoverDown := true) else f
  {
  }

  class ArrangeCodeWidget {
    const page: Page.WidgetPage
    /** The ordering key of each block, by block number. */
    const keys: seq<Option<string>>
    /** The CSS flags of each block, by block number. */
    const flags: array<BlockFlags>
    /** The container's children: block numbers, first child first. */
    var order: seq<nat>
    /** The block of the latest drag start, kept after the drag ends. */
    var draggedContainer: Option<nat>
    var draggedContainerIndex: RecordedIndex
    /** Whether the code container carries the `correct` class. */
    var correct: bool

    ghost predicate Valid()
      reads this
    {
      flags.Length == |keys| && |order| == |keys| && Distinct(order) &&
      (forall i :: 0 <= i < |order| ==> order[i] < |keys|) &&
      (draggedContainer.Some? ==> draggedContainer.value in order)
    }

    /** Only the block of a drag in progress carries the `dragged` class;
        between drags no block does. */
    ghost predicate DragMarked()
      reads this, flags
    {
      forall b :: 0 <= b < flags.Length && flags[b].dragged ==>
        draggedContainer == Some(b) && draggedContainerIndex.At?
    }

    constructor (page: Page.WidgetPage, keys: seq<Option<string>>)
      ensures Valid() && DragMarked() && fresh(flags)
      ensures this.page == page && this.keys == keys
      ensures order == seq(|keys|, i => i)
      ensures forall b :: 0 <= b < flags.Length ==> flags[b] == BlockFlags(false, false, false)
      ensures draggedContainer == None && draggedContainerIndex == Undefined && !correct
    {
      this.page := page;
      this.keys := keys;
      flags := new BlockFlags[|keys|](_ => BlockFlags(false, false, false));
      order := seq(|keys|, i => i);
      draggedContainer := None;
      draggedContainerIndex := Undefined;
      correct := false;
    }

    /** The learner picks up `block`. */
    method OnDragStart(block: nat)
      requires Valid() && block in order
      modifies this`draggedContainer, this`draggedContainerIndex, flags
      ensures Valid()
      ensures draggedContainer == Some(block)
      ensures draggedContainerIndex == At(IndexOf(order, block))
      ensures flags[..] == old(flags[..])[block := old(flags[block]).(dragged := true)]
      ensures old(DragMarked()) && !old(draggedContainerIndex).At? ==> DragMarked()
    {
      draggedContainer := Some(block);
      flags[block] := flags[block].(dragged := true);
      draggedContainerIndex := At(IndexOf(order, block));
    }

    /** The drag enters `target`. */
    method OnDragEnter(target: nat)
      requires Valid() && target in order
      modifies flags
      ensures flags[..] == old(flags[..])[target := Entered(old(flags[target]), draggedContainerIndex, IndexOf(order, target))]
      ensures old(DragMarked()) ==> DragMarked()
    {
      var targetIndex := IndexOf(order, target);
      if RecordedAbove(draggedContainerIndex, targetIndex) {
        flags[target] := flags[target].(dragoverUp := true);
      } else if RecordedBelow(draggedContainerIndex, targetIndex) {
        flags[target] := flags[target].(dragoverDown := true);
      }
    }

    /** The drag leaves `target`. */
    method OnDragLeave(target: nat)
      requires Valid() && target in order
      modifies flags
      ensures flags[..] == old(flags[..])[target := old(flags[target]).(dragoverUp := false, dragoverDown := false)]
      ensures old(DragMarked()) ==> DragMarked()
    {
      ClearDragover(target);
    }

    /** Removes both drag-over classes from `target`. */
    method ClearDragover(target: nat)
      requires Valid() && target in order
      modifies flags
      ensures flags[..] == old(flags[..])[target := old(flags[target]).(dragoverUp := false, dragoverDown := false)]
      ensures old(DragMarked()) ==> DragMarked()
    {
      flags[target] := flags[target].(dragoverUp := false);
      flags[target] := flags[target].(dragoverDown := false);
    }

    /** Takes the child at position `from` out of the container and puts it
        back before the child then at position `to`, or last when there is
        none. */
    method MoveChild(from: nat, to: nat)
      requires Valid() && from < |order| && to < |order|
      modifies this`order
      ensures Valid()
      ensures order == Moved(old(order), from, to)
    {
      MovedKeepsBlocks(order, from, to, |keys|);
      var rest := order[..from] + order[from + 1..];
      if to >= |rest| {
        order := rest + [order[from]];
      } else {
        order := rest[..to] + [order[from]] + rest[to..];
      }
    }

    /** Re-checks the order after a move: marks the container and
        celebrates when it is in order, clears the mark otherwise. */
    method UpdateCorrectMark()
      requires Valid()
      modifies this`correct, page`correctSounds, page`celebrations
      ensures correct == InOrder(KeysAt(keys, order))
      ensures page.correctSounds == old(page.correctSounds) + (if correct then 1 else 0)
      ensures page.celebrations == old(page.celebrations) + (if correct then 1 else 0)
    {
      var ordered := CheckOrder(KeysAt(keys, order));
      if ordered {
        correct := true;
        page.PlayCorrectSound();
        page.Celebrate();
      } else {
        correct := false;
      }
    }

    /** The dragged block is dropped on `target`. */
    method OnDrop(target: nat)
      requires Valid() && target in order
      modifies this`order, this`correct, flags, page`actionSounds, page`correctSounds, page`celebrations
      ensures Valid()
      ensures old(draggedContainer).None? || old(draggedContainer) == Some(target) ==>
        order == old(order) && correct == old(correct) && flags[..] == old(flags[..]) &&
        page.actionSounds == old(page.actionSounds) && page.correctSounds == old(page.correctSounds) &&
        page.celebrations == old(page.celebrations)
      ensures old(draggedContainer).Some? && old(draggedContainer) != Some(target) ==>
        order == Moved(old(order), IndexOf(old(order), old(draggedContainer).value), IndexOf(old(order), target))
      ensures old(draggedContainer).Some? && old(draggedContainer) != Some(target) ==>
        flags[..] == old(flags[..])[target := old(flags[target]).(dragoverUp := false, dragoverDown := false)]
      ensures old(draggedContainer).Some? && old(draggedContainer) != Some(target) ==>
        correct == InOrder(KeysAt(keys, order)) &&
        page.actionSounds == old(page.actionSounds) + 1 &&
        page.correctSounds == old(page.correctSounds) + (if correct then 1 else 0) &&
        page.celebrations == old(page.celebrations) + (if correct then 1 else 0)
      ensures old(DragMarked()) ==> DragMarked()
    {
      var targetIndex := IndexOf(order, target);
      if draggedContainer.None? || draggedContainer == Some(target) {
        return;
      }
      ClearDragover(target);
      MoveChild(IndexOf(order, draggedContainer.value), targetIndex);
      page.PlayActionSound();
      UpdateCorrectMark();
    }

    /** The drag ends, dropped or not. */
    method OnDragEnd()
      requires Valid() && draggedContainer.Some?
      modifies this`draggedContainerIndex, flags
      ensures Valid()
      ensures draggedContainerIndex == Null
      ensures flags[..] == old(flags[..])[draggedContainer.value := old(flags[draggedContainer.value]).(dragged := false)]
      ensures old(DragMarked()) ==> DragMarked()
    {
      flags[draggedContainer.value] := flags[draggedContainer.value].(dragged := false);
      draggedContainerIndex := Null;
    }
  }
}
