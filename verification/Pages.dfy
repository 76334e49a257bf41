/** Page protections, and undoing a list of changes to them newest first. */
module Pages {
  import opened Words

  const PAGE_SIZE := 0x1000
  const PAGES := TWO32 / PAGE_SIZE

  type Protection = nat

  const PAGE_EXECUTE_READWRITE: Protection := 0x40

  // One entry a page of the address space.
  type Protections = s: seq<Protection> | |s| == PAGES witness seq(PAGES, _ => 0)

  // VirtualProtect acts on every page that [a, a + n) touches, and reports the first page's old protection.
  function Protected(s: Protections, a: nat, n: nat, to: Protection): Protections
    requires 0 < n && a + n <= TWO32
  {
    seq(PAGES, k requires 0 <= k < PAGES => if a / PAGE_SIZE <= k <= (a + n - 1) / PAGE_SIZE then to else s[k])
  }

  function Reported(s: Protections, a: nat): Protection
    requires a < TWO32
  {
    s[a / PAGE_SIZE]
  }

  /** It sets the pages of 4096 bytes that hold a byte of the range, and no others. */
  lemma {:induction false} ProtectedIs(s: Protections, a: nat, n: nat, to: Protection, x: nat)
    requires 0 < n && a + n <= TWO32 && x < TWO32
    ensures (exists y :: a <= y < a + n && y / 4096 == x / 4096) ==> Reported(Protected(s, a, n, to), x) == to
    ensures !(exists y :: a <= y < a + n && y / 4096 == x / 4096) ==> Reported(Protected(s, a, n, to), x) == Reported(s, x)
  {
    var first, last := a / PAGE_SIZE, (a + n - 1) / PAGE_SIZE;
    if first <= x / PAGE_SIZE <= last {
      var y := if x < a then a else if x >= a + n then a + n - 1 else x;
      assert a <= y < a + n && y / 4096 == x / 4096;
    }
  }

  predicate OnePage(a: nat, n: nat) { a % PAGE_SIZE + n <= PAGE_SIZE }

  // The pages of the range are protected alike.
  ghost predicate Uniform(s: Protections, a: nat, n: nat)
    requires 0 < n && a + n <= TWO32
  {
    forall k :: a / PAGE_SIZE <= k <= (a + n - 1) / PAGE_SIZE ==> s[k] == s[a / PAGE_SIZE]
  }

  /**
   Setting a range back to what VirtualProtect reported restores the protections if and only if its pages
   were protected alike, which is so whenever the range does not cross a page boundary.
   */
  lemma {:induction false} PutBackRestores(s: Protections, a: nat, n: nat, to: Protection)
    requires 0 < n && a + n <= TWO32
    ensures Protected(Protected(s, a, n, to), a, n, Reported(s, a)) == s <==> Uniform(s, a, n)
    ensures OnePage(a, n) <==> a / 4096 == (a + n - 1) / 4096
    ensures OnePage(a, n) ==> Uniform(s, a, n)
  {
    var r := Protected(Protected(s, a, n, to), a, n, Reported(s, a));
    assert forall k :: 0 <= k < PAGES ==> r[k] == if a / PAGE_SIZE <= k <= (a + n - 1) / PAGE_SIZE then s[a / PAGE_SIZE] else s[k];
    if Uniform(s, a, n) {
      assert r == s;
    }
  }

  // A change that was made, and what it is undone to.
  datatype Change = Change(a: nat, n: nat, was: Protection)

  predicate InRange(c: Change) { 0 < c.n && c.a + c.n <= TWO32 }

  // Undoing the changes in list order, newest first.
  function Undone(s: Protections, changes: seq<Change>): Protections
    requires forall k :: 0 <= k < |changes| ==> InRange(changes[k])
    decreases |changes|
  {
    if changes == [] then s
    else
      var c := changes[0];
      assert InRange(changes[0]);
      Undone(Protected(s, c.a, c.n, c.was), changes[1..])
  }

  // Undoing one change, and setting a part of what it left again to what is reported of that.
  lemma {:induction false} OneUndone(s: Protections, a: nat, n: nat, to: Protection, was: Protection)
    requires 0 < n && a + n <= TWO32
    ensures Undone(Protected(s, a, n, to), [Change(a, n, was)]) == Protected(s, a, n, was)
  {
    var one := [Change(a, n, was)];
    assert one[1..] == [];
    var u := Protected(Protected(s, a, n, to), a, n, was);
    assert Undone(Protected(s, a, n, to), one) == Undone(u, []) == u;
    assert u == Protected(s, a, n, was);
  }

  lemma {:induction false} SetAgain(s: Protections, a: nat, n: nat, k: nat)
    requires 0 < k <= n && a + n <= TWO32
    ensures
      var r := Protected(s, a, n, Reported(s, a));
      Protected(r, a, k, Reported(r, a)) == r
  {
    var r := Protected(s, a, n, Reported(s, a));
    assert Protected(r, a, k, Reported(r, a)) == r;
  }

  // Set to what is reported of their first page, the pages of a range are as before if and only if they were alike.
  lemma {:induction false} SetIsUniform(s: Protections, a: nat, n: nat)
    requires 0 < n && a + n <= TWO32
    ensures Protected(s, a, n, Reported(s, a)) == s <==> Uniform(s, a, n)
  {
    var r := Protected(s, a, n, Reported(s, a));
    assert forall k :: 0 <= k < PAGES ==> r[k] == if a / PAGE_SIZE <= k <= (a + n - 1) / PAGE_SIZE then s[a / PAGE_SIZE] else s[k];
    if Uniform(s, a, n) {
      assert r == s;
    }
  }

  predicate Touches(c: Change, page: int) { c.a / PAGE_SIZE <= page <= (c.a + c.n - 1) / PAGE_SIZE }

  ghost predicate Touched(changes: seq<Change>, page: int) { exists k :: 0 <= k < |changes| && Touches(changes[k], page) }

  // Change k is the oldest that touches the page.
  ghost predicate OldestAt(changes: seq<Change>, k: int, page: int)
    ensures OldestAt(changes, k, page) ==> 0 <= k < |changes|
  {
    0 <= k < |changes| && Touches(changes[k], page) && forall j :: k < j < |changes| ==> !Touches(changes[j], page)
  }

  // What each page was when the first change to it was made is what that change reported.
  ghost predicate Restorable(changes: seq<Change>, start: Protections)
  {
    forall k, page :: 0 <= k < |changes| && 0 <= page < PAGES && OldestAt(changes, k, page) ==> changes[k].was == start[page]
  }

  // The state all the changes have led to: what they touched is writable, and the rest as it was at the start.
  ghost predicate MadeWritable(s: Protections, changes: seq<Change>, start: Protections)
  {
    forall page :: 0 <= page < PAGES ==> s[page] == if Touched(changes, page) then PAGE_EXECUTE_READWRITE else start[page]
  }

  // What the changes reported: the state of their first page then.
  ghost predicate Reporting(changes: seq<Change>, start: Protections)
  {
    forall k :: 0 <= k < |changes| && 0 <= changes[k].a < TWO32 ==>
      changes[k].was ==
        if Touched(changes[k + 1..], changes[k].a / PAGE_SIZE) then PAGE_EXECUTE_READWRITE else start[changes[k].a / PAGE_SIZE]
  }

  // What the oldest change to the page reported, if there is one.
  function OldestWas(changes: seq<Change>, page: int): Option<Protection>
    decreases |changes|
  {
    if changes == [] then None
    else
      var older := OldestWas(changes[1..], page);
      if older.Some? then older else if Touches(changes[0], page) then Some(changes[0].was) else None
  }

  lemma {:induction false} UndoneAt(s: Protections, changes: seq<Change>, page: nat)
    requires (forall k :: 0 <= k < |changes| ==> InRange(changes[k])) && page < PAGES
    ensures Undone(s, changes)[page] == match OldestWas(changes, page) case None => s[page] case Some(was) => was
    decreases |changes|
  {
    if changes != [] {
      var c := changes[0];
      assert InRange(changes[0]);
      UndoneAt(Protected(s, c.a, c.n, c.was), changes[1..], page);
    }
  }

  lemma {:induction false} OldestIs(changes: seq<Change>, page: int)
    ensures OldestWas(changes, page).None? <==> !Touched(changes, page)
    ensures forall k :: OldestAt(changes, k, page) ==> OldestWas(changes, page) == Some(changes[k].was)
    ensures OldestWas(changes, page).Some? ==> exists k :: OldestAt(changes, k, page)
    decreases |changes|
  {
    hide Touches;
    if changes != [] {
      var rest := changes[1..];
      OldestIs(rest, page);
      forall k | OldestAt(changes, k, page)
        ensures OldestWas(changes, page) == Some(changes[k].was)
      {
        if k > 0 {
          assert rest[k - 1] == changes[k];
          assert forall j :: k - 1 < j < |rest| ==> rest[j] == changes[j + 1];
          assert OldestAt(rest, k - 1, page);
        } else {
          assert forall j :: 0 <= j < |rest| ==> rest[j] == changes[j + 1];
        }
      }
      if OldestWas(rest, page).Some? {
        var k :| OldestAt(rest, k, page);
        assert rest[k] == changes[k + 1];
        assert forall j :: k + 1 < j < |changes| ==> changes[j] == rest[j - 1];
        assert OldestAt(changes, k + 1, page);
      } else if Touches(changes[0], page) {
        assert forall j :: 0 < j < |changes| ==> changes[j] == rest[j - 1];
        assert OldestAt(changes, 0, page);
      } else {
        assert forall j :: 0 < j < |changes| ==> changes[j] == rest[j - 1];
      }
    }
  }

  /**
   Undoing all changes newest first restores the start if and only if for every page the oldest change that
   touches it reported what the page was.
   */
  lemma {:induction false} UndoneIffRestorable(s: Protections, changes: seq<Change>, start: Protections)
    requires (forall k :: 0 <= k < |changes| ==> InRange(changes[k])) && MadeWritable(s, changes, start)
    ensures Undone(s, changes) == start <==> Restorable(changes, start)
  {
    hide Undone, OldestWas, OldestAt, Touched;
    forall page | 0 <= page < PAGES
      ensures Undone(s, changes)[page] == start[page] <==>
              forall k :: 0 <= k < |changes| && OldestAt(changes, k, page) ==> changes[k].was == start[page]
    {
      UndoneAt(s, changes, page);
      OldestIs(changes, page);
    }
  }

  // One more change keeps the record.
  lemma {:induction false} OneMoreChange(s: Protections, changes: seq<Change>, start: Protections, a: nat, n: nat)
    requires 0 < n && a + n <= TWO32 && MadeWritable(s, changes, start) && Reporting(changes, start)
    ensures MadeWritable(Protected(s, a, n, PAGE_EXECUTE_READWRITE), [Change(a, n, Reported(s, a))] + changes, start)
    ensures Reporting([Change(a, n, Reported(s, a))] + changes, start)
  {
    hide Touches;
    var c := Change(a, n, Reported(s, a));
    var all := [c] + changes;
    assert all[1..] == changes;
    forall page
      ensures Touched(all, page) <==> Touches(c, page) || Touched(changes, page)
    {
      assert forall k :: 0 < k < |all| ==> all[k] == changes[k - 1];
      assert forall k :: 0 <= k < |changes| ==> changes[k] == all[k + 1];
      assert all[0] == c;
    }
    forall page | 0 <= page < PAGES
      ensures Protected(s, a, n, PAGE_EXECUTE_READWRITE)[page] ==
        if Touched(all, page) then PAGE_EXECUTE_READWRITE else start[page]
    {
      ProtectedAt(s, a, n, page);
    }
    forall k | 0 <= k < |all| && 0 <= all[k].a < TWO32
      ensures all[k].was == if Touched(all[k + 1..], all[k].a / PAGE_SIZE) then PAGE_EXECUTE_READWRITE else start[all[k].a / PAGE_SIZE]
    {
      if k > 0 {
        assert all[k] == changes[k - 1] && all[k + 1..] == changes[k..];
      }
    }
  }

  lemma {:induction false} ProtectedAt(s: Protections, a: nat, n: nat, page: nat)
    requires 0 < n && a + n <= TWO32 && page < PAGES
    ensures Protected(s, a, n, PAGE_EXECUTE_READWRITE)[page] ==
      if Touches(Change(a, n, Reported(s, a)), page) then PAGE_EXECUTE_READWRITE else s[page]
  {
  }

  // In terms of what the pages were at the start: the page of the oldest change's first byte was protected like
  // every page that change is the oldest to touch, or was made writable before by an older one.
  ghost predicate Recoverable(changes: seq<Change>, start: Protections)
  {
    forall k, page :: 0 <= k < |changes| && 0 <= page < PAGES && 0 <= changes[k].a < TWO32 && OldestAt(changes, k, page) ==>
      start[page] ==
        if Touched(changes[k + 1..], changes[k].a / PAGE_SIZE) then PAGE_EXECUTE_READWRITE else start[changes[k].a / PAGE_SIZE]
  }

  // What the changes reported does not matter to that.
  lemma {:induction false} RangesMatter(changes: seq<Change>, changes': seq<Change>, start: Protections)
    requires |changes| == |changes'| && forall k :: 0 <= k < |changes| ==> changes[k].a == changes'[k].a && changes[k].n == changes'[k].n
    ensures Recoverable(changes, start) <==> Recoverable(changes', start)
  {
    hide Touches;
    forall k, page | 0 <= k <= |changes|
      ensures Touched(changes[k..], page) <==> Touched(changes'[k..], page)
    {
      SameTouched(changes[k..], changes'[k..], page);
    }
    forall k, page
      ensures OldestAt(changes, k, page) <==> OldestAt(changes', k, page)
    {
      forall j | 0 <= j < |changes|
        ensures Touches(changes[j], page) <==> Touches(changes'[j], page)
      {
        TouchesByRange(changes[j], changes'[j], page);
      }
    }
  }

  lemma {:induction false} TouchesByRange(c: Change, d: Change, page: int)
    requires c.a == d.a && c.n == d.n
    ensures Touches(c, page) <==> Touches(d, page)
  {
  }

  lemma {:induction false} SameTouched(changes: seq<Change>, changes': seq<Change>, page: int)
    requires |changes| == |changes'| && forall k :: 0 <= k < |changes| ==> changes[k].a == changes'[k].a && changes[k].n == changes'[k].n
    ensures Touched(changes, page) <==> Touched(changes', page)
  {
    forall k | 0 <= k < |changes|
      ensures Touches(changes[k], page) <==> Touches(changes'[k], page)
    {
      TouchesByRange(changes[k], changes'[k], page);
    }
  }

  /** So whether the start will be restored is known from it and from the targets alone. */
  lemma {:induction false} RestorableIffRecoverable(changes: seq<Change>, start: Protections)
    requires (forall k :: 0 <= k < |changes| ==> InRange(changes[k])) && Reporting(changes, start)
    ensures Restorable(changes, start) <==> Recoverable(changes, start)
  {
    hide OldestAt, Touched;
    forall k, page | 0 <= k < |changes| && 0 <= page < PAGES && OldestAt(changes, k, page)
      ensures changes[k].was == start[page] <==>
              start[page] == if Touched(changes[k + 1..], changes[k].a / PAGE_SIZE) then PAGE_EXECUTE_READWRITE
                             else start[changes[k].a / PAGE_SIZE]
    {
      assert InRange(changes[k]);
    }
  }

  /** Changes within one page each are always restored, however many touch the same page. */
  lemma {:induction false} OnePageRestores(changes: seq<Change>, start: Protections)
    requires (forall k :: 0 <= k < |changes| ==> InRange(changes[k]) && OnePage(changes[k].a, changes[k].n)) && Reporting(changes, start)
    ensures Restorable(changes, start)
  {
    forall k, page | 0 <= page < PAGES && OldestAt(changes, k, page)
      ensures changes[k].was == start[page]
    {
      assert InRange(changes[k]) && OnePage(changes[k].a, changes[k].n);
      assert page == changes[k].a / PAGE_SIZE;
      assert !Touched(changes[k + 1..], page);
    }
  }

  /** Pushing one more change on the list keeps what undoing them all arrives at. */
  lemma {:induction false} PushKeepsUndone(s: Protections, changes: seq<Change>, a: nat, n: nat, to: Protection)
    requires forall k :: 0 <= k < |changes| ==> InRange(changes[k])
    requires 0 < n && a + n <= TWO32 && Uniform(s, a, n)
    ensures Undone(Protected(s, a, n, to), [Change(a, n, Reported(s, a))] + changes) == Undone(s, changes)
  {
    PutBackRestores(s, a, n, to);
    var all := [Change(a, n, Reported(s, a))] + changes;
    assert all[1..] == changes && all[0] == Change(a, n, Reported(s, a));
  }

  /** The same page protected for two targets, and undone oldest first, is left writable. */
  lemma {:induction false} OldestFirstLeavesWritable(s: Protections, a: nat, b: nat)
    requires a + 1 <= TWO32 && b + 1 <= TWO32 && a / PAGE_SIZE == b / PAGE_SIZE && Reported(s, a) != PAGE_EXECUTE_READWRITE
    ensures
      var s1 := Protected(s, a, 1, PAGE_EXECUTE_READWRITE);
      var s2 := Protected(s1, b, 1, PAGE_EXECUTE_READWRITE);
      && Undone(s2, [Change(b, 1, Reported(s1, b)), Change(a, 1, Reported(s, a))]) == s
      && Undone(s2, [Change(a, 1, Reported(s, a)), Change(b, 1, Reported(s1, b))]) != s
  {
    var s1 := Protected(s, a, 1, PAGE_EXECUTE_READWRITE);
    var s2 := Protected(s1, b, 1, PAGE_EXECUTE_READWRITE);
    var x, y := Change(b, 1, Reported(s1, b)), Change(a, 1, Reported(s, a));
    assert [x, y][1..] == [y] && [y, x][1..] == [x] && [y][1..] == [] && [x][1..] == [];
    var u := Protected(Protected(s2, b, 1, x.was), a, 1, y.was);
    assert Undone(s2, [x, y]) == Undone(Protected(s2, b, 1, x.was), [y]) == Undone(u, []);
    assert u == s;
    var v := Protected(Protected(s2, a, 1, y.was), b, 1, x.was);
    assert Undone(s2, [y, x]) == Undone(Protected(s2, a, 1, y.was), [x]) == Undone(v, []);
    assert v[a / PAGE_SIZE] == PAGE_EXECUTE_READWRITE;
  }

  class PageTable {
    var protections: Protections

    method Protect(a: nat, n: nat, to: Protection) returns (dwOld: Protection)
      requires 0 < n && a + n <= TWO32
      modifies this
      ensures dwOld == Reported(old(protections), a)
      ensures protections == Protected(old(protections), a, n, to)
    {
      dwOld := Reported(protections, a);
      protections := Protected(protections, a, n, to);
    }
  }
}
