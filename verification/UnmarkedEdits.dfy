/** The buffer manager when callers forget `mark_dirty`.

An edit through the reference `get_page` hands out is lost when its page is evicted
clean. Which pages are evicted depends only on the order of touches, so what a reader
sees is decided page by page, without the pool.
*/
module UnmarkedEdits {
  import opened BufferPool

  datatype Step = Marked(op: Op) | Unmarked(no: nat, page: Page) // get_page, edit in place

  ghost function Do(s: State, step: Step): State
    requires Resident(s)
  {
    match step
    case Marked(op) => Apply(s, op)
    case Unmarked(no, page) => Edit(GetPage(s, no), no, page)
  }

  /** The step as a touch of its page, and as the edit it is meant to be. */
  function Touching(step: Step): Op {
    if step.Marked? then step.op else Get(step.no)
  }

  function Meant(step: Step): Op {
    if step.Marked? then step.op else Put(step.no, step.page)
  }

  function Touches(steps: seq<Step>): seq<Op> {
    seq(|steps|, i requires 0 <= i < |steps| => Touching(steps[i]))
  }

  function Meanings(steps: seq<Step>): seq<Op> {
    seq(|steps|, i requires 0 <= i < |steps| => Meant(steps[i]))
  }

  lemma TouchesSnoc(steps: seq<Step>)
    requires steps != []
    ensures var n := |steps| - 1;
            && Touches(steps)[..n] == Touches(steps[..n]) && Touches(steps)[n] == Touching(steps[n])
            && Meanings(steps)[..n] == Meanings(steps[..n]) && Meanings(steps)[n] == Meant(steps[n])
  {
  }

  // --- The same pages are resident ------------------------------------------------------------

  /** Alike but for contents and marks. */
  ghost predicate Twins(s: State, t: State) {
    && |s.heap| == |t.heap| && s.capacity == t.capacity && s.clock == t.clock && s.pool.Keys == t.pool.Keys
    && forall i :: i in s.pool ==> s.pool[i].used == t.pool[i].used
  }

  lemma TwinsResident(s: State, t: State)
    requires Twins(s, t) && Resident(t)
    ensures Resident(s)
  {
    SameTicks(t.pool, s.pool, t.clock);
  }

  lemma TwinsOldest(s: State, t: State)
    requires Twins(s, t) && Resident(t) && t.pool != map[]
    ensures Resident(s) && s.pool != map[] && Oldest(s.pool) == Oldest(t.pool)
  {
    TwinsResident(s, t);
    assert s.pool.Keys != {} by {
      var v := Oldest(t.pool);
      assert v in s.pool.Keys;
    }
    var v := Oldest(t.pool);
    assert IsOldest(s.pool, v);
    OldestUnique(s.pool, s.clock, v);
  }

  lemma TwinsAdmit(s: State, t: State, no: nat, page: Page, page': Page, dirty: bool)
    requires Twins(s, t) && Resident(t)
    ensures Resident(s) && Twins(Admit(s, no, page, dirty), Admit(t, no, page', dirty))
  {
    TwinsResident(s, t);
    assert |s.pool| == |s.pool.Keys| == |t.pool.Keys| == |t.pool|;
    if Full(t, no) {
      assert t.pool != map[];
      TwinsOldest(s, t);
    }
  }

  lemma TwinsHit(s: State, t: State, no: nat)
    requires Twins(s, t) && Resident(s) && Resident(t) && no in t.pool
    ensures Twins(GetPage(s, no), GetPage(t, no))
  {
  }

  ghost function Missing(s: State): State {
    s.(clock := s.clock + 1, misses := s.misses + 1)
  }

  lemma MissIs(s: State, no: nat)
    requires Resident(s) && no !in s.pool
    ensures Resident(Missing(s))
    ensures GetPage(s, no) == if no < |s.heap| then Admit(Missing(s), no, s.heap[no], false) else Missing(s)
  {
  }

  lemma TwinsGet(s: State, t: State, no: nat)
    requires Twins(s, t) && Resident(s) && Resident(t)
    ensures Twins(GetPage(s, no), GetPage(t, no))
  {
    if no in t.pool {
      TwinsHit(s, t, no);
    } else {
      MissIs(s, no);
      MissIs(t, no);
      if no < |t.heap| {
        TwinsAdmit(Missing(s), Missing(t), no, s.heap[no], t.heap[no], false);
      }
    }
  }

  lemma TwinsEdited(s: State, t: State, no: nat, page: Page)
    requires Twins(s, t)
    ensures Twins(Edit(s, no, page), t) && Twins(MarkDirty(s, no), t)
  {
  }

  lemma TwinsMarked(s: State, t: State, op: Op)
    requires Twins(s, t) && Resident(s) && Resident(t)
    ensures Twins(Apply(s, op), Apply(t, op))
  {
    match op
    case Get(no) => TwinsGet(s, t, no);
    case Put(no, page) =>
      TwinsGet(s, t, no);
      TwinsPut(GetPage(s, no), GetPage(t, no), no, page);
    case New =>
      var s1, t1 := s.(heap := s.heap + [BlankPage]), t.(heap := t.heap + [BlankPage]);
      TwinsAdmit(s1, t1, |s.heap|, BlankPage, BlankPage, true);
    case Mark(_) =>
    case Flush =>
  }

  lemma TwinsPut(s: State, t: State, no: nat, page: Page)
    requires Twins(s, t)
    ensures Twins(MarkDirty(Edit(s, no, page), no), MarkDirty(Edit(t, no, page), no))
  {
  }

  lemma TwinsDo(s: State, t: State, step: Step)
    requires Twins(s, t) && Resident(s) && Resident(t)
    ensures Twins(Do(s, step), Apply(t, Touching(step)))
  {
    if step.Marked? {
      TwinsMarked(s, t, step.op);
    } else {
      TwinsGet(s, t, step.no);
      TwinsEdited(GetPage(s, step.no), GetPage(t, step.no), step.no, step.page);
    }
  }

  lemma RunSnoc(heap: seq<Page>, capacity: nat, ops: seq<Op>)
    requires ops != []
    ensures Run(heap, capacity, ops) == Apply(Run(heap, capacity, ops[..|ops| - 1]), ops[|ops| - 1])
  {
  }

  lemma TwinsNext(heap: seq<Page>, capacity: nat, steps: seq<Step>, s: State)
    requires steps != [] && Twins(s, Run(heap, capacity, Touches(steps[..|steps| - 1])))
    ensures Resident(s) && Resident(Do(s, steps[|steps| - 1]))
    ensures Twins(Do(s, steps[|steps| - 1]), Run(heap, capacity, Touches(steps)))
  {
    var n := |steps| - 1;
    var t := Run(heap, capacity, Touches(steps[..n]));
    TwinsResident(s, t);
    TouchesSnoc(steps);
    RunSnoc(heap, capacity, Touches(steps));
    TwinsDo(s, t, steps[n]);
    TwinsResident(Do(s, steps[n]), Run(heap, capacity, Touches(steps)));
  }

  /** A run with unmarked edits; its pool holds what the touches alone would. */
  ghost function RunSteps(heap: seq<Page>, capacity: nat, steps: seq<Step>): (s: State)
    ensures Twins(s, Run(heap, capacity, Touches(steps))) && Resident(s)
  {
    if steps == [] then Start(heap, capacity)
    else
      var s1 := RunSteps(heap, capacity, steps[..|steps| - 1]);
      TwinsNext(heap, capacity, steps, s1);
      Do(s1, steps[|steps| - 1])
  }

  // --- What a reader sees, page by page ---------------------------------------------------------

  /** One page: what a reader sees, what the heap holds, and whether the frame is marked. */
  datatype Track = Track(shown: Page, disk: Page, dirty: bool)

  /** Out of the pool, the page is what was written back. */
  function Settle(t: Track): Track {
    if t.dirty then Track(t.shown, t.shown, false) else Track(t.disk, t.disk, false)
  }

  /** A step on a page that is resident after it. */
  function Along(t: Track, i: nat, step: Step, blank: bool): Track {
    match step
    case Unmarked(no, page) => if no == i then t.(shown := page) else t
    case Marked(Put(no, page)) => if no == i then t.(shown := page, dirty := true) else t
    case Marked(Mark(no)) => if no == i then t.(dirty := true) else t
    case Marked(New) => if blank then Track(BlankPage, BlankPage, true) else t
    case Marked(Flush) => if t.dirty then Track(t.shown, t.shown, false) else t
    case Marked(Get(_)) => t
  }

  /** Among the most recently touched pages, as many as fit. */
  function Recent(heap: seq<Page>, capacity: nat, steps: seq<Step>, i: nat): bool {
    i in Top(Recency(heap, Touches(steps)), Start(heap, capacity).capacity)
  }

  function PageCount(heap: seq<Page>, steps: seq<Step>): nat {
    |PlainRun(heap, Touches(steps))|
  }

  /** The page after the steps. No pool, tick or victim is involved. */
  function Follow(heap: seq<Page>, capacity: nat, steps: seq<Step>, i: nat): Track {
    if steps == [] then
      var page := if i < |heap| then heap[i] else BlankPage;
      Track(page, page, false)
    else
      var before, step := steps[..|steps| - 1], steps[|steps| - 1];
      var t := Follow(heap, capacity, before, i);
      if Recent(heap, capacity, steps, i) then Along(t, i, step, i == PageCount(heap, before)) else Settle(t)
  }

  /** The state and the track of page `i` agree. */
  ghost predicate Agrees(s: State, i: nat, t: Track) {
    && i < |s.heap| && s.heap[i] == t.disk && PageAt(s, i) == t.shown
    && t.dirty == (i in s.pool && s.pool[i].dirty)
  }

  lemma AgreesOut(s: State, i: nat, t: Track)
    requires Agrees(s, i, t) && i !in s.pool
    ensures Settle(t) == t
  {
  }

  lemma AdmitOther(s: State, no: nat, page: Page, dirty: bool, i: nat, t: Track)
    requires Resident(s) && Agrees(s, i, t) && no != i && no !in s.pool
    ensures var s' := Admit(s, no, page, dirty); Agrees(s', i, if i in s'.pool then t else Settle(t))
  {
    if Full(s, no) {
      assert s.pool != map[];
      DropOther(s, Oldest(s.pool), i, t);
    }
    if i !in s.pool {
      AgreesOut(s, i, t);
    }
  }

  lemma DropOther(s: State, v: nat, i: nat, t: Track)
    requires v in s.pool && v < |s.heap| && Agrees(s, i, t)
    ensures Agrees(Drop(s, v), i, if v == i then Settle(t) else t)
  {
  }

  lemma AdmitSelf(s: State, page: Page, dirty: bool, i: nat)
    requires Resident(s) && i !in s.pool && i < |s.heap|
    ensures var s' := Admit(s, i, page, dirty);
            && |s'.heap| == |s.heap| && s'.heap[i] == s.heap[i] && i in s'.pool
            && s'.pool[i].page == page && s'.pool[i].dirty == dirty
  {
    if Full(s, i) {
      assert s.pool != map[];
    }
  }

  lemma GetAgrees(s: State, no: nat, i: nat, t: Track)
    requires Resident(s) && Agrees(s, i, t)
    ensures var s' := GetPage(s, no); Agrees(s', i, if i in s'.pool then t else Settle(t))
    ensures no == i ==> i in GetPage(s, no).pool
  {
    if no in s.pool {
      if i !in s.pool {
        AgreesOut(s, i, t);
      }
    } else {
      MissIs(s, no);
      assert Agrees(Missing(s), i, t);
      if no == i {
        AdmitSelf(Missing(s), s.heap[i], false, i);
      } else if no < |s.heap| {
        AdmitOther(Missing(s), no, s.heap[no], false, i, t);
      } else if i !in s.pool {
        AgreesOut(s, i, t);
      }
    }
  }

  lemma EditAgrees(s: State, no: nat, page: Page, i: nat, t: Track)
    requires Agrees(s, i, t) && (no == i ==> i in s.pool)
    ensures Agrees(Edit(s, no, page), i, if no == i then t.(shown := page) else t)
    ensures Agrees(MarkDirty(s, no), i, if no == i then t.(dirty := true) else t)
  {
  }

  lemma NewAgrees(s: State, i: nat, t: Track)
    requires Resident(s) && Agrees(s, i, t)
    ensures var s' := NewPage(s); Agrees(s', i, if i in s'.pool then t else Settle(t))
  {
    var s1 := s.(heap := s.heap + [BlankPage]);
    assert Agrees(s1, i, t);
    AdmitOther(s1, |s.heap|, BlankPage, true, i, t);
  }

  lemma BlankAgrees(s: State)
    requires Resident(s)
    ensures |s.heap| in NewPage(s).pool && Agrees(NewPage(s), |s.heap|, Track(BlankPage, BlankPage, true))
  {
    AdmitSelf(s.(heap := s.heap + [BlankPage]), BlankPage, true, |s.heap|);
  }

  /** Where the page goes on any step. */
  function Next(t: Track, i: nat, step: Step, resident: bool): Track {
    if resident then Along(t, i, step, false) else Settle(t)
  }

  lemma MarkedAgrees(s: State, op: Op, i: nat, t: Track)
    requires Resident(s) && Agrees(s, i, t)
    ensures Agrees(Apply(s, op), i, Next(t, i, Marked(op), i in Apply(s, op).pool))
  {
    if i !in s.pool {
      AgreesOut(s, i, t);
    }
    match op
    case Get(no) => GetAgrees(s, no, i, t);
    case Put(no, page) =>
      GetAgrees(s, no, i, t);
      PutAgrees(GetPage(s, no), no, page, i, if i in GetPage(s, no).pool then t else Settle(t));
    case New => NewAgrees(s, i, t);
    case Mark(no) =>
      if i in s.pool {
        EditAgrees(s, no, BlankPage, i, t);
      }
    case Flush =>
  }

  lemma PutAgrees(s: State, no: nat, page: Page, i: nat, t: Track)
    requires Agrees(s, i, t) && (no == i ==> i in s.pool)
    ensures Agrees(MarkDirty(Edit(s, no, page), no), i, if no == i then t.(shown := page, dirty := true) else t)
  {
    EditAgrees(s, no, page, i, t);
    EditAgrees(Edit(s, no, page), no, page, i, if no == i then t.(shown := page) else t);
  }

  lemma DoAgrees(s: State, step: Step, i: nat, t: Track)
    requires Resident(s) && Agrees(s, i, t)
    ensures Agrees(Do(s, step), i, Next(t, i, step, i in Do(s, step).pool))
  {
    if step.Marked? {
      MarkedAgrees(s, step.op, i, t);
    } else {
      GetAgrees(s, step.no, i, t);
      EditAgrees(GetPage(s, step.no), step.no, step.page, i, if i in GetPage(s, step.no).pool then t else Settle(t));
    }
  }

  lemma RecentIsResident(heap: seq<Page>, capacity: nat, steps: seq<Step>, i: nat)
    ensures i in RunSteps(heap, capacity, steps).pool <==> Recent(heap, capacity, steps, i)
    ensures |RunSteps(heap, capacity, steps).heap| == PageCount(heap, steps)
  {
    HoldsMostRecent(heap, capacity, Touches(steps));
    assert i in RunSteps(heap, capacity, steps).pool <==> i in Run(heap, capacity, Touches(steps)).pool.Keys;
  }

  /** After every run, every page is shown and stored as the touches decide. */
  lemma {:induction false} Followed(heap: seq<Page>, capacity: nat, steps: seq<Step>, i: nat)
    requires i < PageCount(heap, steps)
    ensures Agrees(RunSteps(heap, capacity, steps), i, Follow(heap, capacity, steps, i))
  {
    RecentIsResident(heap, capacity, steps, i);
    if steps != [] {
      var before, step := steps[..|steps| - 1], steps[|steps| - 1];
      var s := RunSteps(heap, capacity, before);
      RecentIsResident(heap, capacity, before, i);
      if i < |s.heap| {
        Followed(heap, capacity, before, i);
        DoAgrees(s, step, i, Follow(heap, capacity, before, i));
        assert i != PageCount(heap, before);
      } else {
        GrewByNew(s, step, i);
        BlankAgrees(s);
      }
    }
  }

  lemma GrewByNew(s: State, step: Step, i: nat)
    requires Resident(s) && |s.heap| <= i < |Do(s, step).heap|
    ensures step == Marked(New) && i == |s.heap|
  {
  }

  // --- Exactly when an edit is lost ----------------------------------------------------------------

  /** The last edit of a page: written back or sure to be, only in a clean frame, or gone. */
  datatype Fate = Safe | Loose | Lost

  /** The fate after one more step; `t` is the page before it. */
  function Turn(f: Fate, t: Track, i: nat, step: Step, blank: bool): Fate {
    match step
    case Unmarked(no, page) => if no != i then f else if t.dirty || t.disk == page then Safe else Loose
    case Marked(Put(no, _)) => if no == i then Safe else f
    case Marked(Mark(no)) => if no == i && f.Loose? then Safe else f
    case Marked(New) => if blank then Safe else f
    case _ => f
  }

  /** A loose edit is lost when its page is no longer among the most recent. */
  function FateOf(heap: seq<Page>, capacity: nat, steps: seq<Step>, i: nat): Fate {
    if steps == [] then Safe
    else
      var before, step := steps[..|steps| - 1], steps[|steps| - 1];
      var f := FateOf(heap, capacity, before, i);
      if Recent(heap, capacity, steps, i) then
        Turn(f, Follow(heap, capacity, before, i), i, step, i == PageCount(heap, before))
      else if f.Loose? then Lost
      else f
  }

  /** What the fate says of the page and of what was meant. */
  predicate Means(f: Fate, t: Track, page: Page) {
    match f
    case Safe => t.shown == page && (t.dirty || t.disk == page)
    case Loose => t.shown == page && !t.dirty && t.disk != page
    case Lost => t.shown != page && (t.dirty || t.disk == t.shown)
  }

  /** What page `i` is meant to hold after the step. */
  function MeantAfter(page: Page, i: nat, step: Step): Page {
    var op := Meant(step);
    if op.Put? && op.no == i then op.page else page
  }

  lemma FateStep(f: Fate, t: Track, page: Page, i: nat, step: Step, recent: bool)
    requires Means(f, t, page) && (!recent ==> MeantAfter(page, i, step) == page)
    ensures Means(if recent then Turn(f, t, i, step, false) else if f.Loose? then Lost else f,
                  Next(t, i, step, recent), MeantAfter(page, i, step))
  {
  }

  lemma {:induction false} SameCount(heap: seq<Page>, steps: seq<Step>)
    ensures |PlainRun(heap, Meanings(steps))| == PageCount(heap, steps)
  {
    if steps != [] {
      TouchesSnoc(steps);
      SameCount(heap, steps[..|steps| - 1]);
    }
  }

  lemma MeantStep(heap: seq<Page>, steps: seq<Step>, i: nat)
    requires steps != [] && i < PageCount(heap, steps[..|steps| - 1])
    ensures |PlainRun(heap, Meanings(steps[..|steps| - 1]))| > i && |PlainRun(heap, Meanings(steps))| > i
    ensures PlainRun(heap, Meanings(steps))[i]
         == MeantAfter(PlainRun(heap, Meanings(steps[..|steps| - 1]))[i], i, steps[|steps| - 1])
  {
    TouchesSnoc(steps);
    SameCount(heap, steps);
    SameCount(heap, steps[..|steps| - 1]);
  }

  lemma EditedIsRecent(heap: seq<Page>, capacity: nat, steps: seq<Step>, i: nat)
    requires steps != [] && i < PageCount(heap, steps[..|steps| - 1])
    requires var op := Meant(steps[|steps| - 1]); op.Put? && op.no == i
    ensures Recent(heap, capacity, steps, i)
  {
    var before, step := steps[..|steps| - 1], steps[|steps| - 1];
    var s := RunSteps(heap, capacity, before);
    RecentIsResident(heap, capacity, before, i);
    RecentIsResident(heap, capacity, steps, i);
    GetAgrees(s, i, i, Track(PageAt(s, i), s.heap[i], i in s.pool && s.pool[i].dirty));
  }

  lemma BlankIsRecent(heap: seq<Page>, capacity: nat, steps: seq<Step>, i: nat)
    requires steps != [] && PageCount(heap, steps[..|steps| - 1]) <= i < PageCount(heap, steps)
    ensures steps[|steps| - 1] == Marked(New) && i == PageCount(heap, steps[..|steps| - 1])
    ensures Recent(heap, capacity, steps, i)
  {
    var before, step := steps[..|steps| - 1], steps[|steps| - 1];
    var s := RunSteps(heap, capacity, before);
    RecentIsResident(heap, capacity, before, i);
    RecentIsResident(heap, capacity, steps, i);
    GrewByNew(s, step, i);
    BlankAgrees(s);
  }

  lemma {:induction false} FateHolds(heap: seq<Page>, capacity: nat, steps: seq<Step>, i: nat)
    requires i < PageCount(heap, steps) == |PlainRun(heap, Meanings(steps))|
    ensures Means(FateOf(heap, capacity, steps, i), Follow(heap, capacity, steps, i),
                  PlainRun(heap, Meanings(steps))[i])
  {
    if steps != [] {
      var before, step := steps[..|steps| - 1], steps[|steps| - 1];
      if i < PageCount(heap, before) {
        SameCount(heap, before);
        FateHolds(heap, capacity, before, i);
        MeantStep(heap, steps, i);
        if Meant(step).Put? && Meant(step).no == i {
          EditedIsRecent(heap, capacity, steps, i);
        }
        FateStep(FateOf(heap, capacity, before, i), Follow(heap, capacity, before, i),
                 PlainRun(heap, Meanings(before))[i], i, step, Recent(heap, capacity, steps, i));
      } else {
        BlankIsRecent(heap, capacity, steps, i);
        TouchesSnoc(steps);
        SameCount(heap, before);
      }
    }
  }

  predicate Kept(heap: seq<Page>, capacity: nat, steps: seq<Step>, i: nat) {
    !FateOf(heap, capacity, steps, i).Lost?
  }

  /** Every run, every capacity: the pool shows the meant pages exactly when no page's last
      edit was lost: made unmarked in a clean frame, other than what the heap held, and not
      marked before the page left the most recently touched ones. */
  lemma ShowsMeantExactly(heap: seq<Page>, capacity: nat, steps: seq<Step>)
    ensures Shows(RunSteps(heap, capacity, steps), PlainRun(heap, Meanings(steps)))
            <==> forall i :: 0 <= i < PageCount(heap, steps) ==> Kept(heap, capacity, steps, i)
  {
    var s, pages := RunSteps(heap, capacity, steps), PlainRun(heap, Meanings(steps));
    SameCount(heap, steps);
    RecentIsResident(heap, capacity, steps, 0);
    forall i | 0 <= i < |pages|
      ensures PageAt(s, i) == pages[i] <==> Kept(heap, capacity, steps, i)
    {
      PageExactly(heap, capacity, steps, i);
    }
  }

  lemma PageExactly(heap: seq<Page>, capacity: nat, steps: seq<Step>, i: nat)
    requires i < PageCount(heap, steps)
    ensures i < |RunSteps(heap, capacity, steps).heap| && i < |PlainRun(heap, Meanings(steps))|
    ensures PageAt(RunSteps(heap, capacity, steps), i) == PlainRun(heap, Meanings(steps))[i]
            <==> Kept(heap, capacity, steps, i)
  {
    SameCount(heap, steps);
    Followed(heap, capacity, steps, i);
    FateHolds(heap, capacity, steps, i);
  }

  /** Two pages and room for one: an unmarked edit of the first is gone after reading the
      second. */
  lemma EditIsLost(page: Page)
    requires page != BlankPage
    ensures var heap, steps := [BlankPage, BlankPage], [Unmarked(0, page), Marked(Get(1))];
            var s := RunSteps(heap, 1, steps);
            |s.heap| == 2 && PageAt(s, 0) == BlankPage && PlainRun(heap, Meanings(steps)) == [page, BlankPage]
  {
    var heap, steps := [BlankPage, BlankPage], [Unmarked(0, page), Marked(Get(1))];
    var first := steps[..1];
    assert first == [Unmarked(0, page)] && first[..0] == [];
    TouchesSnoc(steps);
    TouchesSnoc(first);
    assert Touches([]) == [] && Meanings([]) == [];
    assert PlainRun(heap, Touches(first)) == heap && PlainRun(heap, Touches(steps)) == heap;
    assert PlainRun(heap, Meanings(first)) == [page, BlankPage];
    assert Recency(heap, Touches(first)) == [0];
    assert Remove([0], 1) == [0] + Remove([], 1) by { assert [0][1..] == []; }
    assert Recency(heap, Touches(steps)) == [1, 0];
    assert Top([0], 1) == [0] && Top([1, 0], 1) == [1];
    assert Follow(heap, 1, first, 0) == Track(page, BlankPage, false);
    assert !Recent(heap, 1, steps, 0);
    assert Follow(heap, 1, steps, 0) == Track(BlankPage, BlankPage, false);
    RecentIsResident(heap, 1, steps, 0);
    Followed(heap, 1, steps, 0);
  }
}
