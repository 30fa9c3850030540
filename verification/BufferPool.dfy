/** The LRU buffer manager: a write-back cache of heap pages.

`State` and the functions over it describe one manager call; the class
`BufferManager` is proved to do exactly that. Two results are about whole
operation sequences: the cache is transparent (its logical pages are those of a
plain page array, whatever its capacity), and it holds exactly the most recently
touched pages.
*/
module BufferPool {
  import opened Collections

  datatype Page = Page(tuples: seq<string>)

  const BlankPage := Page([])

  datatype Frame = Frame(page: Page, dirty: bool, used: nat)

  datatype State = State(
    heap: seq<Page>,
    pool: map<nat, Frame>,
    capacity: nat,
    clock: nat,
    hits: nat,
    misses: nat
  )

  // --- Invariants -------------------------------------------------------------

  /** Ticks are distinct and none is in the future. */
  ghost predicate Ticked(pool: map<nat, Frame>, clock: nat) {
    && (forall i :: i in pool ==> pool[i].used <= clock)
    && (forall i, j {:trigger Apart(pool, i, j)} :: i in pool && j in pool && i != j ==> Apart(pool, i, j))
  }

  ghost predicate Apart(pool: map<nat, Frame>, i: nat, j: nat)
    requires i in pool && j in pool
  {
    pool[i].used != pool[j].used
  }

  ghost predicate CleanMatchesHeap(s: State) {
    forall i :: i in s.pool && !s.pool[i].dirty ==> i < |s.heap| && s.pool[i].page == s.heap[i]
  }

  ghost predicate Resident(s: State) {
    && 1 <= s.capacity && |s.pool| <= s.capacity
    && (forall i :: i in s.pool ==> i < |s.heap|)
    && Ticked(s.pool, s.clock)
  }

  ghost predicate Valid(s: State) {
    Resident(s) && CleanMatchesHeap(s)
  }

  /** What a reader of page `i` sees: the cached page if there is one, else the heap's. */
  ghost function PageAt(s: State, i: nat): Page
    requires i < |s.heap|
  {
    if i in s.pool then s.pool[i].page else s.heap[i]
  }

  /** The manager stands for this array of pages. */
  ghost predicate Shows(s: State, pages: seq<Page>) {
    |pages| == |s.heap| && forall i :: 0 <= i < |pages| ==> PageAt(s, i) == pages[i]
  }

  // --- The calls --------------------------------------------------------------

  ghost predicate IsOldest(pool: map<nat, Frame>, v: nat) {
    v in pool && forall i :: i in pool ==> pool[v].used <= pool[i].used
  }

  /** Drop frame `v`, writing it back first when dirty. */
  ghost function Drop(s: State, v: nat): State
    requires v in s.pool && v < |s.heap|
  {
    s.(heap := if s.pool[v].dirty then s.heap[v := s.pool[v].page] else s.heap, pool := s.pool - {v})
  }

  lemma {:induction false} OldestExists(pool: map<nat, Frame>) returns (v: nat)
    requires pool != map[]
    ensures IsOldest(pool, v)
  {
    assert pool.Keys != {};
    v := Member(pool.Keys);
    var rest := pool - {v};
    assert forall i :: i in pool ==> i == v || (i in rest && rest[i] == pool[i]);
    if rest != map[] {
      assert |rest.Keys| < |pool.Keys| by { assert pool.Keys == rest.Keys + {v}; }
      var w := OldestExists(rest);
      if pool[w].used < pool[v].used {
        v := w;
      }
    }
  }

  ghost function Oldest(pool: map<nat, Frame>): (v: nat)
    requires pool != map[]
    ensures IsOldest(pool, v)
  {
    assert exists v :: IsOldest(pool, v) by {
      var v := OldestExists(pool);
    }
    var v :| IsOldest(pool, v);
    v
  }

  lemma OldestUnique(pool: map<nat, Frame>, clock: nat, v: nat)
    requires Ticked(pool, clock) && IsOldest(pool, v)
    ensures Oldest(pool) == v
  {
    assert Oldest(pool) != v ==> Apart(pool, Oldest(pool), v);
  }

  ghost predicate Full(s: State, no: nat) {
    |s.pool| >= s.capacity && no !in s.pool
  }

  ghost function Insert(s: State, no: nat, page: Page, dirty: bool): State {
    s.(clock := s.clock + 1, pool := s.pool[no := Frame(page, dirty, s.clock + 1)])
  }

  ghost function Admit(s: State, no: nat, page: Page, dirty: bool): State
    requires Resident(s)
  {
    Insert(if Full(s, no) then Drop(s, Oldest(s.pool)) else s, no, page, dirty)
  }

  ghost function GetPage(s: State, no: nat): State
    requires Resident(s)
  {
    var s1 := s.(clock := s.clock + 1);
    if no in s.pool then
      s1.(pool := s.pool[no := s.pool[no].(used := s.clock + 1)], hits := s.hits + 1)
    else if no >= |s.heap| then s1.(misses := s.misses + 1)
    else Admit(s1.(misses := s.misses + 1), no, s.heap[no], false)
  }

  ghost function NewPage(s: State): State
    requires Resident(s)
  {
    Admit(s.(heap := s.heap + [BlankPage]), |s.heap|, BlankPage, true)
  }

  /** The caller's edit through the reference `get_page` handed out. */
  ghost function Edit(s: State, no: nat, page: Page): State {
    if no in s.pool then s.(pool := s.pool[no := s.pool[no].(page := page)]) else s
  }

  ghost function MarkDirty(s: State, no: nat): State {
    if no in s.pool then s.(pool := s.pool[no := s.pool[no].(dirty := true)]) else s
  }

  ghost function FlushAll(s: State): State
    requires forall i :: i in s.pool ==> i < |s.heap|
  {
    s.(heap := seq(|s.heap|, i requires 0 <= i < |s.heap| =>
                  if i in s.pool && s.pool[i].dirty then s.pool[i].page else s.heap[i]),
       pool := map i | i in s.pool :: s.pool[i].(dirty := false))
  }

  // --- Each call keeps the invariants and the pages shown ---------------------------

  lemma DropTicked(pool: map<nat, Frame>, clock: nat, v: nat)
    requires Ticked(pool, clock) && v in pool
    ensures Ticked(pool - {v}, clock) && |pool - {v}| == |pool| - 1
  {
    assert pool.Keys == (pool - {v}).Keys + {v};
    forall i, j | i in pool - {v} && j in pool - {v} && i != j
      ensures Apart(pool - {v}, i, j)
    {
      assert Apart(pool, i, j);
    }
  }

  lemma AddTicked(pool: map<nat, Frame>, clock: nat, no: nat, frame: Frame)
    requires Ticked(pool, clock) && frame.used == clock + 1
    ensures Ticked(pool[no := frame], clock + 1)
    ensures |pool[no := frame]| == if no in pool then |pool| else |pool| + 1
  {
    var pool' := pool[no := frame];
    assert pool'.Keys == pool.Keys + {no};
    forall i, j | i in pool' && j in pool' && i != j
      ensures Apart(pool', i, j)
    {
      assert i != no && j != no ==> Apart(pool, i, j);
    }
  }

  lemma SameTicks(pool: map<nat, Frame>, pool': map<nat, Frame>, clock: nat)
    requires Ticked(pool, clock) && pool'.Keys == pool.Keys
    requires forall i :: i in pool ==> pool'[i].used == pool[i].used
    ensures Ticked(pool', clock) && |pool'| == |pool|
  {
    assert |pool'.Keys| == |pool.Keys|;
    forall i, j | i in pool' && j in pool' && i != j
      ensures Apart(pool', i, j)
    {
      assert Apart(pool, i, j);
    }
  }

  lemma DropKeeps(s: State, v: nat, pages: seq<Page>)
    requires Valid(s) && Shows(s, pages) && v in s.pool
    ensures Valid(Drop(s, v)) && Shows(Drop(s, v), pages)
    ensures |Drop(s, v).pool| == |s.pool| - 1
  {
    DropTicked(s.pool, s.clock, v);
  }

  lemma InsertKeeps(s: State, no: nat, page: Page, dirty: bool, pages: seq<Page>)
    requires Valid(s) && Shows(s, pages) && no < |s.heap| && no !in s.pool && pages[no] == page
    requires |s.pool| < s.capacity
    ensures Valid(Insert(s, no, page, dirty)) && Shows(Insert(s, no, page, dirty), pages)
  {
    AddTicked(s.pool, s.clock, no, Frame(page, dirty, s.clock + 1));
    assert PageAt(s, no) == page;
    assert forall i :: 0 <= i < |pages| ==> PageAt(Insert(s, no, page, dirty), i) == PageAt(s, i);
  }

  lemma AdmitKeeps(s: State, no: nat, page: Page, dirty: bool, pages: seq<Page>)
    requires Valid(s) && Shows(s, pages) && no < |s.heap| && no !in s.pool && pages[no] == page
    ensures Valid(Admit(s, no, page, dirty)) && Shows(Admit(s, no, page, dirty), pages)
  {
    if Full(s, no) {
      assert s.pool != map[];
      DropKeeps(s, Oldest(s.pool), pages);
      InsertKeeps(Drop(s, Oldest(s.pool)), no, page, dirty, pages);
    } else {
      InsertKeeps(s, no, page, dirty, pages);
    }
  }

  lemma SameFrames(s: State, s': State, pages: seq<Page>)
    requires Valid(s) && Shows(s, pages)
    requires s'.heap == s.heap && s'.pool == s.pool && s'.capacity == s.capacity && s.clock <= s'.clock
    ensures Valid(s') && Shows(s', pages)
  {
    assert forall i :: 0 <= i < |pages| ==> PageAt(s', i) == PageAt(s, i);
  }

  lemma HitKeeps(s: State, no: nat, pages: seq<Page>)
    requires Valid(s) && Shows(s, pages) && no in s.pool
    ensures Valid(GetPage(s, no)) && Shows(GetPage(s, no), pages)
  {
    AddTicked(s.pool, s.clock, no, s.pool[no].(used := s.clock + 1));
    assert forall i :: 0 <= i < |pages| ==> PageAt(GetPage(s, no), i) == PageAt(s, i);
  }

  lemma MissKeeps(s: State, no: nat, pages: seq<Page>)
    requires Valid(s) && Shows(s, pages) && no !in s.pool
    ensures Valid(GetPage(s, no)) && Shows(GetPage(s, no), pages)
  {
    var s2 := s.(clock := s.clock + 1, misses := s.misses + 1);
    SameFrames(s, s2, pages);
    if no < |s.heap| {
      assert PageAt(s, no) == pages[no];
      AdmitKeeps(s2, no, s.heap[no], false, pages);
      assert GetPage(s, no) == Admit(s2, no, s.heap[no], false);
    } else {
      assert GetPage(s, no) == s2;
    }
  }

  lemma GetPageKeeps(s: State, no: nat, pages: seq<Page>)
    requires Valid(s) && Shows(s, pages)
    ensures Valid(GetPage(s, no)) && Shows(GetPage(s, no), pages)
  {
    if no in s.pool {
      HitKeeps(s, no, pages);
    } else {
      MissKeeps(s, no, pages);
    }
  }

  lemma NewPageKeeps(s: State, pages: seq<Page>)
    requires Valid(s) && Shows(s, pages)
    ensures Valid(NewPage(s)) && Shows(NewPage(s), pages + [BlankPage])
  {
    var s1 := s.(heap := s.heap + [BlankPage]);
    assert |s.heap| !in s.pool;
    forall i | 0 <= i < |pages + [BlankPage]|
      ensures PageAt(s1, i) == (pages + [BlankPage])[i]
    {
      if i < |pages| {
        assert PageAt(s, i) == pages[i];
      }
    }
    AdmitKeeps(s1, |s.heap|, BlankPage, true, pages + [BlankPage]);
  }

  lemma MarkedEditKeeps(s: State, no: nat, page: Page, pages: seq<Page>)
    requires Valid(s) && Shows(s, pages) && no in s.pool
    ensures Valid(MarkDirty(Edit(s, no, page), no))
    ensures Shows(MarkDirty(Edit(s, no, page), no), pages[no := page])
  {
    var s' := MarkDirty(Edit(s, no, page), no);
    SameTicks(s.pool, s'.pool, s.clock);
    forall i | 0 <= i < |pages|
      ensures PageAt(s', i) == pages[no := page][i]
    {
      assert PageAt(s, i) == pages[i];
    }
  }

  lemma MarkKeeps(s: State, no: nat, pages: seq<Page>)
    requires Valid(s) && Shows(s, pages)
    ensures Valid(MarkDirty(s, no)) && Shows(MarkDirty(s, no), pages)
  {
    var s' := MarkDirty(s, no);
    SameTicks(s.pool, s'.pool, s.clock);
    assert forall i :: 0 <= i < |pages| ==> PageAt(s', i) == PageAt(s, i);
  }

  /** After a flush the heap itself is the page array shown, and no frame is dirty. */
  lemma FlushKeeps(s: State, pages: seq<Page>)
    requires Valid(s) && Shows(s, pages)
    ensures Valid(FlushAll(s)) && Shows(FlushAll(s), pages)
    ensures FlushAll(s).heap == pages
  {
    var s' := FlushAll(s);
    SameTicks(s.pool, s'.pool, s.clock);
    forall i | 0 <= i < |pages|
      ensures s'.heap[i] == pages[i]
    {
      assert PageAt(s, i) == pages[i];
    }
    assert s'.heap == pages;
  }

  // --- Operation sequences: the cache is transparent ------------------------------------

  datatype Op =
    | Get(no: nat)
    | New
    | Put(no: nat, page: Page) // get_page, edit in place, mark_dirty
    | Mark(no: nat)
    | Flush

  ghost function Apply(s: State, op: Op): State
    requires Resident(s)
  {
    match op
    case Get(no) => GetPage(s, no)
    case New => NewPage(s)
    case Put(no, page) => MarkDirty(Edit(GetPage(s, no), no, page), no)
    case Mark(no) => MarkDirty(s, no)
    case Flush => FlushAll(s)
  }

  /** The same operation on a plain array of pages. */
  function Plain(pages: seq<Page>, op: Op): seq<Page> {
    match op
    case New => pages + [BlankPage]
    case Put(no, page) => if no < |pages| then pages[no := page] else pages
    case _ => pages
  }

  function PlainRun(pages: seq<Page>, ops: seq<Op>): seq<Page> {
    if ops == [] then pages else Plain(PlainRun(pages, ops[..|ops| - 1]), ops[|ops| - 1])
  }

  lemma PutKeeps(s: State, no: nat, page: Page, pages: seq<Page>)
    requires Valid(s) && Shows(s, pages)
    ensures Valid(Apply(s, Put(no, page))) && Shows(Apply(s, Put(no, page)), Plain(pages, Put(no, page)))
  {
    GetPageKeeps(s, no, pages);
    var s1 := GetPage(s, no);
    if no < |s.heap| {
      assert no in s1.pool;
      MarkedEditKeeps(s1, no, page, pages);
    } else {
      assert no !in s1.pool;
    }
  }

  lemma ApplyKeeps(s: State, op: Op, pages: seq<Page>)
    requires Valid(s) && Shows(s, pages)
    ensures Valid(Apply(s, op)) && Shows(Apply(s, op), Plain(pages, op))
  {
    match op
    case Get(no) => GetPageKeeps(s, no, pages);
    case New => NewPageKeeps(s, pages);
    case Put(no, page) => PutKeeps(s, no, page, pages);
    case Mark(no) => MarkKeeps(s, no, pages);
    case Flush => FlushKeeps(s, pages);
  }

  function Start(heap: seq<Page>, capacity: nat): State {
    State(heap, map[], if capacity < 1 then 1 else capacity, 0, 0, 0)
  }

  /** Whatever its capacity, the manager shows the pages a plain array would hold
      after the same operations. */
  ghost function Run(heap: seq<Page>, capacity: nat, ops: seq<Op>): (s: State)
    ensures Valid(s) && Shows(s, PlainRun(heap, ops))
    ensures s.capacity == if capacity == 0 then 1 else capacity
  {
    if ops == [] then Start(heap, capacity)
    else
      var s1 := Run(heap, capacity, ops[..|ops| - 1]);
      ApplyKeeps(s1, ops[|ops| - 1], PlainRun(heap, ops[..|ops| - 1]));
      Apply(s1, ops[|ops| - 1])
  }

  /** A flush at the end leaves the heap file itself equal to the plain array. */
  lemma FlushedHeap(heap: seq<Page>, capacity: nat, ops: seq<Op>)
    ensures Run(heap, capacity, ops + [Flush]).heap == PlainRun(heap, ops)
  {
    assert (ops + [Flush])[..|ops + [Flush]| - 1] == ops;
    FlushKeeps(Run(heap, capacity, ops), PlainRun(heap, ops));
  }

  // --- Operation sequences: the cache is LRU ----------------------------------------------

  /** The page an operation touches, given the number of pages in the heap. */
  function Touch(op: Op, count: nat): Option<nat> {
    match op
    case New => Some(count)
    case Get(no) => if no < count then Some(no) else None
    case Put(no, _) => if no < count then Some(no) else None
    case _ => None
  }

  function Remove(r: seq<nat>, p: nat): seq<nat> {
    if r == [] then [] else if r[0] == p then r[1..] else [r[0]] + Remove(r[1..], p)
  }

  function MoveToFront(r: seq<nat>, p: nat): seq<nat> {
    [p] + Remove(r, p)
  }

  /** The distinct pages touched, most recent first. No capacity is involved. */
  function Recency(heap: seq<Page>, ops: seq<Op>): seq<nat> {
    if ops == [] then []
    else
      var before := ops[..|ops| - 1];
      var r := Recency(heap, before);
      match Touch(ops[|ops| - 1], |PlainRun(heap, before)|)
      case None => r
      case Some(p) => MoveToFront(r, p)
  }

  function Min(a: nat, b: nat): nat {
    if a < b then a else b
  }

  /** The `k` most recent, or all when there are fewer. */
  function Top(r: seq<nat>, k: nat): seq<nat> {
    r[..Min(k, |r|)]
  }

  ghost predicate Distinct(r: seq<nat>) {
    forall i, j :: 0 <= i < j < |r| ==> r[i] != r[j]
  }

  lemma {:induction false} RemoveSplit(r: seq<nat>, p: nat, k: nat)
    requires k <= |r|
    ensures p in r[..k] ==> Remove(r, p) == Remove(r[..k], p) + r[k..]
    ensures p !in r[..k] ==> Remove(r, p) == r[..k] + Remove(r[k..], p)
  {
    if k > 0 {
      assert r[..k][1..] == r[1..][..k - 1];
      assert r[..k] == [r[0]] + r[1..][..k - 1];
      RemoveSplit(r[1..], p, k - 1);
    }
  }

  lemma {:induction false} RemoveMembers(r: seq<nat>, p: nat)
    requires Distinct(r)
    ensures Distinct(Remove(r, p))
    ensures forall x :: x in Remove(r, p) <==> x in r && x != p
    ensures |Remove(r, p)| == if p in r then |r| - 1 else |r|
  {
    if r != [] {
      assert r == [r[0]] + r[1..];
      RemoveMembers(r[1..], p);
      assert r[0] !in r[1..];
      assert r[0] !in Remove(r[1..], p);
    }
  }

  /** Moving a page to the front of the list does the same to its top, except
      that a page from below pushes the last one out. */
  lemma TopMoves(r: seq<nat>, p: nat, k: nat)
    requires Distinct(r) && k >= 1
    ensures p in Top(r, k) ==> Top(MoveToFront(r, p), k) == MoveToFront(Top(r, k), p)
    ensures p !in Top(r, k) && |Top(r, k)| < k ==> Top(MoveToFront(r, p), k) == [p] + Top(r, k)
    ensures p !in Top(r, k) && |Top(r, k)| == k ==> Top(MoveToFront(r, p), k) == [p] + Top(r, k)[..k - 1]
  {
    var m := Min(k, |r|);
    RemoveSplit(r, p, m);
    RemoveMembers(r, p);
    RemoveMembers(Top(r, k), p);
    if p in Top(r, k) {
      assert |Remove(Top(r, k), p)| == m - 1;
    } else if m < k {
      assert r[m..] == [];
      assert Remove(r, p) == r;
    } else {
      assert r == r[..m] + r[m..];
    }
  }

  /** The list runs from the newest tick to the oldest. */
  ghost predicate Newer(pool: map<nat, Frame>, p: nat, q: nat) {
    p in pool && q in pool && pool[q].used < pool[p].used
  }

  ghost predicate Falling(pool: map<nat, Frame>, top: seq<nat>) {
    forall i, j :: 0 <= i < j < |top| ==> Newer(pool, top[i], top[j])
  }

  /** The pool is this list of pages, newest first. */
  ghost predicate Ordered(pool: map<nat, Frame>, top: seq<nat>) {
    Distinct(top) && Falling(pool, top) && forall p :: p in pool <==> p in top
  }

  ghost function ToSet(top: seq<nat>): set<nat> {
    set x | x in top
  }

  lemma DistinctTail(top: seq<nat>)
    requires Distinct(top) && top != []
    ensures Distinct(top[1..]) && top[0] !in top[1..]
  {
  }

  lemma {:induction false} DistinctCount(top: seq<nat>)
    requires Distinct(top)
    ensures |ToSet(top)| == |top|
  {
    if top != [] {
      DistinctTail(top);
      DistinctCount(top[1..]);
      assert top == [top[0]] + top[1..];
      assert ToSet(top) == ToSet(top[1..]) + {top[0]};
    }
  }

  lemma OrderedCount(pool: map<nat, Frame>, top: seq<nat>)
    requires Ordered(pool, top)
    ensures |pool| == |top|
  {
    DistinctCount(top);
    assert pool.Keys == ToSet(top);
  }

  lemma FallingCons(pool: map<nat, Frame>, p: nat, top: seq<nat>)
    requires Falling(pool, top) && forall q :: q in top ==> Newer(pool, p, q)
    ensures Falling(pool, [p] + top)
  {
    var r := [p] + top;
    forall i, j | 0 <= i < j < |r|
      ensures Newer(pool, r[i], r[j])
    {
      if i > 0 {
        assert Newer(pool, top[i - 1], top[j - 1]);
      }
    }
  }

  lemma {:induction false} FallingRemove(pool: map<nat, Frame>, top: seq<nat>, p: nat)
    requires Falling(pool, top) && Distinct(top)
    ensures Falling(pool, Remove(top, p))
  {
    if top != [] {
      var h, rest := top[0], top[1..];
      forall i, j | 0 <= i < j < |rest|
        ensures Newer(pool, rest[i], rest[j])
      {
        assert Newer(pool, top[i + 1], top[j + 1]);
      }
      if h != p {
        FallingRemove(pool, rest, p);
        RemoveMembers(rest, p);
        assert forall q :: q in rest ==> Newer(pool, h, q);
        FallingCons(pool, h, Remove(rest, p));
      }
    }
  }

  /** A page stamped with a fresh tick goes to the front. */
  lemma StampOrdered(pool: map<nat, Frame>, clock: nat, top: seq<nat>, p: nat, frame: Frame)
    requires Ordered(pool, top) && Ticked(pool, clock) && clock < frame.used
    ensures Ordered(pool[p := frame], MoveToFront(top, p))
  {
    var pool' := pool[p := frame];
    var rest := Remove(top, p);
    RemoveMembers(top, p);
    FallingRemove(pool, top, p);
    forall i, j | 0 <= i < j < |rest|
      ensures Newer(pool', rest[i], rest[j])
    {
      assert Newer(pool, rest[i], rest[j]);
      assert rest[i] in rest && rest[j] in rest;
    }
    FallingCons(pool', p, rest);
  }

  lemma {:induction false} RemoveAbsent(r: seq<nat>, p: nat)
    requires p !in r
    ensures Remove(r, p) == r
  {
    if r != [] {
      RemoveAbsent(r[1..], p);
      assert r == [r[0]] + r[1..];
    }
  }

  /** The victim is the last of the list. */
  lemma EvictOrdered(pool: map<nat, Frame>, clock: nat, top: seq<nat>)
    requires Ordered(pool, top) && Ticked(pool, clock) && top != []
    ensures pool != map[] && Oldest(pool) == top[|top| - 1]
    ensures Ordered(pool - {Oldest(pool)}, top[..|top| - 1])
  {
    var n := |top| - 1;
    var v := top[n];
    assert v in pool;
    forall i | i in pool
      ensures pool[v].used <= pool[i].used
    {
      var k :| 0 <= k < |top| && top[k] == i;
      assert k < n ==> Newer(pool, top[k], top[n]);
    }
    OldestUnique(pool, clock, v);
    var pool', top' := pool - {v}, top[..n];
    forall i, j | 0 <= i < j < |top'|
      ensures Newer(pool', top'[i], top'[j])
    {
      assert Newer(pool, top[i], top[j]);
    }
    assert top == top' + [v] && v !in top';
  }

  lemma SameOrder(pool: map<nat, Frame>, pool': map<nat, Frame>, top: seq<nat>)
    requires Ordered(pool, top) && pool'.Keys == pool.Keys
    requires forall i :: i in pool ==> pool'[i].used == pool[i].used
    ensures Ordered(pool', top)
  {
    forall i, j | 0 <= i < j < |top|
      ensures Newer(pool', top[i], top[j])
    {
      assert Newer(pool, top[i], top[j]);
    }
  }

  lemma TopPushed(r: seq<nat>, no: nat, k: nat)
    requires Distinct(r) && |Top(r, k)| == k >= 1 && no !in Top(r, k)
    ensures Top(MoveToFront(r, no), k) == MoveToFront(Top(r, k)[..k - 1], no)
  {
    RemoveAbsent(Top(r, k)[..k - 1], no);
    TopMoves(r, no, k);
  }

  lemma AdmitToFull(s: State, r: seq<nat>, no: nat, frame: Frame)
    requires Resident(s) && Distinct(r) && Ordered(s.pool, Top(r, s.capacity)) && no !in s.pool
    requires |s.pool| == s.capacity && s.clock < frame.used
    ensures s.pool != map[]
    ensures Ordered((s.pool - {Oldest(s.pool)})[no := frame], Top(MoveToFront(r, no), s.capacity))
  {
    OrderedCount(s.pool, Top(r, s.capacity));
    EvictAndStamp(s.pool, s.clock, Top(r, s.capacity), no, frame);
    TopPushed(r, no, s.capacity);
  }

  lemma EvictAndStamp(pool: map<nat, Frame>, clock: nat, top: seq<nat>, no: nat, frame: Frame)
    requires Ordered(pool, top) && Ticked(pool, clock) && top != [] && clock < frame.used
    ensures pool != map[]
    ensures Ordered((pool - {Oldest(pool)})[no := frame], MoveToFront(top[..|top| - 1], no))
  {
    EvictOrdered(pool, clock, top);
    DropTicked(pool, clock, Oldest(pool));
    StampOrdered(pool - {Oldest(pool)}, clock, top[..|top| - 1], no, frame);
  }

  lemma AdmitToFree(s: State, r: seq<nat>, no: nat, frame: Frame)
    requires Resident(s) && Distinct(r) && Ordered(s.pool, Top(r, s.capacity)) && no !in s.pool
    requires |s.pool| < s.capacity && s.clock < frame.used
    ensures Ordered(s.pool[no := frame], Top(MoveToFront(r, no), s.capacity))
  {
    var top := Top(r, s.capacity);
    OrderedCount(s.pool, top);
    StampOrdered(s.pool, s.clock, top, no, frame);
    RemoveAbsent(top, no);
    TopMoves(r, no, s.capacity);
  }

  /** Admission of a page that is not resident, against the recency list. */
  lemma AdmitOrdered(s: State, r: seq<nat>, no: nat, page: Page, dirty: bool)
    requires Resident(s) && Distinct(r) && Ordered(s.pool, Top(r, s.capacity)) && no !in s.pool
    ensures Ordered(Admit(s, no, page, dirty).pool, Top(MoveToFront(r, no), s.capacity))
  {
    if Full(s, no) {
      AdmitToFull(s, r, no, Frame(page, dirty, s.clock + 1));
    } else {
      AdmitToFree(s, r, no, Frame(page, dirty, s.clock + 1));
    }
  }

  lemma HitOrdered(s: State, r: seq<nat>, no: nat)
    requires Resident(s) && Distinct(r) && Ordered(s.pool, Top(r, s.capacity)) && no in s.pool
    ensures Ordered(GetPage(s, no).pool, Top(MoveToFront(r, no), s.capacity))
  {
    var top := Top(r, s.capacity);
    assert Top(MoveToFront(r, no), s.capacity) == MoveToFront(top, no) by {
      assert no in top;
      TopMoves(r, no, s.capacity);
    }
    StampOrdered(s.pool, s.clock, top, no, s.pool[no].(used := s.clock + 1));
  }

  lemma GetOrdered(s: State, r: seq<nat>, no: nat)
    requires Resident(s) && Distinct(r) && Ordered(s.pool, Top(r, s.capacity)) && no < |s.heap|
    ensures Ordered(GetPage(s, no).pool, Top(MoveToFront(r, no), s.capacity))
  {
    if no in s.pool {
      HitOrdered(s, r, no);
    } else {
      AdmitOrdered(s.(clock := s.clock + 1, misses := s.misses + 1), r, no, s.heap[no], false);
    }
  }

  lemma PutOrdered(s: State, r: seq<nat>, no: nat, page: Page)
    requires Valid(s) && Distinct(r) && Ordered(s.pool, Top(r, s.capacity)) && no < |s.heap|
    ensures Ordered(Apply(s, Put(no, page)).pool, Top(MoveToFront(r, no), s.capacity))
  {
    GetOrdered(s, r, no);
    SameOrder(GetPage(s, no).pool, Apply(s, Put(no, page)).pool, Top(MoveToFront(r, no), s.capacity));
  }

  lemma ApplyOrdered(s: State, r: seq<nat>, op: Op)
    requires Valid(s) && Distinct(r) && Ordered(s.pool, Top(r, s.capacity))
    ensures match Touch(op, |s.heap|)
            case None => Ordered(Apply(s, op).pool, Top(r, s.capacity))
            case Some(p) => Ordered(Apply(s, op).pool, Top(MoveToFront(r, p), s.capacity))
  {
    match op
    case Get(no) =>
      if no < |s.heap| {
        GetOrdered(s, r, no);
      } else {
        assert GetPage(s, no).pool == s.pool;
      }
    case New =>
      AdmitOrdered(s.(heap := s.heap + [BlankPage]), r, |s.heap|, BlankPage, true);
    case Put(no, page) =>
      if no < |s.heap| {
        PutOrdered(s, r, no, page);
      } else {
        assert Apply(s, op).pool == s.pool;
      }
    case Mark(no) =>
      SameOrder(s.pool, Apply(s, op).pool, Top(r, s.capacity));
    case Flush =>
      SameOrder(s.pool, Apply(s, op).pool, Top(r, s.capacity));
  }

  /** After any operations the pool holds exactly the `capacity` most recently
      touched pages, its ticks in recency order. */
  lemma {:induction false} HoldsMostRecent(heap: seq<Page>, capacity: nat, ops: seq<Op>)
    ensures Distinct(Recency(heap, ops))
    ensures Ordered(Run(heap, capacity, ops).pool, Top(Recency(heap, ops), if capacity == 0 then 1 else capacity))
  {
    if ops != [] {
      var before := ops[..|ops| - 1];
      HoldsMostRecent(heap, capacity, before);
      var r := Recency(heap, before);
      ApplyOrdered(Run(heap, capacity, before), r, ops[|ops| - 1]);
      match Touch(ops[|ops| - 1], |PlainRun(heap, before)|)
      case None =>
      case Some(p) => RemoveMembers(r, p);
    }
  }

  /** A larger pool holds everything a smaller one does on the same operations. */
  lemma LargerHoldsSmaller(heap: seq<Page>, small: nat, large: nat, ops: seq<Op>)
    requires small <= large
    ensures Run(heap, small, ops).pool.Keys <= Run(heap, large, ops).pool.Keys
  {
    HoldsMostRecent(heap, small, ops);
    HoldsMostRecent(heap, large, ops);
    var r := Recency(heap, ops);
    var a, b := Start(heap, small).capacity, Start(heap, large).capacity;
    assert Top(r, a) == Top(r, b)[..|Top(r, a)|];
    forall p | p in Run(heap, small, ops).pool
      ensures p in Run(heap, large, ops).pool
    {
      assert p in Top(r, a) && p in Top(r, b);
    }
  }

  lemma CountAccess(s: State, op: Op)
    requires Valid(s)
    ensures Apply(s, op).hits == s.hits + (if (op.Get? || op.Put?) && op.no in s.pool then 1 else 0)
    ensures Apply(s, op).hits + Apply(s, op).misses == s.hits + s.misses + (if op.Get? || op.Put? then 1 else 0)
  {
  }

  /** So a larger pool never has fewer hits, over the same number of lookups. */
  lemma {:induction false} LargerHitsMore(heap: seq<Page>, small: nat, large: nat, ops: seq<Op>)
    requires small <= large
    ensures Run(heap, small, ops).hits <= Run(heap, large, ops).hits
    ensures Run(heap, small, ops).hits + Run(heap, small, ops).misses
         == Run(heap, large, ops).hits + Run(heap, large, ops).misses
  {
    if ops != [] {
      var before, op := ops[..|ops| - 1], ops[|ops| - 1];
      LargerHitsMore(heap, small, large, before);
      LargerHoldsSmaller(heap, small, large, before);
      CountAccess(Run(heap, small, before), op);
      CountAccess(Run(heap, large, before), op);
    }
  }

  /** Operation number `i` touches the page. */
  ghost predicate TouchedAt(heap: seq<Page>, ops: seq<Op>, i: int, p: nat) {
    0 <= i < |ops| && Touch(ops[i], |PlainRun(heap, ops[..i])|) == Some(p)
  }

  /** It is the last one that does. */
  ghost predicate LastTouch(heap: seq<Page>, ops: seq<Op>, i: int, p: nat) {
    TouchedAt(heap, ops, i, p) && forall j :: i < j < |ops| ==> !TouchedAt(heap, ops, j, p)
  }

  lemma TouchedInit(heap: seq<Page>, ops: seq<Op>, i: int, p: nat)
    requires ops != [] && i < |ops| - 1
    ensures TouchedAt(heap, ops, i, p) <==> TouchedAt(heap, ops[..|ops| - 1], i, p)
  {
    if 0 <= i {
      assert ops[..|ops| - 1][..i] == ops[..i];
    }
  }

  lemma LastTouchNow(heap: seq<Page>, ops: seq<Op>, p: nat, i: int)
    requires TouchedAt(heap, ops, |ops| - 1, p)
    ensures LastTouch(heap, ops, i, p) <==> i == |ops| - 1
  {
  }

  lemma LastTouchBefore(heap: seq<Page>, ops: seq<Op>, p: nat, i: int)
    requires ops != [] && !TouchedAt(heap, ops, |ops| - 1, p)
    ensures LastTouch(heap, ops, i, p) <==> LastTouch(heap, ops[..|ops| - 1], i, p)
  {
    var init := ops[..|ops| - 1];
    if i < |init| {
      TouchedInit(heap, ops, i, p);
    }
    forall j | i < j < |init|
      ensures TouchedAt(heap, ops, j, p) <==> TouchedAt(heap, init, j, p)
    {
      TouchedInit(heap, ops, j, p);
    }
  }

  ghost predicate Precedes(r: seq<nat>, x: nat, y: nat) {
    exists a, b :: 0 <= a < b < |r| && r[a] == x && r[b] == y
  }

  lemma PrecedesCons(r: seq<nat>, p: nat, x: nat, y: nat)
    ensures Precedes([p] + r, x, y) <==> (x == p && y in r) || Precedes(r, x, y)
  {
    var all := [p] + r;
    if a, b :| 0 <= a < b < |all| && all[a] == x && all[b] == y {
      assert r[b - 1] == y && (a > 0 ==> r[a - 1] == x);
    }
    if x == p && y in r {
      var b :| 0 <= b < |r| && r[b] == y;
      assert all[0] == x && all[b + 1] == y;
    }
    if a, b :| 0 <= a < b < |r| && r[a] == x && r[b] == y {
      assert all[a + 1] == x && all[b + 1] == y;
    }
  }

  lemma {:induction false} RemovePrecedes(r: seq<nat>, p: nat, x: nat, y: nat)
    requires Distinct(r) && x != p && y != p
    ensures Precedes(Remove(r, p), x, y) <==> Precedes(r, x, y)
  {
    if r != [] {
      DistinctTail(r);
      assert r == [r[0]] + r[1..];
      PrecedesCons(r[1..], r[0], x, y);
      if r[0] != p {
        RemovePrecedes(r[1..], p, x, y);
        RemoveMembers(r[1..], p);
        PrecedesCons(Remove(r[1..], p), r[0], x, y);
      }
    }
  }

  ghost predicate Touched(heap: seq<Page>, ops: seq<Op>, p: nat) {
    exists i :: LastTouch(heap, ops, i, p)
  }

  /** The page was touched last at some moment, and the other one at an earlier one. */
  ghost predicate LaterThan(heap: seq<Page>, ops: seq<Op>, x: nat, y: nat) {
    exists i, j :: LastTouch(heap, ops, i, x) && LastTouch(heap, ops, j, y) && i > j
  }

  lemma LaterNow(heap: seq<Page>, ops: seq<Op>, x: nat, y: nat)
    requires x != y && TouchedAt(heap, ops, |ops| - 1, x)
    ensures LaterThan(heap, ops, x, y) <==> Touched(heap, ops[..|ops| - 1], y)
    ensures !LaterThan(heap, ops, y, x)
  {
    var n := |ops| - 1;
    LastTouchNow(heap, ops, x, n);
    if i, j :| LastTouch(heap, ops, i, x) && LastTouch(heap, ops, j, y) && i > j {
      LastTouchBefore(heap, ops, y, j);
    }
    var init := ops[..n];
    if j :| LastTouch(heap, init, j, y) {
      LastTouchBefore(heap, ops, y, j);
      assert LastTouch(heap, ops, n, x) && LastTouch(heap, ops, j, y) && n > j;
    }
    if i, j :| LastTouch(heap, ops, i, y) && LastTouch(heap, ops, j, x) && i > j {
      LastTouchNow(heap, ops, x, j);
    }
  }

  lemma LaterBefore(heap: seq<Page>, ops: seq<Op>, x: nat, y: nat)
    requires ops != [] && !TouchedAt(heap, ops, |ops| - 1, x) && !TouchedAt(heap, ops, |ops| - 1, y)
    ensures LaterThan(heap, ops, x, y) <==> LaterThan(heap, ops[..|ops| - 1], x, y)
  {
    if i, j :| LastTouch(heap, ops, i, x) && LastTouch(heap, ops, j, y) && i > j {
      LastTouchBefore(heap, ops, x, i);
      LastTouchBefore(heap, ops, y, j);
    }
    var init := ops[..|ops| - 1];
    if i, j :| LastTouch(heap, init, i, x) && LastTouch(heap, init, j, y) && i > j {
      LastTouchBefore(heap, ops, x, i);
      LastTouchBefore(heap, ops, y, j);
    }
  }

  lemma {:induction false} RecencyMembers(heap: seq<Page>, ops: seq<Op>, p: nat)
    ensures p in Recency(heap, ops) <==> Touched(heap, ops, p)
  {
    if ops != [] {
      var init, n := ops[..|ops| - 1], |ops| - 1;
      RecencyMembers(heap, init, p);
      HoldsMostRecent(heap, 1, init);
      var touch := Touch(ops[n], |PlainRun(heap, init)|);
      if touch.Some? {
        RemoveMembers(Recency(heap, init), touch.value);
      }
      if touch == Some(p) {
        LastTouchNow(heap, ops, p, n);
      } else if i :| LastTouch(heap, ops, i, p) {
        LastTouchBefore(heap, ops, p, i);
      } else if i :| LastTouch(heap, init, i, p) {
        LastTouchBefore(heap, ops, p, i);
      }
    }
  }

  /** The list is the pages that were touched, in the order of their last touches, latest
      first. */
  lemma {:induction false} RecencyExactly(heap: seq<Page>, ops: seq<Op>, x: nat, y: nat)
    requires x != y
    ensures x in Recency(heap, ops) <==> Touched(heap, ops, x)
    ensures Precedes(Recency(heap, ops), x, y) <==> LaterThan(heap, ops, x, y)
  {
    RecencyMembers(heap, ops, x);
    if ops != [] {
      var init, n := ops[..|ops| - 1], |ops| - 1;
      var r := Recency(heap, init);
      RecencyExactly(heap, init, x, y);
      HoldsMostRecent(heap, 1, init);
      var touch := Touch(ops[n], |PlainRun(heap, init)|);
      if touch.None? {
        LaterBefore(heap, ops, x, y);
      } else {
        MovedPrecedes(r, touch.value, x, y);
        if touch.value == x {
          RecencyMembers(heap, init, y);
          LaterNow(heap, ops, x, y);
        } else if touch.value == y {
          LaterNow(heap, ops, y, x);
        } else {
          LaterBefore(heap, ops, x, y);
        }
      }
    }
  }

  lemma MovedPrecedes(r: seq<nat>, p: nat, x: nat, y: nat)
    requires Distinct(r) && x != y
    ensures Precedes(MoveToFront(r, p), x, y) <==>
            if p == x then y in r else if p == y then false else Precedes(r, x, y)
  {
    RemoveMembers(r, p);
    PrecedesCons(Remove(r, p), p, x, y);
    if x != p && y != p {
      RemovePrecedes(r, p, x, y);
    } else if a, b :| 0 <= a < b < |Remove(r, p)| && Remove(r, p)[a] == x && Remove(r, p)[b] == y {
      assert false;
    }
  }

  /** A lookup of a page among the `capacity` touched last. */
  ghost predicate HitAt(heap: seq<Page>, capacity: nat, ops: seq<Op>, i: int) {
    && 0 <= i < |ops| && (ops[i].Get? || ops[i].Put?)
    && ops[i].no in Top(Recency(heap, ops[..i]), if capacity == 0 then 1 else capacity)
  }

  ghost function HitsOf(heap: seq<Page>, capacity: nat, ops: seq<Op>): set<int> {
    set i | 0 <= i < |ops| && HitAt(heap, capacity, ops, i)
  }

  ghost function LookupsOf(ops: seq<Op>): set<int> {
    set i | 0 <= i < |ops| && (ops[i].Get? || ops[i].Put?)
  }

  lemma HitsSnoc(heap: seq<Page>, capacity: nat, ops: seq<Op>)
    requires ops != []
    ensures |HitsOf(heap, capacity, ops)| ==
            |HitsOf(heap, capacity, ops[..|ops| - 1])| + if HitAt(heap, capacity, ops, |ops| - 1) then 1 else 0
  {
    var before, n := ops[..|ops| - 1], |ops| - 1;
    var hits, hits' := HitsOf(heap, capacity, before), HitsOf(heap, capacity, ops);
    forall i
      ensures i in hits' <==> i in hits || (i == n && HitAt(heap, capacity, ops, n))
    {
      if 0 <= i < n {
        HitInit(heap, capacity, ops, i);
      }
    }
    GrowsBy(hits, hits', n, HitAt(heap, capacity, ops, n));
  }

  lemma GrowsBy(a: set<int>, b: set<int>, n: int, grows: bool)
    requires n !in a && forall i :: i in b <==> i in a || (i == n && grows)
    ensures |b| == |a| + if grows then 1 else 0
  {
    var all := if grows then a + {n} else a;
    assert forall i :: i in b <==> i in all;
    assert b == all;
  }

  lemma HitInit(heap: seq<Page>, capacity: nat, ops: seq<Op>, i: nat)
    requires i < |ops| - 1
    ensures HitAt(heap, capacity, ops, i) <==> HitAt(heap, capacity, ops[..|ops| - 1], i)
  {
    assert ops[..|ops| - 1][..i] == ops[..i];
  }

  lemma LookupsSnoc(ops: seq<Op>)
    requires ops != []
    ensures var op := ops[|ops| - 1];
            |LookupsOf(ops)| == |LookupsOf(ops[..|ops| - 1])| + if op.Get? || op.Put? then 1 else 0
  {
    var n := |ops| - 1;
    var before := LookupsOf(ops[..n]);
    assert LookupsOf(ops) == if ops[n].Get? || ops[n].Put? then before + {n} else before;
  }

  lemma HitIsResident(heap: seq<Page>, capacity: nat, ops: seq<Op>)
    requires ops != []
    ensures var before, op := ops[..|ops| - 1], ops[|ops| - 1];
            HitAt(heap, capacity, ops, |ops| - 1) <==>
            (op.Get? || op.Put?) && op.no in Run(heap, capacity, before).pool
  {
    HoldsMostRecent(heap, capacity, ops[..|ops| - 1]);
  }

  /** The counters count the lookups, and among them those of pages recent enough. */
  lemma {:induction false} HitsExactly(heap: seq<Page>, capacity: nat, ops: seq<Op>)
    ensures Run(heap, capacity, ops).hits == |HitsOf(heap, capacity, ops)|
    ensures Run(heap, capacity, ops).hits + Run(heap, capacity, ops).misses == |LookupsOf(ops)|
  {
    if ops != [] {
      var before := ops[..|ops| - 1];
      HitsExactly(heap, capacity, before);
      HitsSnoc(heap, capacity, ops);
      LookupsSnoc(ops);
      HitIsResident(heap, capacity, ops);
      CountAccess(Run(heap, capacity, before), ops[|ops| - 1]);
    }
  }

  // --- Flushing frame by frame -----------------------------------------------------------------

  ghost function Write(s: State, no: nat): State
    requires no in s.pool && no < |s.heap|
  {
    s.(heap := s.heap[no := s.pool[no].page], pool := s.pool[no := s.pool[no].(dirty := false)])
  }

  /** All dirty frames of `s0` but these are written back. */
  ghost predicate FlushedBut(s0: State, s: State, dirty: set<nat>) {
    && |s.heap| == |s0.heap| && s.pool.Keys == s0.pool.Keys
    && s == s0.(heap := s.heap, pool := s.pool)
    && (forall i :: i in s0.pool ==> i < |s0.heap|)
    && (forall i :: i in dirty ==> i in s.pool && s.pool[i] == s0.pool[i] && s.pool[i].dirty)
    && (forall i :: i in s.pool && i !in dirty ==> s.pool[i] == s0.pool[i].(dirty := false))
    && (forall i :: 0 <= i < |s.heap| ==> s.heap[i] == Flushed(s0, dirty, i))
  }

  ghost function Flushed(s0: State, dirty: set<nat>, i: nat): Page
    requires i < |s0.heap|
  {
    if i in s0.pool && s0.pool[i].dirty && i !in dirty then s0.pool[i].page else s0.heap[i]
  }

  lemma FlushedNext(s0: State, s: State, dirty: set<nat>, no: nat)
    requires FlushedBut(s0, s, dirty) && no in dirty
    ensures no in s.pool && no < |s.heap| && FlushedBut(s0, Write(s, no), dirty - {no})
  {
  }

  lemma FlushedEnd(s0: State, s: State)
    requires FlushedBut(s0, s, {})
    ensures s == FlushAll(s0)
  {
    assert s.heap == FlushAll(s0).heap && s.pool == FlushAll(s0).pool;
  }

  // --- The manager ----------------------------------------------------------------------------

  class BufferManager {
    var heap: seq<Page>
    var pool: map<nat, Frame>
    var capacity: nat
    var clock: nat
    var hits: nat
    var misses: nat

    ghost function Now(): State
      reads this
    {
      State(heap, pool, capacity, clock, hits, misses)
    }

    constructor (pages: seq<Page>, size: nat)
      ensures Now() == Start(pages, size)
      ensures capacity == (if size == 0 then 1 else size) && heap == pages && pool == map[]
      ensures clock == hits == misses == 0
    {
      heap, pool := pages, map[];
      capacity := if size < 1 then 1 else size;
      clock, hits, misses := 0, 0, 0;
    }

    /** `min_by_key` over the frames. */
    method FindVictim() returns (v: nat)
      requires pool != map[]
      ensures IsOldest(pool, v)
    {
      var todo := pool.Keys;
      v := Pick(todo);
      todo := todo - {v};
      while todo != {}
        invariant todo <= pool.Keys
        invariant v in pool && forall i :: i in pool && i !in todo ==> pool[v].used <= pool[i].used
        decreases todo
      {
        var no := Pick(todo);
        todo := todo - {no};
        if pool[no].used < pool[v].used {
          v := no;
        }
      }
    }

    method EvictOne()
      requires Resident(Now()) && pool != map[]
      modifies this
      ensures Now() == Drop(old(Now()), Oldest(old(pool)))
    {
      var no := FindVictim();
      OldestUnique(pool, clock, no);
      var frame := pool[no];
      pool := pool - {no};
      if frame.dirty {
        heap := heap[no := frame.page];
      }
    }

    method AdmitPage(no: nat, page: Page, dirty: bool)
      requires Resident(Now())
      modifies this
      ensures Now() == Admit(old(Now()), no, page, dirty)
    {
      if |pool| >= capacity && no !in pool {
        EvictOne();
      }
      clock := clock + 1;
      pool := pool[no := Frame(page, dirty, clock)];
    }

    /** `None` is the I/O error of reading past the end of the heap. */
    method Fetch(no: nat) returns (page: Option<Page>)
      requires Resident(Now())
      modifies this
      ensures Now() == GetPage(old(Now()), no)
      ensures page == if no < old(|heap|) then Some(PageAt(old(Now()), no)) else None
    {
      clock := clock + 1;
      if no in pool {
        pool := pool[no := pool[no].(used := clock)];
        hits := hits + 1;
        return Some(pool[no].page);
      }
      misses := misses + 1;
      if no >= |heap| {
        return None;
      }
      AdmitPage(no, heap[no], false);
      page := Some(pool[no].page);
    }

    method Allocate() returns (no: nat)
      requires Resident(Now())
      modifies this
      ensures Now() == NewPage(old(Now())) && no == old(|heap|)
    {
      no := |heap|;
      heap := heap + [BlankPage];
      AdmitPage(no, BlankPage, true);
    }

    /** The caller writes through the reference it was handed. */
    method WriteThrough(no: nat, page: Page)
      modifies this
      ensures Now() == Edit(old(Now()), no, page)
    {
      if no in pool {
        pool := pool[no := pool[no].(page := page)];
      }
    }

    method SetDirty(no: nat)
      modifies this
      ensures Now() == MarkDirty(old(Now()), no)
    {
      if no in pool {
        pool := pool[no := pool[no].(dirty := true)];
      }
    }

    /** `get_page`, an edit, and `mark_dirty` when the caller remembers it. */
    method Modify(no: nat, page: Page, marked: bool) returns (found: bool)
      requires Resident(Now())
      modifies this
      ensures found == (no < old(|heap|))
      ensures Now() == if marked then Apply(old(Now()), Put(no, page)) else Edit(GetPage(old(Now()), no), no, page)
    {
      var handed := Fetch(no);
      WriteThrough(no, page);
      if marked {
        SetDirty(no);
      }
      found := handed.Some?;
    }

    method Sync()
      requires forall i :: i in pool ==> i < |heap|
      modifies this
      ensures Now() == FlushAll(old(Now()))
    {
      ghost var s0 := Now();
      var dirty := set no | no in pool && pool[no].dirty;
      while dirty != {}
        invariant FlushedBut(s0, Now(), dirty)
        decreases dirty
      {
        var no := Pick(dirty);
        FlushedNext(s0, Now(), dirty, no);
        dirty := dirty - {no};
        heap := heap[no := pool[no].page];
        pool := pool[no := pool[no].(dirty := false)];
      }
      FlushedEnd(s0, Now());
    }
  }
}
