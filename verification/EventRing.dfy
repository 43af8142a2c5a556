/** A window's ring of 32 events. The window manager posts at the tail, the server polls at
    the head, and neither looks at the other's index. `EveryPoll` says what each poll of any
    run returns; the ring is a queue on runs that neither overfill it nor poll it empty. */
module EventRing {
  import opened Arithmetic

  datatype Event = Event(wid: int, msg: int, long1: int, long2: int)

  const NO_EVENT := Event(0, 0, 0, 0)
  const SIZE: nat := 32

  datatype Ring = Ring(slots: seq<Event>, head: int, tail: int) {
    predicate Valid() {
      |slots| == SIZE && 0 <= head < SIZE && 0 <= tail < SIZE
    }

    function Post(e: Event): (r: Ring)
      requires Valid()
      ensures r.Valid()
    {
      Ring(slots[tail := e], head, if tail + 1 >= SIZE then 0 else tail + 1)
    }

    function Poll(): (r: (Event, Ring))
      requires Valid()
      ensures r.1.Valid()
    {
      (slots[head], Ring(slots[head := NO_EVENT], if head + 1 >= SIZE then 0 else head + 1, tail))
    }
  }

  class Window {
    var slots: array<Event>
    var head: int
    var tail: int

    ghost predicate Valid()
      reads this, slots
    {
      slots.Length == SIZE && 0 <= head < SIZE && 0 <= tail < SIZE
    }

    ghost function State(): (r: Ring)
      requires Valid()
      reads this, slots
      ensures r.Valid()
    {
      Ring(slots[..], head, tail)
    }

    constructor ()
      ensures Valid() && fresh(slots)
      ensures State() == Ring(seq(SIZE, _ => NO_EVENT), 0, 0)
    {
      slots := new Event[SIZE](_ => NO_EVENT);
      head := 0;
      tail := 0;
    }

    method Post(e: Event)
      requires Valid()
      modifies this`tail, slots
      ensures Valid() && State() == old(State()).Post(e)
    {
      slots[tail] := e;
      tail := tail + 1;
      if tail >= SIZE {
        tail := 0;
      }
    }

    method Poll() returns (e: Event)
      requires Valid()
      modifies this`head, slots
      ensures Valid() && (e, State()) == old(State()).Poll()
    {
      var h := head;
      e := slots[h];
      head := head + 1;
      if head >= SIZE {
        head := 0;
      }
      slots[h] := NO_EVENT;
    }
  }

  // ---------------------------------------------------------------- runs

  datatype Op = Posted(e: Event) | Polled

  // How many posts, and how many polls, a run has.
  function Posts(ops: seq<Op>): nat {
    if ops == [] then 0 else Posts(ops[..|ops| - 1]) + if ops[|ops| - 1].Posted? then 1 else 0
  }

  function Polls(ops: seq<Op>): nat {
    if ops == [] then 0 else Polls(ops[..|ops| - 1]) + if ops[|ops| - 1].Polled? then 1 else 0
  }

  // The ring after a run, and what its polls returned.
  function Run(r: Ring, ops: seq<Op>): (res: (Ring, seq<Event>))
    requires r.Valid()
    ensures res.0.Valid() && |res.1| == Polls(ops)
  {
    if ops == [] then (r, [])
    else
      var (before, polled) := Run(r, ops[..|ops| - 1]);
      match ops[|ops| - 1]
      case Posted(e) => (before.Post(e), polled)
      case Polled => (before.Poll().1, polled + [before.Poll().0])
  }

  ghost predicate Empty(r: Ring) {
    r.Valid() && r.head == r.tail && r.slots == seq(SIZE, _ => NO_EVENT)
  }

  // Operation i's number among those of its kind; it touches the slot of that number.
  function Number(ops: seq<Op>, i: nat): nat
    requires i < |ops|
  {
    if ops[i].Posted? then Posts(ops[..i]) else Polls(ops[..i])
  }

  lemma CountsNext(ops: seq<Op>, i: nat)
    requires i < |ops|
    ensures Posts(ops[..i + 1]) == Posts(ops[..i]) + if ops[i].Posted? then 1 else 0
    ensures Polls(ops[..i + 1]) == Polls(ops[..i]) + if ops[i].Polled? then 1 else 0
  {
    assert ops[..i + 1][..i] == ops[..i];
  }

  lemma {:induction false} CountsGrow(ops: seq<Op>, i: nat, j: nat)
    requires i <= j <= |ops|
    ensures Posts(ops[..i]) <= Posts(ops[..j]) && Polls(ops[..i]) <= Polls(ops[..j])
    decreases j
  {
    if i < j {
      CountsGrow(ops, i, j - 1);
      CountsNext(ops, j - 1);
    }
  }

  // Between two moments, every number counted has its operation.
  lemma {:induction false} PollNumbered(ops: seq<Op>, i: nat, j: nat, n: nat) returns (q: nat)
    requires i <= j <= |ops| && Polls(ops[..i]) <= n < Polls(ops[..j])
    ensures i <= q < j && ops[q].Polled? && Polls(ops[..q]) == n
    decreases j
  {
    CountsNext(ops, j - 1);
    if n < Polls(ops[..j - 1]) {
      q := PollNumbered(ops, i, j - 1, n);
    } else {
      q := j - 1;
    }
  }

  lemma {:induction false} PostNumbered(ops: seq<Op>, i: nat, j: nat, n: nat) returns (q: nat)
    requires i <= j <= |ops| && Posts(ops[..i]) <= n < Posts(ops[..j])
    ensures i <= q < j && ops[q].Posted? && Posts(ops[..q]) == n
    decreases j
  {
    CountsNext(ops, j - 1);
    if n < Posts(ops[..j - 1]) {
      q := PostNumbered(ops, i, j - 1, n);
    } else {
      q := j - 1;
    }
  }

  // ---------------------------------------------------------------- what a slot holds

  function Slot(r: Ring, n: nat): (s: nat)
    requires r.Valid()
    ensures s < SIZE
  {
    (r.head + n) % SIZE
  }

  lemma SlotNext(r: Ring, n: nat)
    requires r.Valid()
    ensures Slot(r, n + 1) == if Slot(r, n) + 1 >= SIZE then 0 else Slot(r, n) + 1
  {
    var m := r.head + n;
    assert m == SIZE * (m / SIZE) + m % SIZE;
    DivUnique(m + 1, SIZE, if m % SIZE + 1 >= SIZE then m / SIZE + 1 else m / SIZE);
  }

  lemma SameSlot(r: Ring, m: nat, n: nat)
    requires r.Valid()
    ensures Slot(r, m) == Slot(r, n) <==> m % SIZE == n % SIZE
  {
  }

  // The indices count posts and polls.
  lemma {:induction false} RunIndices(r: Ring, ops: seq<Op>)
    requires Empty(r)
    ensures Run(r, ops).0.head == Slot(r, Polls(ops)) && Run(r, ops).0.tail == Slot(r, Posts(ops))
  {
    hide Slot;
    if ops == [] {
      FirstSlot(r);
    } else {
      RunIndices(r, ops[..|ops| - 1]);
      SlotNext(r, Polls(ops[..|ops| - 1]));
      SlotNext(r, Posts(ops[..|ops| - 1]));
    }
  }

  lemma FirstSlot(r: Ring)
    requires r.Valid()
    ensures Slot(r, 0) == r.head
  {
  }

  // Operation p is the last of the run to touch the slot of number c.
  ghost predicate LastTouch(ops: seq<Op>, p: nat, c: nat) {
    && p < |ops| && Number(ops, p) % SIZE == c % SIZE
    && forall q :: p < q < |ops| ==> Number(ops, q) % SIZE != c % SIZE
  }

  lemma NumberInPrefix(ops: seq<Op>, n: nat, q: nat)
    requires q < n <= |ops|
    ensures Number(ops[..n], q) == Number(ops, q)
  {
    assert ops[..n][..q] == ops[..q];
  }

  lemma LastTouchNext(ops: seq<Op>, p: nat, c: nat)
    requires ops != []
    ensures var n := |ops| - 1;
            if Number(ops, n) % SIZE == c % SIZE then LastTouch(ops, p, c) <==> p == n
            else LastTouch(ops, p, c) <==> LastTouch(ops[..n], p, c)
  {
    hide Number;
    var n := |ops| - 1;
    forall q | 0 <= q < n ensures Number(ops[..n], q) == Number(ops, q) {
      NumberInPrefix(ops, n, q);
    }
    if LastTouch(ops, p, c) && p < n {
      assert Number(ops, n) % SIZE != c % SIZE;
    }
  }

  /** After any run from an empty ring a slot holds the event of the last operation that
      touched it, if that was a post, and no event otherwise. */
  lemma {:induction false} SlotHolds(r: Ring, ops: seq<Op>, c: nat)
    requires Empty(r)
    ensures forall p: nat :: LastTouch(ops, p, c) && ops[p].Posted? ==> Run(r, ops).0.slots[Slot(r, c)] == ops[p].e
    ensures (forall p: nat :: LastTouch(ops, p, c) ==> ops[p].Polled?) ==> Run(r, ops).0.slots[Slot(r, c)] == NO_EVENT
  {
    hide Slot, LastTouch;
    if ops == [] {
      NothingTouched(c);
    } else {
      var n := |ops| - 1;
      SlotHolds(r, ops[..n], c);
      RunIndices(r, ops[..n]);
      SameSlot(r, Number(ops, n), c);
      forall p: nat
        ensures if Number(ops, n) % SIZE == c % SIZE then LastTouch(ops, p, c) <==> p == n
                else LastTouch(ops, p, c) <==> LastTouch(ops[..n], p, c)
      {
        LastTouchNext(ops, p, c);
      }
      if Number(ops, n) % SIZE != c % SIZE {
        assert forall p: nat :: LastTouch(ops[..n], p, c) ==> p < n && ops[..n][p] == ops[p] by {
          TouchedWithin(ops[..n], c);
        }
      }
    }
  }

  lemma NothingTouched(c: nat)
    ensures forall p: nat :: !LastTouch([], p, c)
  {
  }

  lemma TouchedWithin(ops: seq<Op>, c: nat)
    ensures forall p: nat :: LastTouch(ops, p, c) ==> p < |ops|
  {
  }

  // ---------------------------------------------------------------- what a poll returns

  /** Poll number k, made as operation i, returns post number j, made as operation p: the
      numbers agree modulo 32, p came after poll k - 32, and no post j + 32 came before i. */
  ghost predicate Delivered(ops: seq<Op>, p: nat, i: nat) {
    && p < i < |ops| && ops[p].Posted? && ops[i].Polled?
    && Posts(ops[..p]) % SIZE == Polls(ops[..i]) % SIZE
    && Polls(ops[..i]) < Polls(ops[..p]) + SIZE
    && Posts(ops[..i]) <= Posts(ops[..p]) + SIZE
  }

  // A later touch of the slot takes it from operation p.
  lemma TouchedLater(ops: seq<Op>, p: nat, q: nat, i: nat, k: nat)
    requires p < q < i <= |ops| && Number(ops, q) % SIZE == k % SIZE
    ensures !LastTouch(ops[..i], p, k)
  {
    NumberInPrefix(ops, i, q);
  }

  lemma LateIsNotLast(ops: seq<Op>, p: nat, i: nat)
    requires p < i < |ops| && ops[i].Polled? && ops[p].Posted?
    requires Polls(ops[..p]) + SIZE <= Polls(ops[..i])
    ensures !LastTouch(ops[..i], p, Polls(ops[..i]))
  {
    hide LastTouch;
    var k := Polls(ops[..i]);
    var q := PollNumbered(ops, p, i, k - SIZE);
    TouchedLater(ops, p, q, i, k);
  }

  lemma OverwrittenIsNotLast(ops: seq<Op>, p: nat, i: nat, k: nat)
    requires p < i <= |ops| && ops[p].Posted? && Posts(ops[..p]) % SIZE == k % SIZE
    requires Posts(ops[..p]) + SIZE < Posts(ops[..i])
    ensures !LastTouch(ops[..i], p, k)
  {
    hide LastTouch;
    CountsNext(ops, p);
    var q := PostNumbered(ops, p + 1, i, Posts(ops[..p]) + SIZE);
    TouchedLater(ops, p, q, i, k);
  }

  lemma OtherSlotIsNotLast(ops: seq<Op>, p: nat, i: nat, k: nat)
    requires p < i <= |ops| && Number(ops, p) % SIZE != k % SIZE
    ensures !LastTouch(ops[..i], p, k)
  {
    NumberInPrefix(ops, i, p);
  }

  // Nothing touches the slot between a post and the poll that returns it.
  lemma NotTouchedBetween(ops: seq<Op>, p: nat, q: nat, i: nat)
    requires Delivered(ops, p, i) && p < q < i
    ensures Number(ops, q) % SIZE != Polls(ops[..i]) % SIZE
  {
    CountsNext(ops, p);
    CountsGrow(ops, p + 1, q);
    CountsNext(ops, q);
    CountsGrow(ops, q + 1, i);
    if ops[q].Posted? {
      NotCongruent(Posts(ops[..p]), Posts(ops[..q]));
    } else {
      NotCongruent(Polls(ops[..q]), Polls(ops[..i]));
    }
  }

  lemma DeliveredNumber(ops: seq<Op>, p: nat, i: nat)
    requires Delivered(ops, p, i)
    ensures Number(ops, p) % SIZE == Polls(ops[..i]) % SIZE
  {
  }

  lemma DeliveredIsLast(ops: seq<Op>, p: nat, i: nat)
    requires Delivered(ops, p, i)
    ensures LastTouch(ops[..i], p, Polls(ops[..i]))
  {
    hide Number, Delivered;
    DeliveredBefore(ops, i);
    NumberInPrefix(ops, i, p);
    DeliveredNumber(ops, p, i);
    forall q | p < q < i ensures Number(ops[..i], q) % SIZE != Polls(ops[..i]) % SIZE {
      NumberInPrefix(ops, i, q);
      NotTouchedBetween(ops, p, q, i);
    }
  }

  lemma DeliveredIsLastTouch(ops: seq<Op>, p: nat, i: nat)
    requires i < |ops| && ops[i].Polled? && p < i && ops[p].Posted?
    ensures LastTouch(ops[..i], p, Polls(ops[..i])) <==> Delivered(ops, p, i)
  {
    hide LastTouch;
    if Delivered(ops, p, i) {
      DeliveredIsLast(ops, p, i);
    } else if Posts(ops[..p]) % SIZE != Polls(ops[..i]) % SIZE {
      OtherSlotIsNotLast(ops, p, i, Polls(ops[..i]));
    } else if Polls(ops[..p]) + SIZE <= Polls(ops[..i]) {
      LateIsNotLast(ops, p, i);
    } else {
      OverwrittenIsNotLast(ops, p, i, Polls(ops[..i]));
    }
  }

  lemma NotCongruent(m: nat, n: nat)
    requires m < n < m + SIZE
    ensures m % SIZE != n % SIZE
  {
  }

  // A poll's answer is what its slot held.
  lemma {:induction false} PollAnswer(r: Ring, ops: seq<Op>, i: nat)
    requires Empty(r) && i < |ops| && ops[i].Polled?
    ensures Polls(ops[..i]) < Polls(ops)
    ensures Run(r, ops).1[Polls(ops[..i])] == Run(r, ops[..i]).0.slots[Slot(r, Polls(ops[..i]))]
    decreases |ops|
  {
    hide Slot;
    var n := |ops| - 1;
    RunIndices(r, ops[..i]);
    if i < n {
      assert ops[..n][..i] == ops[..i];
      PollAnswer(r, ops[..n], i);
    }
  }

  /** Every poll of every run from an empty ring returns the post delivered to it, and no event
      when there is none. */
  lemma EveryPoll(r: Ring, ops: seq<Op>, i: nat)
    requires Empty(r) && i < |ops| && ops[i].Polled?
    ensures Polls(ops[..i]) < Polls(ops)
    ensures forall p: nat :: Delivered(ops, p, i) ==> Run(r, ops).1[Polls(ops[..i])] == ops[p].e
    ensures (forall p: nat :: !Delivered(ops, p, i)) ==> Run(r, ops).1[Polls(ops[..i])] == NO_EVENT
  {
    hide Delivered, LastTouch, Slot;
    var k := Polls(ops[..i]);
    PollAnswer(r, ops, i);
    SlotHolds(r, ops[..i], k);
    TouchedWithin(ops[..i], k);
    DeliveredBefore(ops, i);
    forall p: nat | p < i && ops[p].Posted? ensures LastTouch(ops[..i], p, k) <==> Delivered(ops, p, i) {
      DeliveredIsLastTouch(ops, p, i);
    }
  }

  lemma DeliveredBefore(ops: seq<Op>, i: nat)
    ensures forall p: nat :: Delivered(ops, p, i) ==> p < i < |ops| && ops[p].Posted?
  {
  }

  // ---------------------------------------------------------------- what becomes of a post

  // The number of the first poll of a post's slot after it.
  function Due(ops: seq<Op>, p: nat): nat
    requires p < |ops|
  {
    Polls(ops[..p]) + (Posts(ops[..p]) - Polls(ops[..p])) % SIZE
  }

  lemma DueIs(j: nat, g: nat, k: nat)
    requires g <= k
    ensures k == g + (j - g) % SIZE <==> j % SIZE == k % SIZE && k < g + SIZE
  {
    var d := (j - g) % SIZE;
    assert j - g == SIZE * ((j - g) / SIZE) + d;
    DivUnique(j, SIZE, (j - g) / SIZE + (g + d) / SIZE);
    assert g + d == SIZE * ((g + d) / SIZE) + (g + d) % SIZE;
    if j % SIZE == k % SIZE && k < g + SIZE && k != g + d {
      NotCongruent(if k < g + d then k else g + d, if k < g + d then g + d else k);
    }
  }

  /** A post is returned by the poll it is due at, or by none: it is lost exactly when the post
      32 numbers later came first and took its slot. */
  lemma PostIsDelivered(ops: seq<Op>, p: nat, i: nat)
    requires p < i < |ops| && ops[p].Posted? && ops[i].Polled?
    ensures Delivered(ops, p, i) <==>
            && Polls(ops[..i]) == Due(ops, p)
            && !exists q: nat :: p < q < i && ops[q].Posted? && Posts(ops[..q]) == Posts(ops[..p]) + 32
  {
    var j, k := Posts(ops[..p]), Polls(ops[..i]);
    CountsGrow(ops, p, i);
    DueIs(j, Polls(ops[..p]), k);
    if j + SIZE < Posts(ops[..i]) {
      CountsNext(ops, p);
      var q := PostNumbered(ops, p + 1, i, j + SIZE);
    }
    if q: nat :| p < q < i && ops[q].Posted? && Posts(ops[..q]) == j + SIZE {
      CountsNext(ops, q);
      CountsGrow(ops, q + 1, i);
    }
  }

  lemma ReturnedOnce(ops: seq<Op>, p: nat, a: nat, b: nat)
    requires Delivered(ops, p, a) && a < b
    ensures !Delivered(ops, p, b)
  {
    if Delivered(ops, p, b) {
      NotTouchedBetween(ops, p, a, b);
    }
  }

  lemma OneCandidate(ops: seq<Op>, a: nat, b: nat, i: nat)
    requires Delivered(ops, b, i) && a < b
    ensures !Delivered(ops, a, i)
  {
    if Delivered(ops, a, i) {
      NotTouchedBetween(ops, a, b, i);
    }
  }

  /** No event is returned twice, and no poll has two events to choose from. */
  lemma DeliveredOnce(ops: seq<Op>, p: nat, i: nat, p': nat, i': nat)
    requires Delivered(ops, p, i) && Delivered(ops, p', i')
    ensures p == p' <==> i == i'
  {
    hide Delivered;
    if p == p' && i != i' {
      ReturnedOnce(ops, p, if i < i' then i else i', if i < i' then i' else i);
    }
    if i == i' && p != p' {
      OneCandidate(ops, if p < p' then p else p', if p < p' then p' else p, i);
    }
  }

  // ---------------------------------------------------------------- runs that make a queue

  // The posted events, in order.
  function Events(ops: seq<Op>): (es: seq<Event>)
    ensures |es| == Posts(ops)
  {
    if ops == [] then []
    else Events(ops[..|ops| - 1]) + match ops[|ops| - 1] case Posted(e) => [e] case Polled => []
  }

  // Never posted to when full, never polled when empty.
  ghost predicate Balanced(ops: seq<Op>) {
    forall i :: 0 <= i < |ops| ==>
      if ops[i].Posted? then Posts(ops[..i]) < Polls(ops[..i]) + SIZE else Polls(ops[..i]) < Posts(ops[..i])
  }

  lemma {:induction false} BalancedBounds(ops: seq<Op>, i: nat)
    requires Balanced(ops) && i <= |ops|
    ensures Polls(ops[..i]) <= Posts(ops[..i]) <= Polls(ops[..i]) + SIZE
  {
    if 0 < i {
      BalancedBounds(ops, i - 1);
      CountsNext(ops, i - 1);
    }
  }

  lemma {:induction false} EventAt(ops: seq<Op>, p: nat)
    requires p < |ops| && ops[p].Posted?
    ensures Posts(ops[..p]) < Posts(ops) && Events(ops)[Posts(ops[..p])] == ops[p].e
    decreases |ops|
  {
    var n := |ops| - 1;
    if p < n {
      assert ops[..n][..p] == ops[..p];
      EventAt(ops[..n], p);
    }
  }

  /** Over a balanced run the ring is a first-in first-out queue: the polls return the posted
      events in order, as many as there are polls. */
  lemma RingIsQueue(r: Ring, ops: seq<Op>)
    requires Empty(r) && Balanced(ops)
    ensures Polls(ops) <= Posts(ops) && Run(r, ops).1 == Events(ops)[..Polls(ops)]
  {
    hide Run, Events;
    assert ops[..|ops|] == ops && Polls(ops[..0]) == 0 == Posts(ops[..0]);
    BalancedBounds(ops, |ops|);
    forall k | 0 <= k < Polls(ops) ensures Run(r, ops).1[k] == Events(ops)[k] {
      var i := PollNumbered(ops, 0, |ops|, k);
      var p := PostNumbered(ops, 0, i, k);
      BalancedBounds(ops, i);
      assert Delivered(ops, p, i);
      EveryPoll(r, ops, i);
      EventAt(ops, p);
    }
  }

  // ---------------------------------------------------------------- polling an empty ring

  function Idle(n: nat): seq<Op> {
    seq(n, _ => Polled)
  }

  lemma {:induction false} IdleCounts(ops: seq<Op>, n: nat)
    ensures Posts(ops + Idle(n)) == Posts(ops) && Polls(ops + Idle(n)) == Polls(ops) + n
  {
    if n == 0 {
      assert ops + Idle(0) == ops;
    } else {
      assert (ops + Idle(n))[..|ops| + n - 1] == ops + Idle(n - 1);
      IdleCounts(ops, n - 1);
    }
  }

  // A post after m idle polls, and n more polls.
  function Late(e: Event, m: nat, n: nat): seq<Op> {
    Idle(m) + [Posted(e)] + Idle(n)
  }

  lemma LateCounts(e: Event, m: nat, n: nat)
    ensures var ops := Late(e, m, n);
            && |ops| == m + 1 + n && ops[m] == Posted(e)
            && Posts(ops[..m]) == 0 && Polls(ops[..m]) == m && Posts(ops) == 1 && Polls(ops) == m + n
  {
    var ops := Late(e, m, n);
    assert ops[..m] == [] + Idle(m) && ops[..m + 1] == Idle(m) + [Posted(e)];
    assert ops == ops[..m + 1] + Idle(n);
    IdleCounts([], m);
    CountsNext(ops, m);
    IdleCounts(ops[..m + 1], n);
  }

  lemma LateNext(e: Event, m: nat, n: nat)
    ensures Late(e, m, n + 1)[..m + 1 + n] == Late(e, m, n) && Late(e, m, n + 1)[m + 1 + n] == Polled
    ensures Late(e, m, n)[..m] == Late(e, m, n + 1)[..m]
  {
  }

  lemma LatePost(e: Event, m: nat, n: nat)
    ensures forall p :: 0 <= p < |Late(e, m, n)| && Late(e, m, n)[p].Posted? ==> p == m
  {
  }

  /** After m polls of an empty ring a posted event is not returned by the next poll but by
      the one that brings the head round again: poll number (32 - m % 32) % 32 from there, and
      never again. */
  lemma IdlePollsDelay(r: Ring, e: Event, m: nat, n: nat)
    requires Empty(r)
    ensures m + n < Polls(Late(e, m, n + 1)) &&
            Run(r, Late(e, m, n + 1)).1[m + n] == if n == (32 - m % 32) % 32 then e else Event(0, 0, 0, 0)
  {
    hide Run, Delivered, Late;
    var ops := Late(e, m, n + 1);
    var i := m + 1 + n;
    LateNext(e, m, n);
    LatePost(e, m, n + 1);
    LateCounts(e, m, n);
    LateCounts(e, m, n + 1);
    EveryPoll(r, ops, i);
    DeliveredBefore(ops, i);
    OnlyPost(ops, m, i, n);
  }

  lemma OnlyPost(ops: seq<Op>, m: nat, i: nat, n: nat)
    requires m < i < |ops| && ops[m].Posted? && ops[i].Polled?
    requires Posts(ops[..m]) == 0 && Polls(ops[..m]) == m && Posts(ops[..i]) == 1 && Polls(ops[..i]) == m + n
    ensures Delivered(ops, m, i) <==> n == (SIZE - m % SIZE) % SIZE
  {
    DueIs(0, m, m + n);
    Complement(m, n);
  }

  lemma Complement(m: nat, n: nat)
    ensures (m + n) % SIZE == 0 && n < SIZE <==> n == (SIZE - m % SIZE) % SIZE
  {
    var q, r := m / SIZE, m % SIZE;
    assert m == SIZE * q + r;
    if n < SIZE {
      DivUnique(m + n, SIZE, if r + n < SIZE then q else q + 1);
      assert m + n == SIZE * ((m + n) / SIZE) + (m + n) % SIZE;
    }
  }
}
